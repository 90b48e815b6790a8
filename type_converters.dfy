/** Packing byte sequences into one field element (base-256 Horner), and widening bytes
    to circuit variables. */
module TypeConverters {
  import opened Field

  /** An unsigned 8-bit value. */
  type Byte = b: int | 0 <= b < 256

  /** Big-endian base-256 value of `xs` over the integers: the last entry is the least
      significant digit. */
  function BigEndianValue(xs: seq<int>): int
  {
    if |xs| == 0 then 0 else 256 * BigEndianValue(xs[..|xs| - 1]) + xs[|xs| - 1]
  }

  /** Little-endian base-256 value of `xs` over the integers: the first entry is the least
      significant digit. */
  function LittleEndianValue(xs: seq<int>): int
  {
    if |xs| == 0 then 0 else xs[0] + 256 * LittleEndianValue(xs[1..])
  }

  /** `xs` in reverse order. */
  function Reversed(xs: seq<int>): (r: seq<int>)
    ensures |r| == |xs|
    ensures forall i :: 0 <= i < |xs| ==> r[i] == xs[|xs| - 1 - i]
  {
    if |xs| == 0 then [] else Reversed(xs[1..]) + [xs[0]]
  }

  /** Big-endian packing computed in the field, one Horner step per entry. */
  function PackBig(xs: seq<Felt>): Felt
  {
    if |xs| == 0 then 0 else Add(Mul(256, PackBig(xs[..|xs| - 1])), xs[|xs| - 1])
  }

  /** Little-endian packing computed in the field, one Horner step per entry. */
  function PackLittle(xs: seq<Felt>): Felt
  {
    if |xs| == 0 then 0 else Add(Mul(256, PackLittle(xs[1..])), xs[0])
  }

  /** One packing step in the field is the integer step, reduced. */
  lemma PackStep(cum: Felt, acc: int, c: Felt)
    requires cum == acc % P
    ensures Add(Mul(256, cum), c) == (256 * acc + c) % P
  {
    HornerStepFelt(cum, acc, 256, c);
    assert Mul(256, cum) == Mul(cum, 256);
  }

  /** Field big-endian packing is the integer big-endian value reduced modulo P. */
  lemma {:induction false} PackBigIsValue(xs: seq<Felt>)
    ensures PackBig(xs) == BigEndianValue(xs) % P
    decreases |xs|
  {
    if |xs| > 0 {
      var init := xs[..|xs| - 1];
      PackBigIsValue(init);
      PackStep(PackBig(init), BigEndianValue(init), xs[|xs| - 1]);
    }
  }

  /** Field little-endian packing is the integer little-endian value reduced modulo P. */
  lemma {:induction false} PackLittleIsValue(xs: seq<Felt>)
    ensures PackLittle(xs) == LittleEndianValue(xs) % P
    decreases |xs|
  {
    if |xs| > 0 {
      PackLittleIsValue(xs[1..]);
      PackStep(PackLittle(xs[1..]), LittleEndianValue(xs[1..]), xs[0]);
    }
  }

  /** BigEndian: Horner packing in the field, most significant entry first. */
  method BigEndian(varArr: seq<Felt>) returns (frontendVar: Felt)
    ensures frontendVar == PackBig(varArr) == BigEndianValue(varArr) % P
  {
    frontendVar := 0;
    for i := 0 to |varArr|
      invariant frontendVar == PackBig(varArr[..i])
    {
      assert varArr[..i + 1][..i] == varArr[..i];
      frontendVar := Add(Mul(256, frontendVar), varArr[i]);
    }
    assert varArr[..|varArr|] == varArr;
    PackBigIsValue(varArr);
  }

  /** LittleEndian: Horner packing in the field, most significant (last) entry first. */
  method LittleEndian(varArr: seq<Felt>) returns (frontendVar: Felt)
    ensures frontendVar == PackLittle(varArr) == LittleEndianValue(varArr) % P
  {
    var n := |varArr|;
    frontendVar := 0;
    for i := 0 to n
      invariant frontendVar == PackLittle(varArr[n - i..])
    {
      assert varArr[n - 1 - i..][1..] == varArr[n - i..];
      frontendVar := Add(Mul(256, frontendVar), varArr[n - 1 - i]);
    }
    assert varArr[n - n..] == varArr;
    PackLittleIsValue(varArr);
  }

  /** Little-endian packing is big-endian packing of the reversed sequence. */
  lemma {:induction false} LittleEndianIsReversedBigEndian(xs: seq<int>)
    ensures LittleEndianValue(xs) == BigEndianValue(Reversed(xs))
    decreases |xs|
  {
    if |xs| > 0 {
      var rev := Reversed(xs);
      LittleEndianIsReversedBigEndian(xs[1..]);
      assert rev[..|rev| - 1] == Reversed(xs[1..]);
      assert rev[|rev| - 1] == xs[0];
    }
  }

  /** A one-entry sequence packs to that entry, in either byte order. */
  lemma PackSingleton(b: int)
    ensures BigEndianValue([b]) == b
    ensures LittleEndianValue([b]) == b
  {
    assert [b][..0] == [];
    assert [b][1..] == [];
  }

  /** n bytes pack to a non-negative integer below 256^n. */
  lemma {:induction false} BigEndianBound(xs: seq<Byte>)
    ensures 0 <= BigEndianValue(xs) < Pow(256, |xs|)
    decreases |xs|
  {
    if |xs| > 0 {
      BigEndianBound(xs[..|xs| - 1]);
    }
  }

  /** 256^k grows with k. */
  lemma {:induction false} PowMonotone(k: nat, n: nat)
    requires k <= n
    ensures 0 < Pow(256, k) <= Pow(256, n)
    decreases n
  {
    if k < n {
      PowMonotone(k, n - 1);
    } else if n > 0 {
      PowMonotone(k - 1, n - 1);
    }
  }

  /** Up to 31 bytes pack below P, so the field packing equals the integer packing. */
  lemma ShortBytesDoNotWrap(xs: seq<Byte>)
    requires |xs| <= 31
    ensures BigEndianValue(xs) % P == BigEndianValue(xs)
  {
    BigEndianBound(xs);
    PowMonotone(|xs|, 31);
    assert Pow(256, 8) == 18446744073709551616;
    assert Pow(256, 16) == 340282366920938463463374607431768211456;
    assert Pow(256, 24) == 6277101735386680763835789423207666416102355444464034512896;
    assert Pow(256, 31) == 452312848583266388373324160190187140051835877600158453279131187530910662656;
  }

  /** ByteArrToVarArr: a fresh array holding each byte as a circuit variable. */
  method ByteArrToVarArr(uint8Arr: seq<Byte>) returns (frontendArr: array<Felt>)
    ensures fresh(frontendArr)
    ensures frontendArr.Length == |uint8Arr|
    ensures forall i :: 0 <= i < |uint8Arr| ==> frontendArr[i] == uint8Arr[i]
  {
    frontendArr := new Felt[|uint8Arr|];
    var i := 0;
    while i < frontendArr.Length
      invariant 0 <= i <= frontendArr.Length
      invariant forall k :: 0 <= k < i ==> frontendArr[k] == uint8Arr[k]
    {
      frontendArr[i] := uint8Arr[i];
      i := i + 1;
    }
  }
}
