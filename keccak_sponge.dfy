/** The byte-oriented duplex sponge over the Keccak-f[1600] permutation: a 200-byte state
    (25 lanes of 8 bytes, lane i/8 and byte i%8 flattened to offset i), a rate of 136 bytes,
    an absorb cursor and a squeeze cursor. */
module KeccakSponge {
  import opened TypeConverters

  /** Bytes of the state that Write and Sum touch directly. */
  const RATE: nat := 136

  /** The whole state: 25 lanes of 64 bits. */
  const WIDTH: nat := 200

  /** A full sponge state, byte by byte. */
  type State = s: seq<Byte> | |s| == WIDTH witness seq(WIDTH, _ => 0)

  /** The Keccak-f[1600] permutation, supplied by the caller. */
  type Permutation = State -> State

  /** The all-zero state a new transcript starts from. */
  function ZeroState(): State
  {
    seq(WIDTH, _ => 0)
  }

  /** The abstract value of a digest: its state and its two cursors. */
  datatype Sponge = Sponge(bytes: State, absorbPos: nat, squeezePos: nat)
  {
    /** Both cursors stay within the rate. */
    predicate Valid()
    {
      absorbPos <= RATE && squeezePos <= RATE
    }
  }

  /** Absorbing one byte: permute first when the rate is full, then overwrite the byte at the
      absorb cursor and advance it. */
  function AbsorbByte(perm: Permutation, s: Sponge, b: Byte): (r: Sponge)
    requires s.Valid()
    ensures r.Valid() && r.squeezePos == s.squeezePos && 1 <= r.absorbPos
  {
    var t := if s.absorbPos == RATE then Sponge(perm(s.bytes), 0, s.squeezePos) else s;
    Sponge(t.bytes[t.absorbPos := b], t.absorbPos + 1, t.squeezePos)
  }

  /** Absorbing every byte of `input` in order. */
  function AbsorbAll(perm: Permutation, s: Sponge, input: seq<Byte>): (r: Sponge)
    requires s.Valid()
    ensures r.Valid() && r.squeezePos == s.squeezePos
    decreases |input|
  {
    if |input| == 0 then s
    else AbsorbByte(perm, AbsorbAll(perm, s, input[..|input| - 1]), input[|input| - 1])
  }

  /** The effect of Write: absorb every byte, then put the squeeze cursor at the rate
      boundary so that the next squeezed byte comes after a permutation. */
  function Absorb(perm: Permutation, s: Sponge, input: seq<Byte>): (r: Sponge)
    requires s.Valid()
    ensures r.Valid() && r.squeezePos == RATE
  {
    AbsorbAll(perm, s, input).(squeezePos := RATE)
  }

  /** Squeezing one byte: when the squeeze cursor is at the rate boundary, reset both cursors
      and permute; then emit the byte at the squeeze cursor and advance it. */
  function SqueezeByte(perm: Permutation, s: Sponge): (r: (Sponge, Byte))
    requires s.Valid()
    ensures r.0.Valid() && 1 <= r.0.squeezePos
  {
    var t := if s.squeezePos == RATE then Sponge(perm(s.bytes), 0, 0) else s;
    (t.(squeezePos := t.squeezePos + 1), t.bytes[t.squeezePos])
  }

  /** The effect of Sum(n): squeeze n bytes in order. */
  function SqueezeAll(perm: Permutation, s: Sponge, n: nat): (r: (Sponge, seq<Byte>))
    requires s.Valid()
    ensures r.0.Valid() && |r.1| == n
  {
    if n == 0 then (s, [])
    else
      var prev := SqueezeAll(perm, s, n - 1);
      var next := SqueezeByte(perm, prev.0);
      (next.0, prev.1 + [next.1])
  }

  /** Absorbing a then b is absorbing a + b. */
  lemma {:induction false} AbsorbAllConcat(perm: Permutation, s: Sponge, a: seq<Byte>, b: seq<Byte>)
    requires s.Valid()
    ensures AbsorbAll(perm, AbsorbAll(perm, s, a), b) == AbsorbAll(perm, s, a + b)
    decreases |b|
  {
    if |b| == 0 {
      assert a + b == a;
    } else {
      AbsorbAllConcat(perm, s, a, b[..|b| - 1]);
      assert (a + b)[..|a + b| - 1] == a + b[..|b| - 1];
    }
  }

  /** Absorbing never reads the squeeze cursor. */
  lemma {:induction false} AbsorbAllIgnoresSqueezeCursor(perm: Permutation, s: Sponge, input: seq<Byte>, pos: nat)
    requires s.Valid() && pos <= RATE
    ensures AbsorbAll(perm, s.(squeezePos := pos), input) == AbsorbAll(perm, s, input).(squeezePos := pos)
    decreases |input|
  {
    if |input| > 0 {
      AbsorbAllIgnoresSqueezeCursor(perm, s, input[..|input| - 1], pos);
    }
  }

  /** Two Writes in a row act as one Write of the concatenated input. */
  lemma WriteConcat(perm: Permutation, s: Sponge, a: seq<Byte>, b: seq<Byte>)
    requires s.Valid()
    ensures Absorb(perm, Absorb(perm, s, a), b) == Absorb(perm, s, a + b)
  {
    AbsorbAllIgnoresSqueezeCursor(perm, AbsorbAll(perm, s, a), b, RATE);
    AbsorbAllConcat(perm, s, a, b);
  }

  /** While the input fits before the rate boundary, absorbing overwrites (does not XOR)
      the bytes from the absorb cursor on, advances the cursor by the input's length and
      leaves every other byte, the capacity included, as it was. */
  lemma {:induction false} AbsorbWithinRate(perm: Permutation, s: Sponge, input: seq<Byte>)
    requires s.Valid() && s.absorbPos + |input| <= RATE
    ensures AbsorbAll(perm, s, input).bytes
         == s.bytes[..s.absorbPos] + input + s.bytes[s.absorbPos + |input|..]
    ensures AbsorbAll(perm, s, input).absorbPos == s.absorbPos + |input|
    decreases |input|
  {
    var p := s.absorbPos;
    var n := |input|;
    if n == 0 {
      assert s.bytes[..p] + input + s.bytes[p..] == s.bytes;
    } else {
      var init := input[..n - 1];
      AbsorbWithinRate(perm, s, init);
      var before := AbsorbAll(perm, s, init);
      var after := AbsorbAll(perm, s, input);
      assert after.bytes == before.bytes[p + n - 1 := input[n - 1]];
      var want := s.bytes[..p] + input + s.bytes[p + n..];
      assert |after.bytes| == |want|;
      forall k | 0 <= k < WIDTH
        ensures after.bytes[k] == want[k]
      {
        if k < p {
        } else if k < p + n - 1 {
          assert before.bytes[k] == init[k - p];
        } else if k == p + n - 1 {
        } else {
          assert before.bytes[k] == s.bytes[k];
        }
      }
    }
  }

  /** Squeezing m >= a bytes ends in the state reached by squeezing a bytes and then m - a
      more: consecutive Sums continue one squeeze stream. */
  lemma {:induction false} SqueezeAllConcatState(perm: Permutation, s: Sponge, a: nat, m: nat)
    requires s.Valid() && a <= m
    ensures SqueezeAll(perm, s, m).0 == SqueezeAll(perm, SqueezeAll(perm, s, a).0, m - a).0
    decreases m
  {
    if a < m {
      SqueezeAllConcatState(perm, s, a, m - 1);
    }
  }

  /** Within one block, squeezing only advances the squeeze cursor. */
  lemma {:induction false} SqueezeWithinRateState(perm: Permutation, s: Sponge, n: nat)
    requires s.Valid() && s.squeezePos + n <= RATE
    ensures SqueezeAll(perm, s, n).0 == s.(squeezePos := s.squeezePos + n)
    decreases n
  {
    if n > 0 {
      SqueezeWithinRateState(perm, s, n - 1);
    }
  }

  /** Within one block, squeezing reads the bytes from the squeeze cursor on, without a
      permutation; Sum(0) returns nothing and changes nothing. */
  lemma {:induction false} SqueezeWithinRate(perm: Permutation, s: Sponge, n: nat)
    requires s.Valid() && s.squeezePos + n <= RATE
    ensures SqueezeAll(perm, s, n).0 == s.(squeezePos := s.squeezePos + n)
    ensures SqueezeAll(perm, s, n).1 == s.bytes[s.squeezePos..s.squeezePos + n]
    decreases n
  {
    SqueezeWithinRateState(perm, s, n);
    if n > 0 {
      SqueezeWithinRate(perm, s, n - 1);
      var q := s.squeezePos;
      var prev := SqueezeAll(perm, s, n - 1);
      assert prev.0 == s.(squeezePos := q + n - 1);
      assert SqueezeAll(perm, s, n).1 == prev.1 + [s.bytes[q + n - 1]];
      assert s.bytes[q..q + n - 1] + [s.bytes[q + n - 1]] == s.bytes[q..q + n];
    }
  }

  /** From the rate boundary, squeezing 1 <= n <= RATE bytes permutes once, resets the
      absorb cursor and returns the first n bytes of the permuted state. */
  lemma {:induction false} SqueezeFromBoundary(perm: Permutation, t: Sponge, n: nat)
    requires t.Valid() && t.squeezePos == RATE && 1 <= n <= RATE
    ensures SqueezeAll(perm, t, n).0 == Sponge(perm(t.bytes), 0, n)
    ensures SqueezeAll(perm, t, n).1 == perm(t.bytes)[..n]
    decreases n
  {
    var permuted := perm(t.bytes);
    if n == 1 {
      assert SqueezeAll(perm, t, 0) == (t, []);
    } else {
      SqueezeFromBoundary(perm, t, n - 1);
      assert permuted[..n - 1] + [permuted[n - 1]] == permuted[..n];
    }
  }

  /** After any Write, Sum(n) for 1 <= n <= RATE first permutes the state written so far,
      resets the absorb cursor, and returns the first n bytes of the permuted state. */
  lemma SumAfterWrite(perm: Permutation, s: Sponge, input: seq<Byte>, n: nat)
    requires s.Valid() && 1 <= n <= RATE
    ensures SqueezeAll(perm, Absorb(perm, s, input), n).0
         == Sponge(perm(AbsorbAll(perm, s, input).bytes), 0, n)
    ensures SqueezeAll(perm, Absorb(perm, s, input), n).1
         == perm(AbsorbAll(perm, s, input).bytes)[..n]
  {
    SqueezeFromBoundary(perm, Absorb(perm, s, input), n);
  }

  /** The capacity (offsets RATE and up) changes only through the permutation: one absorbed
      or squeezed byte leaves it as it was before, or as the permutation made it. */
  lemma CapacityOnlyPermuted(perm: Permutation, s: Sponge, b: Byte)
    requires s.Valid()
    ensures AbsorbByte(perm, s, b).bytes[RATE..]
         == (if s.absorbPos == RATE then perm(s.bytes) else s.bytes)[RATE..]
    ensures SqueezeByte(perm, s).0.bytes[RATE..]
         == (if s.squeezePos == RATE then perm(s.bytes) else s.bytes)[RATE..]
  {
  }

  /** The transcript object: the state array and the two cursors, updated in place. */
  class Digest {
    const perm: Permutation
    var state: array<Byte>
    var absorbPos: nat
    var squeezePos: nat

    ghost predicate Valid()
      reads this
    {
      state.Length == WIDTH && absorbPos <= RATE && squeezePos <= RATE
    }

    /** The abstract value of this digest. */
    ghost function View(): (v: Sponge)
      reads this, state
      requires Valid()
      ensures v.Valid()
    {
      Sponge(state[..], absorbPos, squeezePos)
    }

    /** NewKeccak: all-zero state (newState), absorb cursor 0, squeeze cursor at the rate. */
    constructor NewKeccak(perm: Permutation)
      ensures Valid() && fresh(state) && this.perm == perm
      ensures View() == Sponge(ZeroState(), 0, RATE)
    {
      this.perm := perm;
      state := new Byte[WIDTH](_ => 0);
      absorbPos := 0;
      squeezePos := RATE;
    }

    /** NewKeccakWithTag: a new digest whose bytes RATE .. RATE + |tag| - 1 (the start of the
        capacity) hold the tag; every other byte is zero. */
    constructor NewKeccakWithTag(perm: Permutation, tag: seq<Byte>)
      requires |tag| <= WIDTH - RATE
      ensures Valid() && fresh(state) && this.perm == perm
      ensures absorbPos == 0 && squeezePos == RATE
      ensures forall i :: 0 <= i < WIDTH ==>
                state[i] == if RATE <= i < RATE + |tag| then tag[i - RATE] else 0
    {
      var initial := new Byte[WIDTH](_ => 0);
      var i := RATE;
      while i < RATE + |tag|
        invariant RATE <= i <= RATE + |tag|
        invariant forall k :: 0 <= k < WIDTH ==>
                    initial[k] == if RATE <= k < i then tag[k - RATE] else 0
      {
        initial[i] := tag[i - RATE];
        i := i + 1;
      }
      this.perm := perm;
      state := initial;
      absorbPos := 0;
      squeezePos := RATE;
    }

    /** Replaces the state with its image under the permutation. */
    method Permute()
      requires Valid()
      modifies state
      ensures Valid() && state[..] == perm(old(state[..]))
    {
      var next := perm(state[..]);
      forall k | 0 <= k < WIDTH {
        state[k] := next[k];
      }
    }

    /** One iteration of Write's loop: permute when the rate is full, then overwrite one
        byte. */
    method AbsorbStep(b: Byte)
      requires Valid()
      modifies this, state
      ensures Valid() && state == old(state)
      ensures View() == AbsorbByte(perm, old(View()), b)
    {
      if absorbPos == RATE {
        Permute();
        absorbPos := 0;
      }
      state[absorbPos] := b;
      absorbPos := absorbPos + 1;
    }

    /** Write: absorbs `input` byte by byte, then resets the squeeze cursor to the rate. */
    method Write(input: seq<Byte>)
      requires Valid()
      modifies this, state
      ensures Valid() && state == old(state)
      ensures View() == Absorb(perm, old(View()), input)
    {
      ghost var start := View();
      for i := 0 to |input|
        invariant Valid() && state == old(state)
        invariant View() == AbsorbAll(perm, start, input[..i])
      {
        assert input[..i + 1][..i] == input[..i];
        AbsorbStep(input[i]);
      }
      assert input[..|input|] == input;
      squeezePos := RATE;
    }

    /** One iteration of Sum's loop: permute at the rate boundary, then emit one byte. */
    method SqueezeStep() returns (b: Byte)
      requires Valid()
      modifies this, state
      ensures Valid() && state == old(state)
      ensures View() == SqueezeByte(perm, old(View())).0
      ensures b == SqueezeByte(perm, old(View())).1
    {
      if squeezePos == RATE {
        squeezePos := 0;
        absorbPos := 0;
        Permute();
      }
      b := state[squeezePos];
      squeezePos := squeezePos + 1;
    }

    /** Sum: squeezes n bytes, permuting whenever the squeeze cursor reaches the rate. */
    method Sum(n: nat) returns (result: seq<Byte>)
      requires Valid()
      modifies this, state
      ensures Valid() && state == old(state)
      ensures (View(), result) == SqueezeAll(perm, old(View()), n)
    {
      ghost var start := View();
      result := [];
      for i := 0 to n
        invariant Valid() && state == old(state)
        invariant View() == SqueezeAll(perm, start, i).0
        invariant result == SqueezeAll(perm, start, i).1
      {
        var b := SqueezeStep();
        result := result + [b];
      }
    }
  }
}
