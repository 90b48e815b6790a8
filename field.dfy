/** Arithmetic in the BN254 scalar field, the field every circuit variable lives in. */
module Field {

  /** The field modulus (the characteristic of BN254's scalar field). */
  const P: int := 21888242871839275222246405745257275088548364400416034343698204186575808495617

  /** The constant the sum-check driver keeps for halving: the inverse of 2 modulo P. */
  const ONE_HALF_CONSTANT: int := 10944121435919637611123202872628637544274182200208017171849102093287904247809

  /** A field element: always reduced modulo P. */
  type Felt = x: int | 0 <= x < P

  /** Field addition, as the circuit API's Add. */
  function Add(a: Felt, b: Felt): Felt { (a + b) % P }

  /** Field multiplication, as the circuit API's Mul. */
  function Mul(a: Felt, b: Felt): Felt { (a * b) % P }

  /** Integer power with a natural exponent. */
  function Pow(b: int, e: nat): int
  {
    if e == 0 then 1 else b * Pow(b, e - 1)
  }

  /** ONE_HALF_CONSTANT is a field element and it halves: 2 * ONE_HALF_CONSTANT == 1 in the field. */
  lemma OneHalfIsInverseOfTwo()
    ensures 0 <= ONE_HALF_CONSTANT < P
    ensures Mul(2, ONE_HALF_CONSTANT) == 1
  {
  }

  /** Adding a multiple of P does not change a residue. */
  lemma ModMultipleVanishes(k: int, y: int)
    ensures (P * k + y) % P == y % P
  {
  }

  /** Reducing one factor first does not change the product's residue. */
  lemma ModMulLeft(a: int, b: int)
    ensures (a % P) * b % P == a * b % P
  {
    var q := a / P;
    assert a == P * q + a % P;
    assert a * b == P * (q * b) + (a % P) * b;
    ModMultipleVanishes(q * b, (a % P) * b);
  }

  /** Reducing one summand first does not change the sum's residue. */
  lemma ModAddLeft(a: int, b: int)
    ensures (a % P + b) % P == (a + b) % P
  {
    ModMultipleVanishes(a / P, a % P + b);
  }

  /** One Horner step on field elements: reduces to the integer step on the unreduced
      accumulator. */
  lemma HornerStepFelt(cum: Felt, acc: int, x: Felt, c: Felt)
    requires cum == acc % P
    ensures Add(Mul(cum, x), c) == (c + x * acc) % P
  {
    ModMulLeft(acc, x);
    ModAddLeft(acc * x, c);
    assert acc * x + c == c + x * acc;
  }

  /** The recombination step of multilinear evaluation: lo + l * hi in the field equals the
      integer lo + l * hi, reduced, when lo and hi were reduced first. */
  lemma AddMulReduce(a: int, l: Felt, b: int)
    ensures Add(a % P, Mul(l, b % P)) == (a + l * b) % P
  {
    var lb := l * b;
    var m := lb % P;
    ModMulLeft(b, l);
    assert l * (b % P) == (b % P) * l && b * l == lb;
    assert Mul(l, b % P) == m;
    ModAddLeft(a, m);
    ModAddLeft(lb, a);
    assert (a % P + m) % P == (m + a) % P;
  }
}
