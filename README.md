# Sum-check recursion explorations, modelled in Dafny

This project models the core of a set of gnark (Go) circuits that verify one sum-check proof inside another:

- the field polynomial evaluators;
- the byte-to-field packers;
- a byte-level Keccak duplex sponge used as a Fiat-Shamir transcript;
- the Poseidon hash-chain transcript (`HashManager`);
- the sum-check verifier circuit with its prover-side helpers;
- the Merkle authentication-path circuit with its path decoder;
- the stand-alone R1CS satisfiability check.

Everything a circuit computes with `api.Add`/`api.Mul` is modelled in the BN254 scalar field:

- `Field.Felt` is `0 <= x < P`.
- `Add` and `Mul` reduce mod `P`.

The big-integer helpers `calculateCubic` and `replace_r_in_f`, and the Go `int` code of `VerifyR1CS`, are modelled over the unbounded integers.

Poseidon's `Sum` and the keccak-f permutation are outside the model. Each is a function parameter:

- `Hashmanager.Hasher` is `seq<Felt> -> Felt`. It hashes everything written so far.
- `KeccakSponge.Permutation` is a map on the 200-byte state.

Every property is proved for whatever hash or permutation is passed in.

Modules, one per source file:

- `Field`: the modulus `MOD` (here `P`) and `ONE_HALF_CONSTANT` (main.go).
- `Polynomials`: `UniP` (Horner evaluation, a loop) and `MultP` (the recursive multilinear evaluation).
  - `UniP` is proved equal to `sum c_i x^i mod P`.
  - For exactly `2^|vars|` coefficients, `MultP` is proved equal to `sum_idx c_idx * prod_{bit j of idx} v_j mod P`. With more coefficients, `MultP` splits at `|coefs|/2`. It is then not the expansion of the first `2^|vars|` coefficients; only `MultPAtOrigin` covers that case.
- `TypeConverters`: `BigEndian` and `LittleEndian` (loops) and `ByteArrToVarArr`.
  - The two packers are proved to give the base-256 value mod `P`.
  - Little-endian is proved to be big-endian of the reversal.
  - Up to 31 bytes never wrap.
- `KeccakSponge`: the `digest` object as a class over a 200-byte `array`, tied to a value-level `Sponge`.
  - `Write` overwrites rate bytes and permutes when the rate is full.
  - `Sum` squeezes bytes and permutes at the rate boundary.
  - Each method is proved to act on the array exactly as the specification functions `Absorb` and `SqueezeAll` act on the value.
  - Lemmas give concatenation of writes, the plain-overwrite and plain-read cases, squeezing after a write, and that the capacity part changes only through the permutation.
- `Hashmanager`: `HashManager` as a class whose buffer and collector are tied to the pure `Transcript`/`Collect`/`CollectAll`.
  - Lemmas show that each returned hash binds the whole history and that later calls never change earlier challenges.
  - Two managers given the same calls agree.
- `SumCheck`: `Circuit.Define` as written. It is proved to accept exactly when every round polynomial is a cubic and the last round's evaluation at its Fiat-Shamir challenge equals `ValueAtChallengeVector`.
  - A corrected `DefineWithRoundChecks` adds the per-round `G_i(0) + G_i(1)` check (see Findings).
  - `calculateCubic` is proved to compute `sum e_i (a_i b_i - c_i)`. That sum vanishes on a satisfied witness and on the driver's vectors.
  - `replace_r_in_f` is proved to fold the table in place into `(1 - r) f_lo + r f_hi`.
- `Merkle`: `DecodePrefixPath` is proved to build `prevPath[..prefixLen] + suffix[..20] + zeros`.
  - `VerifyMerkleProofCircuit.Define` runs each leaf up its authentication path over one shared manager. It is proved to accept exactly when every leaf's climb reaches `RootHash`.
  - Lemmas cover direction handling, the collector's growth, and that index bits above the path length do not matter.
- `R1CS`: the double loop of `VerifyR1CS` is proved to return `valid` exactly when `(A_i z)(B_i z) = C_i z` holds for every row. The hard-coded matrices and witness are proved to satisfy all six rows, so `VerifyR1CS` returns `true`.

Two points where the model keeps the circuit as written:

- The verifier circuit has no per-round consistency check; see Findings.
- The challenges come from a fresh `HashManager`; nothing is absorbed before the first round polynomial.

## Model

| member | source | states |
|---|---|---|
| Field.OneHalfIsInverseOfTwo | main.go:24-25 | ONE_HALF_CONSTANT is a field element and is the inverse of 2 modulo MOD (here `P`) |
| Polynomials.EvalIsPowerSum | polynomials/polynomials.go:7-14 | the Horner evaluation (top coefficient first, multiply by x, add the next lower) equals sum c_i x^i reduced mod P |
| Polynomials.EvalConstantTerm | polynomials/polynomials.go:8-13 | with a single coefficient, or at x = 0, the evaluation is the constant coefficient |
| Polynomials.UniP | polynomials/polynomials.go:7-14 | the loop's result is the polynomial's value sum c_i x^i mod P at x, for every non-empty coefficient list |
| Polynomials.MultPClosedForm | polynomials/polynomials.go:16-21 | for exactly 2^len(vars) coefficients, the recursive split (low half without the last variable, plus the last variable times the high half) equals the multilinear expansion sum_idx c_idx * prod of the variables selected by idx's bits, mod P |
| Polynomials.MultPAtOrigin | polynomials/polynomials.go:16-21 | with all variables zero (and in particular with no variables) MultP returns coefs[0] |
| Polynomials.TermsSplit | polynomials/polynomials.go:19-20 | the expansion over a concatenated coefficient list is the sum of the expansions of its halves |
| Polynomials.ExpansionSplit | polynomials/polynomials.go:19-20 | the multilinear expansion splits into the low half's expansion plus the last variable times the high half's expansion, the identity MultP's recursion relies on |
| TypeConverters.PackBigIsValue | typeConverters/typeConverters.go:7-13 | the field accumulation 256*acc + x_i equals the base-256 big-endian value mod P |
| TypeConverters.PackLittleIsValue | typeConverters/typeConverters.go:15-21 | the accumulation taken from the last element down equals the base-256 little-endian value mod P |
| TypeConverters.BigEndian | typeConverters/typeConverters.go:7-13 | the loop returns the big-endian base-256 value of the inputs mod P |
| TypeConverters.LittleEndian | typeConverters/typeConverters.go:15-21 | the loop returns the little-endian base-256 value of the inputs mod P |
| TypeConverters.LittleEndianIsReversedBigEndian | typeConverters/typeConverters.go:15-21 | the little-endian value of a list is the big-endian value of its reversal |
| TypeConverters.PackSingleton | typeConverters/typeConverters.go:7-21 | a one-element list packs to that element in both byte orders |
| TypeConverters.BigEndianBound | typeConverters/typeConverters.go:7-13 | the value of n bytes lies in [0, 256^n) |
| TypeConverters.ShortBytesDoNotWrap | typeConverters/typeConverters.go:7-13 | up to 31 bytes pack without reduction mod P |
| TypeConverters.ByteArrToVarArr | typeConverters/typeConverters.go:23-29 | a fresh array of the same length holding each byte's value at the same index |
| KeccakSponge.Digest.NewKeccak | keccakSponge/keccakSponge.go:17-29 | a fresh all-zero 200-byte state with absorb position 0 and squeeze position 136 |
| KeccakSponge.Digest.NewKeccakWithTag | keccakSponge/keccakSponge.go:31-38 | as NewKeccak, but bytes 136 .. 136+len(tag)-1 hold the tag and every other byte is zero |
| KeccakSponge.Digest.Permute | keccakSponge/keccakSponge.go:43 | the state array is replaced by the permutation of its old contents, positions unchanged |
| KeccakSponge.Digest.AbsorbStep | keccakSponge/keccakSponge.go:41-48 | one input byte: permute and reset the position when it is 136, then overwrite state byte absorb_pos and advance it |
| KeccakSponge.Digest.Write | keccakSponge/keccakSponge.go:40-50 | the state after the loop is Absorb of the old state: every byte absorbed in order, then the squeeze position set to 136 |
| KeccakSponge.Digest.SqueezeStep | keccakSponge/keccakSponge.go:53-61 | one output byte: at position 136 permute and reset both positions, then return state byte squeeze_pos and advance it |
| KeccakSponge.Digest.Sum | keccakSponge/keccakSponge.go:52-63 | returns exactly len bytes, and the new state and the bytes are SqueezeAll of the old state |
| KeccakSponge.AbsorbAllConcat | keccakSponge/keccakSponge.go:41-48 | absorbing a then b is absorbing a + b |
| KeccakSponge.WriteConcat | keccakSponge/keccakSponge.go:40-50 | Write(a) then Write(b) leaves the same state as Write(a + b) |
| KeccakSponge.AbsorbAllIgnoresSqueezeCursor | keccakSponge/keccakSponge.go:41-48 | absorbing never reads the squeeze position |
| KeccakSponge.AbsorbWithinRate | keccakSponge/keccakSponge.go:41-48 | while the input fits in the rate, Write overwrites bytes absorb_pos .. absorb_pos+len-1 with the input, leaves all others, and never permutes |
| KeccakSponge.SqueezeAllConcatState | keccakSponge/keccakSponge.go:52-63 | squeezing m bytes leaves the same state as squeezing a bytes and then m - a |
| KeccakSponge.SqueezeWithinRate | keccakSponge/keccakSponge.go:53-61 | while squeeze_pos + n <= 136, Sum(n) returns state bytes squeeze_pos .. squeeze_pos+n-1 without permuting |
| KeccakSponge.SqueezeFromBoundary | keccakSponge/keccakSponge.go:54-60 | from squeeze position 136, Sum(n) for 1 <= n <= 136 permutes once and returns the first n bytes of the permuted state |
| KeccakSponge.SumAfterWrite | keccakSponge/keccakSponge.go:40-63 | for 1 <= n <= 136, Sum(n) after any Write permutes the written state once and returns its first n bytes |
| KeccakSponge.CapacityOnlyPermuted | keccakSponge/keccakSponge.go:41-60 | bytes 136..199 change only through the permutation, never by an absorbed or squeezed byte |
| Hashmanager.HashManager.NewHashManager | hashmanager/hashmanager.go:14-19 | an empty Poseidon buffer and an empty HashCollector |
| Hashmanager.HashManager.WriteInput | hashmanager/hashmanager.go:21-23 | appends the inputs to the buffer; the collector is unchanged |
| Hashmanager.HashManager.WriteInputAndCollectAndReturnHash | hashmanager/hashmanager.go:25-31 | returns the hash of the old buffer plus the inputs; the collector gains exactly that hash at its end; the buffer becomes old buffer + inputs + hash |
| Hashmanager.CollectAllBuffer | hashmanager/hashmanager.go:25-31 | after a run of calls the buffer holds every call's inputs each followed by the hash it returned |
| Hashmanager.CollectAllPrefix | hashmanager/hashmanager.go:25-31 | the first k hashes depend only on the first k calls |
| Hashmanager.CollectAllBindsHistory | hashmanager/hashmanager.go:25-31 | hash i is the hash of all earlier inputs and hashes followed by call i's inputs |
| Hashmanager.TwoManagersAgree | hashmanager/hashmanager.go:14-31 | two managers fed the same calls return the same hashes and hold the same collectors |
| SumCheck.RoundStep | main.go:49 | round i's challenge is the hash the shared manager returns after absorbing G_i, whatever rounds follow |
| SumCheck.EvaluateCubic | main.go:51-55 | the inner Horner loop yields G_i(r_i) = sum g_j r^j mod P |
| SumCheck.Define | main.go:39-59 | accepts iff every round polynomial has 4 coefficients and the last G_i(r_i) (or ExpectedSum when there are no rounds) equals ValueAtChallengeVector |
| SumCheck.DefineIgnoresClaimedSum | main.go:39-59 | the one-round proof G_0 = v passes Define's checks with value v for every claimed sum |
| SumCheck.ConsistentEveryRound | main.go:47 | the round-consistency predicate holds iff every round's G_i(0) + G_i(1) equals the claim carried into it |
| SumCheck.ConsistentPrefix | main.go:47 | consistency of all rounds implies consistency of every prefix |
| SumCheck.InconsistentAt | main.go:47 | one failing round makes the whole proof inconsistent |
| SumCheck.CheckRound | main.go:47 | returns true iff G(0) + G(1) equals the claim |
| SumCheck.CheckRoundOfRun | main.go:47 | a passing round extends consistency by one round; a failing one refutes the proof |
| SumCheck.DefineWithRoundChecks | main.go:39-59 | accepts iff every round is a cubic, every round is consistent with its incoming claim, and the final claim equals ValueAtChallengeVector |
| SumCheck.RoundChecksRejectWrongClaim | main.go:47 | with the round check, the proof G_0 = v is rejected for every claimed sum other than 2v |
| SumCheck.CalculateCubic | main.go:61-70 | the loop returns sum over i < len(e) of e_i (a_i b_i - c_i) |
| SumCheck.CubicSumOfSatisfied | main.go:61-70 | that sum is zero whenever a_i b_i = c_i at every point |
| SumCheck.MainVectorsSumToZero | main.go:107-151 | the driver's e, a_z, b_z, c_z give an initial expected sum of 0 |
| SumCheck.FoldedInterpolates | main.go:72-80 | the fold has half the length, entry i is (1 - r) f[i] + r f[n+i], r = 0 gives the low half and r = 1 the high half |
| SumCheck.ReplaceRInF | main.go:72-80 | returns the fold of the old table by r, written in place over f[..n], with f[n..] unchanged |
| Merkle.DecodePrefixPath | verify_merkle.go:22-54 | 40 entries: entry i is prevPath[i] below prefixLen plus suffix[i - prefixLen] inside the suffix window, i.e. prevPath[..prefixLen] + suffix[..20] + zeros |
| Merkle.DecodedLayout | verify_merkle.go:40-51 | the entry-wise selection equals the concatenated layout |
| Merkle.DecodedReadsFirstTwenty | verify_merkle.go:29-38 | the decoded path depends only on the first 20 entries of each input |
| Merkle.OrderPlacesByDirection | verify_merkle.go:79-81 | the current hash goes at position dir = index & 1 and the sibling at the other position |
| Merkle.ClimbIgnoresHighBits | verify_merkle.go:85-97 | index bits above the path's length do not change the climb |
| Merkle.LeafRootCollects | verify_merkle.go:77-97 | per leaf the collector keeps its contents, grows by 2 + len(authPath), and ends with the hash reached |
| Merkle.RunCollects | verify_merkle.go:59-100 | after n leaves the collector holds the summed count and ends with the last leaf's computed root |
| Merkle.ClimbPath | verify_merkle.go:87-97 | the level loop hashes the ordered pair at each level and halves the index, as Climb |
| Merkle.LeafStep | verify_merkle.go:65-97 | one leaf: pick the auth path, hash the leaf, hash the first pair, climb; the state and hash are LeafRoot's |
| Merkle.AllEqualAppend | verify_merkle.go:99 | all computed roots equal the root after one more iff they did before and the new one does |
| Merkle.Define | verify_merkle.go:56-103 | accepts iff the hash computed from every leaf equals RootHash |
| Merkle.OneLeafDepthZero | verify_merkle.go:70-83 | a one-leaf proof with an empty path computes just the first pair's hash |
| R1CS.RowProducts | r1cs.go:54-63 | the inner loop computes the three row dot products A_i z, B_i z, C_i z |
| R1CS.CheckR1CS | r1cs.go:51-75 | valid iff (A_i z)(B_i z) = C_i z for every constraint row |
| R1CS.RowDotOfEight | r1cs.go:58-63 | a dot product over 8 variables is the sum of its 8 terms |
| R1CS.HardCodedWitnessSatisfies | r1cs.go:12-49 | the hard-coded A, B, C and witness z satisfy all six constraints |
| R1CS.VerifyR1CS | r1cs.go:7-80 | the hard-coded check returns valid = true |

## Left out

- The `main()` driver is left out. It builds the prover's round polynomials, folds the table, compiles and proves with gnark, and prints. Three of its steps look unintended: `p_0.Mod(temp1, MOD)` overwrites the running sum at main.go:168; `p_2` is an integer halving rather than a multiplication by `ONE_HALF_CONSTANT` at main.go:210; and the challenge is a plain Poseidon hash of the coefficients, not the circuit's hash chain, at main.go:220. Only its input vectors (`MainVectorsSumToZero`) and its helpers `calculateCubic` and `replace_r_in_f` are modelled.
- Poseidon and keccak-f are not modelled: they are the parameters `Hasher` and `Permutation`. No property depends on their internals.
- gnark's `frontend.API`, constraint compilation, witness assignment and `api.Println`/`fmt` output are not modelled. `api.AssertIsEqual` becomes a boolean result.
- Merkle.Climb: `api.And(index, 1)` and `api.Div(index, 2)` are modelled as the intended low bit `index % 2` and integer halving `index / 2`. In gnark, `api.And` accepts variables but constrains both operands to be 0 or 1, so it fails for any index above 1. `api.Div` is field division, that is, multiplication by the inverse of 2.
- Merkle.Define: the comparison of `AuthPathPrefixLenghts[i]` (a circuit variable) with 0 at verify_merkle.go:71 is modelled as a plain test. In the compiled circuit that value is a circuit expression and never equals the Go int 0, so the branch at verify_merkle.go:72 is never taken and every leaf climbs `AuthPathSuffixes[0]`. The model's `AuthPath` differs from the compiled circuit for a later leaf whose prefix length is 0: the model climbs that leaf's own suffix. The unchanged `prevPath` at verify_merkle.go:63 and :70 is kept as written: a non-zero prefix length always climbs `AuthPathSuffixes[0]`. `DecodePrefixPath` is not called by the circuit, as in the source.
- Merkle.DecodePrefixPath models the evidently intended bounded select. As written, it reads `prevPath[i]` eagerly for all 40 positions of a 20-entry buffer (verify_merkle.go:47), which is out of range from i = 20. It also indexes `suffix` by a circuit variable (verify_merkle.go:48). The model therefore reads `prevPath[i]` only below `prefixLen` and requires `prefixLen <= 20`. The 32-bit bounded comparator is modelled as exact comparison.
- KeccakSponge.Digest.NewKeccak: the error return of `uints.New` is not modelled. The constructor always succeeds.
- KeccakSponge.Digest.NewKeccakWithTag requires a tag of at most 64 bytes. A longer tag indexes past the 25-word state in the source.
- KeccakSponge: the 25 64-bit words are modelled as 200 bytes, with byte `i` at word `i/8` and lane byte `i%8`. The byte order inside a `uints.U64` is part of the permutation, which is a parameter.
- KeccakSponge.Digest.Sum takes a `nat`. With a negative `len`, Go's loop does nothing. That case is not modelled.
- KeccakSponge: the byte output of one long `Sum` is not proved equal to the concatenation of two shorter calls' outputs. Only the resulting state is (`SqueezeAllConcatState`).
- SumCheck.ReplaceRInF: Go's `f[i].Add` mutates shared `*big.Int` values, which can alias the caller's slices. The model folds the caller's `array<int>` of plain integers in place and returns a copy of its lower half. It does not model aliasing between `*big.Int` entries. It also does not model that Go's returned `f[:n]` shares storage with `f`.
- R1CS.CheckR1CS: Go's 64-bit `int` overflow is not modelled. The hard-coded products are far below 2^63.

## Findings

| source | as written | input that shows it | evidently intended | confidence | as-written member | corrected member |
|---|---|---|---|---|---|---|
| main.go:47-57 | `Define` overwrites the running claim `e` with `G_i(r_i)` each round and never compares the incoming claim with `G_i(0) + G_i(1)`. The commented-out line at main.go:47, which would have derived the new claim from the incoming one, is the only place the claim would have entered. So `ExpectedSum` never constrains acceptance when there is at least one round | one round, `GPolynomials = [[v, 0, 0, 0]]`, `ValueAtChallengeVector = v`, `ExpectedSum` anything other than 2v: accepted | each round checks `G_i(0) + G_i(1) == e` before `e` is replaced, so a wrong claimed sum is rejected | not executed; high | SumCheck.DefineIgnoresClaimedSum | SumCheck.RoundChecksRejectWrongClaim |
