/** The Merkle authentication-path check: the bounded prefix/suffix path decoder, and the
    circuit that hashes each leaf up to the root over one shared hash-chain manager. */
module Merkle {
  import opened Field
  import opened Polynomials
  import opened Hashmanager

  /** How many entries of the previous leaf's path the decoder reads. */
  const MAX_PREV_PATH_LEN: nat := 20

  /** How many entries of the new suffix the decoder reads. */
  const MAX_SUFFIX_LEN: nat := 20

  /** The length of a decoded path. */
  const RESULT_LEN: nat := MAX_PREV_PATH_LEN + MAX_SUFFIX_LEN

  /** Entry i of a decoded path: the previous path's entry while i < prefixLen, plus the
      suffix entry i - prefixLen while that index lies within the suffix; zero elsewhere. */
  function DecodedEntry(prevPath: seq<Felt>, prefixLen: nat, suffix: seq<Felt>, i: nat): Felt
    requires |prevPath| >= MAX_PREV_PATH_LEN && |suffix| >= MAX_SUFFIX_LEN
    requires prefixLen <= MAX_PREV_PATH_LEN && i < RESULT_LEN
  {
    var prevPathElement := if i < prefixLen then prevPath[i] else 0;
    var suffixElement := if prefixLen <= i < prefixLen + MAX_SUFFIX_LEN then suffix[i - prefixLen] else 0;
    Add(prevPathElement, suffixElement)
  }

  /** DecodePrefixPath: copies the first 20 entries of each input into buffers and fills the
      40 output entries by the bounded select. */
  method DecodePrefixPath(circuitPrevPath: seq<Felt>, circuitPrefixLen: nat, circuitSuffix: seq<Felt>)
    returns (decoded: seq<Felt>)
    requires |circuitPrevPath| >= MAX_PREV_PATH_LEN && |circuitSuffix| >= MAX_SUFFIX_LEN
    requires circuitPrefixLen <= MAX_PREV_PATH_LEN
    ensures |decoded| == RESULT_LEN
    ensures forall i :: 0 <= i < RESULT_LEN ==>
              decoded[i] == DecodedEntry(circuitPrevPath, circuitPrefixLen, circuitSuffix, i)
    ensures decoded == circuitPrevPath[..circuitPrefixLen] + circuitSuffix[..MAX_SUFFIX_LEN]
                       + Zeros(MAX_PREV_PATH_LEN - circuitPrefixLen)
  {
    var prevPath := new Felt[MAX_PREV_PATH_LEN];
    var suffix := new Felt[MAX_SUFFIX_LEN];
    var result := new Felt[RESULT_LEN];
    for i := 0 to MAX_PREV_PATH_LEN
      invariant forall k :: 0 <= k < i ==> prevPath[k] == circuitPrevPath[k]
    {
      prevPath[i] := circuitPrevPath[i];
    }
    for i := 0 to MAX_SUFFIX_LEN
      invariant forall k :: 0 <= k < i ==> suffix[k] == circuitSuffix[k]
      invariant forall k :: 0 <= k < MAX_PREV_PATH_LEN ==> prevPath[k] == circuitPrevPath[k]
    {
      suffix[i] := circuitSuffix[i];
    }
    for i := 0 to RESULT_LEN
      invariant forall k :: 0 <= k < MAX_PREV_PATH_LEN ==> prevPath[k] == circuitPrevPath[k]
      invariant forall k :: 0 <= k < MAX_SUFFIX_LEN ==> suffix[k] == circuitSuffix[k]
      invariant forall k :: 0 <= k < i ==>
                  result[k] == DecodedEntry(circuitPrevPath, circuitPrefixLen, circuitSuffix, k)
    {
      var prevPathElement := if i < circuitPrefixLen then prevPath[i] else 0;
      var suffixElement := if circuitPrefixLen <= i < circuitPrefixLen + MAX_SUFFIX_LEN
                           then suffix[i - circuitPrefixLen] else 0;
      result[i] := Add(prevPathElement, suffixElement);
    }
    decoded := result[..];
    DecodedLayout(circuitPrevPath, circuitPrefixLen, circuitSuffix);
    assert decoded == seq(RESULT_LEN, i requires 0 <= i < RESULT_LEN =>
                            DecodedEntry(circuitPrevPath, circuitPrefixLen, circuitSuffix, i));
  }

  /** n zeros. */
  function Zeros(n: nat): (z: seq<Felt>)
    ensures |z| == n && forall i :: 0 <= i < n ==> z[i] == 0
  {
    seq(n, _ => 0)
  }

  /** The decoded path is the first prefixLen entries of the previous path, then the first 20
      entries of the suffix, then zeros up to 40 entries. */
  lemma DecodedLayout(prevPath: seq<Felt>, prefixLen: nat, suffix: seq<Felt>)
    requires |prevPath| >= MAX_PREV_PATH_LEN && |suffix| >= MAX_SUFFIX_LEN
    requires prefixLen <= MAX_PREV_PATH_LEN
    ensures seq(RESULT_LEN, i requires 0 <= i < RESULT_LEN => DecodedEntry(prevPath, prefixLen, suffix, i))
         == prevPath[..prefixLen] + suffix[..MAX_SUFFIX_LEN] + Zeros(MAX_PREV_PATH_LEN - prefixLen)
  {
    var want := prevPath[..prefixLen] + suffix[..MAX_SUFFIX_LEN] + Zeros(MAX_PREV_PATH_LEN - prefixLen);
    forall i | 0 <= i < RESULT_LEN
      ensures DecodedEntry(prevPath, prefixLen, suffix, i) == want[i]
    {
      if i < prefixLen {
        assert want[i] == prevPath[i];
      } else if i < prefixLen + MAX_SUFFIX_LEN {
        assert want[i] == suffix[i - prefixLen];
      } else {
        assert want[i] == 0;
      }
    }
  }

  /** The decoder reads only the first 20 entries of each input. */
  lemma DecodedReadsFirstTwenty(prevPath: seq<Felt>, prevPath': seq<Felt>, prefixLen: nat,
                                suffix: seq<Felt>, suffix': seq<Felt>, i: nat)
    requires |prevPath| >= MAX_PREV_PATH_LEN && |suffix| >= MAX_SUFFIX_LEN
    requires |prevPath'| >= MAX_PREV_PATH_LEN && |suffix'| >= MAX_SUFFIX_LEN
    requires prevPath[..MAX_PREV_PATH_LEN] == prevPath'[..MAX_PREV_PATH_LEN]
    requires suffix[..MAX_SUFFIX_LEN] == suffix'[..MAX_SUFFIX_LEN]
    requires prefixLen <= MAX_PREV_PATH_LEN && i < RESULT_LEN
    ensures DecodedEntry(prevPath, prefixLen, suffix, i) == DecodedEntry(prevPath', prefixLen, suffix', i)
  {
    if i < prefixLen {
      assert prevPath[i] == prevPath[..MAX_PREV_PATH_LEN][i];
    }
    if prefixLen <= i < prefixLen + MAX_SUFFIX_LEN {
      assert suffix[i - prefixLen] == suffix[..MAX_SUFFIX_LEN][i - prefixLen];
    }
  }

  /** The circuit's inputs: per leaf its value, index, sibling hash, prefix length and path
      suffix, and the public root. */
  datatype MerkleProof = MerkleProof(
    leaves: seq<Felt>,
    leafIndexes: seq<nat>,
    leafSiblingHashes: seq<Felt>,
    authPathPrefixLengths: seq<nat>,
    authPathSuffixes: seq<seq<Felt>>,
    rootHash: Felt)
  {
    /** Every per-leaf entry the circuit reads exists: the first suffix always, and leaf i's
        own suffix when its prefix length is 0. */
    predicate WellFormed()
    {
      && |authPathSuffixes| >= 1
      && |leafIndexes| >= |leaves|
      && |leafSiblingHashes| >= |leaves|
      && |authPathPrefixLengths| >= |leaves|
      && forall i :: 0 <= i < |leaves| && authPathPrefixLengths[i] == 0 ==> i < |authPathSuffixes|
    }
  }

  /** The authentication path the circuit climbs for leaf i: the leaf's own suffix when its
      prefix length is 0, else the first suffix (the previous path is never updated). */
  function AuthPath(proof: MerkleProof, i: nat): seq<Felt>
    requires proof.WellFormed() && i < |proof.leaves|
  {
    if proof.authPathPrefixLengths[i] == 0 then proof.authPathSuffixes[i] else proof.authPathSuffixes[0]
  }

  /** api.Select: a when the selector is 1, else b. */
  function Select(dir: nat, a: Felt, b: Felt): Felt
  {
    if dir == 1 then a else b
  }

  /** The pair hashed at one level: the sibling on the left and the current hash on the right
      when the direction bit is 1, the reverse otherwise. */
  function Order(dir: nat, sibling: Felt, current: Felt): (pair: seq<Felt>)
    ensures |pair| == 2
  {
    [Select(dir, sibling, current), Select(dir, current, sibling)]
  }

  /** The direction bit (the index's low bit) puts the current hash at position dir and the
      sibling at position 1 - dir. */
  lemma OrderPlacesByDirection(index: nat, sibling: Felt, current: Felt)
    ensures var dir := index % 2;
            Order(dir, sibling, current)[dir] == current
            && Order(dir, sibling, current)[1 - dir] == sibling
  {
  }

  /** Climbing the path from `current` at position `index`: at each level hash the ordered
      pair with the level's sibling and halve the index. Returns the manager's state and the
      hash reached. */
  function Climb(hash: Hasher, t: Transcript, current: Felt, index: nat, path: seq<Felt>): (r: (Transcript, Felt))
    ensures |r.0.collector| == |t.collector| + |path|
    ensures r.0.collector[..|t.collector|] == t.collector
    ensures |path| > 0 ==> r.0.collector[|r.0.collector| - 1] == r.1
    ensures |path| == 0 ==> r == (t, current)
    decreases |path|
  {
    if |path| == 0 then (t, current)
    else
      var step := Collect(hash, t, Order(index % 2, path[0], current));
      var r := Climb(hash, step.0, step.1, index / 2, path[1..]);
      assert r.0.collector[..|t.collector|] == step.0.collector[..|step.0.collector|][..|t.collector|];
      r
  }

  /** Bits of the index above the path's height are never read. */
  lemma {:induction false} ClimbIgnoresHighBits(hash: Hasher, t: Transcript, current: Felt, index: nat,
                                                path: seq<Felt>, k: nat)
    ensures Climb(hash, t, current, index + Pow2(|path|) * k, path) == Climb(hash, t, current, index, path)
    decreases |path|
  {
    if |path| > 0 {
      var n := |path|;
      var high := index + Pow2(n) * k;
      assert Pow2(n) * k == 2 * (Pow2(n - 1) * k);
      assert high % 2 == index % 2;
      assert high / 2 == index / 2 + Pow2(n - 1) * k;
      var step := Collect(hash, t, Order(index % 2, path[0], current));
      ClimbIgnoresHighBits(hash, step.0, step.1, index / 2, path[1..], k);
    }
  }

  /** The first pair at the leaf: H(leaf) ordered with the leaf's sibling hash. */
  function LeafPair(hash: Hasher, t: Transcript, leaf: Felt, leafIndex: nat, sibling: Felt): (r: (Transcript, Felt))
  {
    var claimed := Collect(hash, t, [leaf]);
    Collect(hash, claimed.0, Order(leafIndex % 2, sibling, claimed.1))
  }

  /** The hash reached from leaf i, and the manager's state after it: hash the leaf, hash the
      first pair, then climb the leaf's authentication path from index / 2. */
  function LeafRoot(hash: Hasher, t: Transcript, proof: MerkleProof, i: nat): (r: (Transcript, Felt))
    requires proof.WellFormed() && i < |proof.leaves|
  {
    var index := proof.leafIndexes[i];
    var pair := LeafPair(hash, t, proof.leaves[i], index, proof.leafSiblingHashes[i]);
    Climb(hash, pair.0, pair.1, index / 2, AuthPath(proof, i))
  }

  /** Per leaf the collector grows by 2 + the path's length, keeps what it held, and ends with
      the hash reached from the leaf. */
  lemma LeafRootCollects(hash: Hasher, t: Transcript, proof: MerkleProof, i: nat)
    requires proof.WellFormed() && i < |proof.leaves|
    ensures var r := LeafRoot(hash, t, proof, i);
            && |r.0.collector| == |t.collector| + 2 + |AuthPath(proof, i)|
            && r.0.collector[..|t.collector|] == t.collector
            && r.0.collector[|r.0.collector| - 1] == r.1
  {
    var index := proof.leafIndexes[i];
    var pair := LeafPair(hash, t, proof.leaves[i], index, proof.leafSiblingHashes[i]);
    var r := Climb(hash, pair.0, pair.1, index / 2, AuthPath(proof, i));
    assert pair.0.collector[..|t.collector|] == t.collector;
    assert r.0.collector[..|t.collector|] == r.0.collector[..|pair.0.collector|][..|t.collector|];
  }

  /** The first n leaves processed in order over one shared manager: the final state and the
      hash reached from each leaf. */
  function Run(hash: Hasher, proof: MerkleProof, n: nat): (r: (Transcript, seq<Felt>))
    requires proof.WellFormed() && n <= |proof.leaves|
    ensures |r.1| == n
  {
    if n == 0 then (Empty(), [])
    else
      var prev := Run(hash, proof, n - 1);
      var leaf := LeafRoot(hash, prev.0, proof, n - 1);
      (leaf.0, prev.1 + [leaf.1])
  }

  /** One more leaf: Run extends the previous run by that leaf's LeafRoot. */
  lemma RunStep(hash: Hasher, proof: MerkleProof, i: nat)
    requires proof.WellFormed() && i < |proof.leaves|
    ensures var prev := Run(hash, proof, i);
            var leaf := LeafRoot(hash, prev.0, proof, i);
            Run(hash, proof, i + 1) == (leaf.0, prev.1 + [leaf.1])
  {
  }

  /** 2 + the path's length, summed over the first n leaves. */
  function CollectedCount(proof: MerkleProof, n: nat): nat
    requires proof.WellFormed() && n <= |proof.leaves|
  {
    if n == 0 then 0 else CollectedCount(proof, n - 1) + 2 + |AuthPath(proof, n - 1)|
  }

  /** After n leaves the collector holds 2 + |path| hashes per leaf, and the hash reached from
      each leaf sits in it, the last leaf's at the very end. */
  lemma {:induction false} RunCollects(hash: Hasher, proof: MerkleProof, n: nat)
    requires proof.WellFormed() && n <= |proof.leaves|
    ensures |Run(hash, proof, n).0.collector| == CollectedCount(proof, n)
    ensures n > 0 ==> Run(hash, proof, n).0.collector[CollectedCount(proof, n) - 1] == Run(hash, proof, n).1[n - 1]
  {
    if n > 0 {
      RunCollects(hash, proof, n - 1);
      LeafRootCollects(hash, Run(hash, proof, n - 1).0, proof, n - 1);
    }
  }

  /** The level loop of the circuit: from `currentHash` at position `index`, hash the ordered
      pair with each sibling of `authPath` on the shared manager, halving the index. */
  method ClimbPath(manager: HashManager, currentHash: Felt, index: nat, authPath: seq<Felt>)
    returns (rootHash: Felt)
    modifies manager
    ensures (manager.State(), rootHash) == Climb(manager.hash, old(manager.State()), currentHash, index, authPath)
  {
    ghost var target := Climb(manager.hash, manager.State(), currentHash, index, authPath);
    rootHash := currentHash;
    var index := index;
    var level := 0;
    while level < |authPath|
      invariant 0 <= level <= |authPath|
      invariant Climb(manager.hash, manager.State(), rootHash, index, authPath[level..]) == target
    {
      var siblingHash := authPath[level];
      var dir := index % 2;
      var left := Select(dir, siblingHash, rootHash);
      var right := Select(dir, rootHash, siblingHash);
      assert authPath[level..][1..] == authPath[level + 1..];
      rootHash := manager.WriteInputAndCollectAndReturnHash([left, right]);
      index := index / 2;
      level := level + 1;
    }
    assert authPath[|authPath|..] == [];
  }

  /** One iteration of the leaf loop: pick the authentication path, hash the leaf, hash the
      first pair, climb the path; returns the hash reached. */
  method LeafStep(manager: HashManager, proof: MerkleProof, i: nat, prevPath: seq<Felt>)
    returns (currentHash: Felt)
    requires proof.WellFormed() && i < |proof.leaves| && prevPath == proof.authPathSuffixes[0]
    modifies manager
    ensures manager.State() == LeafRoot(manager.hash, old(manager.State()), proof, i).0
    ensures currentHash == LeafRoot(manager.hash, old(manager.State()), proof, i).1
  {
    var leaf := proof.leaves[i];
    var leafIndex := proof.leafIndexes[i];
    var leafSiblingHash := proof.leafSiblingHashes[i];
    var authPath := prevPath;
    if proof.authPathPrefixLengths[i] == 0 {
      authPath := proof.authPathSuffixes[i];
    }
    ghost var before := manager.State();
    var claimedLeafHash := manager.WriteInputAndCollectAndReturnHash([leaf]);
    var dir := leafIndex % 2;
    var leftChild := Select(dir, leafSiblingHash, claimedLeafHash);
    var rightChild := Select(dir, claimedLeafHash, leafSiblingHash);
    currentHash := manager.WriteInputAndCollectAndReturnHash([leftChild, rightChild]);
    var index := leafIndex / 2;
    assert (manager.State(), currentHash) == LeafPair(manager.hash, before, leaf, leafIndex, leafSiblingHash);
    currentHash := ClimbPath(manager, currentHash, index, authPath);
  }

  /** Every entry of xs is v. */
  predicate AllEqual(xs: seq<Felt>, v: Felt)
  {
    forall k :: 0 <= k < |xs| ==> xs[k] == v
  }

  /** Appending x keeps every entry equal to v exactly when x is v too. */
  lemma AllEqualAppend(xs: seq<Felt>, x: Felt, v: Felt)
    ensures AllEqual(xs + [x], v) <==> AllEqual(xs, v) && x == v
  {
    assert forall k :: 0 <= k < |xs| ==> (xs + [x])[k] == xs[k];
    assert (xs + [x])[|xs|] == x;
  }

  /** VerifyMerkleProofCircuit.Define: for every leaf, hash it, hash the first pair, climb
      the authentication path over the shared manager and assert the result equals the root.
      Accepts iff every leaf reaches the root. */
  method Define(proof: MerkleProof, hash: Hasher) returns (accepted: bool)
    requires proof.WellFormed()
    ensures accepted <==> forall i :: 0 <= i < |proof.leaves| ==> Run(hash, proof, |proof.leaves|).1[i] == proof.rootHash
  {
    var manager := new HashManager.NewHashManager(hash);
    var numLeaves := |proof.leaves|;
    var prevPath := proof.authPathSuffixes[0];
    ghost var roots: seq<Felt> := [];
    accepted := true;
    for i := 0 to numLeaves
      invariant manager.hash == hash
      invariant (manager.State(), roots) == Run(hash, proof, i)
      invariant accepted <==> AllEqual(roots, proof.rootHash)
    {
      var currentHash := LeafStep(manager, proof, i, prevPath);
      assert (manager.State(), roots + [currentHash]) == Run(hash, proof, i + 1) by {
        RunStep(hash, proof, i);
      }
      AllEqualAppend(roots, currentHash, proof.rootHash);
      accepted := accepted && currentHash == proof.rootHash;
      roots := roots + [currentHash];
    }
  }

  /** A one-leaf proof of depth 0 (empty suffix, prefix length 0) is accepted exactly when the
      root is the hash of the first pair. */
  lemma OneLeafDepthZero(hash: Hasher, leaf: Felt, leafIndex: nat, sibling: Felt, root: Felt)
    ensures var proof := MerkleProof([leaf], [leafIndex], [sibling], [0], [[]], root);
            && proof.WellFormed()
            && Run(hash, proof, 1).1 == [LeafPair(hash, Empty(), leaf, leafIndex, sibling).1]
  {
    var proof := MerkleProof([leaf], [leafIndex], [sibling], [0], [[]], root);
    assert AuthPath(proof, 0) == [];
  }
}
