/** The field-native hash-chain transcript: a Poseidon instance's pending buffer plus the
    ordered list of hashes it has produced (HashCollector). */
module Hashmanager {
  import opened Field

  /** Poseidon's Sum: a hash of everything written to the instance so far, supplied by the
      caller. */
  type Hasher = seq<Felt> -> Felt

  /** The abstract state of a manager: what the Poseidon instance holds, and the hashes
      collected so far. */
  datatype Transcript = Transcript(buffer: seq<Felt>, collector: seq<Felt>)

  /** The state of a new manager. */
  function Empty(): Transcript
  {
    Transcript([], [])
  }

  /** One WriteInputAndCollectAndReturnHash call: absorb the inputs, hash the whole buffer,
      collect the hash and feed it back into the buffer. */
  function Collect(hash: Hasher, t: Transcript, inputs: seq<Felt>): (Transcript, Felt)
  {
    var h := hash(t.buffer + inputs);
    (Transcript(t.buffer + inputs + [h], t.collector + [h]), h)
  }

  /** One Collect call per entry of `calls`, in order; returns the final state and the hashes. */
  function CollectAll(hash: Hasher, t: Transcript, calls: seq<seq<Felt>>): (r: (Transcript, seq<Felt>))
    ensures |r.1| == |calls|
    ensures r.0.collector == t.collector + r.1
    decreases |calls|
  {
    if |calls| == 0 then (t, [])
    else
      var prev := CollectAll(hash, t, calls[..|calls| - 1]);
      var step := Collect(hash, prev.0, calls[|calls| - 1]);
      (step.0, prev.1 + [step.1])
  }

  /** calls[0] + [hs[0]] + calls[1] + [hs[1]] + ...: what a run of Collect calls writes. */
  function Interleave(calls: seq<seq<Felt>>, hs: seq<Felt>): seq<Felt>
    requires |calls| == |hs|
    decreases |calls|
  {
    if |calls| == 0 then []
    else Interleave(calls[..|calls| - 1], hs[..|hs| - 1]) + calls[|calls| - 1] + [hs[|hs| - 1]]
  }

  /** After a run of calls the buffer holds the old buffer, then each call's inputs followed
      by the hash it returned. */
  lemma {:induction false} CollectAllBuffer(hash: Hasher, t: Transcript, calls: seq<seq<Felt>>)
    ensures CollectAll(hash, t, calls).0.buffer
         == t.buffer + Interleave(calls, CollectAll(hash, t, calls).1)
    decreases |calls|
  {
    if |calls| > 0 {
      var n := |calls|;
      var prev := CollectAll(hash, t, calls[..n - 1]);
      CollectAllBuffer(hash, t, calls[..n - 1]);
      var hs := CollectAll(hash, t, calls).1;
      assert hs[..n - 1] == prev.1;
      assert t.buffer + Interleave(calls, hs)
          == (t.buffer + Interleave(calls[..n - 1], prev.1)) + calls[n - 1] + [hs[n - 1]];
    }
  }

  /** The first k hashes of a run depend only on the first k calls: later calls never change
      earlier challenges. */
  lemma {:induction false} CollectAllPrefix(hash: Hasher, t: Transcript, calls: seq<seq<Felt>>, k: nat)
    requires k <= |calls|
    ensures CollectAll(hash, t, calls[..k]).1 == CollectAll(hash, t, calls).1[..k]
    decreases |calls|
  {
    if k < |calls| {
      var n := |calls|;
      CollectAllPrefix(hash, t, calls[..n - 1], k);
      assert calls[..n - 1][..k] == calls[..k];
      assert CollectAll(hash, t, calls).1[..n - 1] == CollectAll(hash, t, calls[..n - 1]).1;
    } else {
      assert calls[..k] == calls;
    }
  }

  /** Hash i is the hash of the whole history: the starting buffer, every earlier call's
      inputs and hash, and call i's inputs. */
  lemma CollectAllBindsHistory(hash: Hasher, t: Transcript, calls: seq<seq<Felt>>, i: nat)
    requires i < |calls|
    ensures var hs := CollectAll(hash, t, calls).1;
            hs[i] == hash(t.buffer + Interleave(calls[..i], hs[..i]) + calls[i])
  {
    var hs := CollectAll(hash, t, calls).1;
    CollectAllPrefix(hash, t, calls, i + 1);
    CollectAllPrefix(hash, t, calls, i);
    var upto := calls[..i + 1];
    assert upto[..i] == calls[..i];
    assert upto[i] == calls[i];
    CollectAllBuffer(hash, t, calls[..i]);
    assert hs[..i + 1][i] == hs[i];
  }

  /** The manager object: a Poseidon instance's buffer and the hashes it has produced. */
  class HashManager {
    const hash: Hasher
    var buffer: seq<Felt>
    var hashCollector: seq<Felt>

    /** The abstract value of this manager. */
    function State(): Transcript
      reads this
    {
      Transcript(buffer, hashCollector)
    }

    /** NewHashManager: a fresh Poseidon instance and an empty HashCollector. */
    constructor NewHashManager(hash: Hasher)
      ensures this.hash == hash && State() == Empty()
    {
      this.hash := hash;
      buffer := [];
      hashCollector := [];
    }

    /** WriteInput: appends the inputs to the Poseidon buffer; the collector is unchanged. */
    method WriteInput(inputs: seq<Felt>)
      modifies this
      ensures buffer == old(buffer) + inputs
      ensures hashCollector == old(hashCollector)
    {
      buffer := buffer + inputs;
    }

    /** WriteInputAndCollectAndReturnHash: absorbs the inputs, hashes everything buffered,
        appends that hash to the collector and to the buffer, and returns it. */
    method WriteInputAndCollectAndReturnHash(inputs: seq<Felt>) returns (hashUntilNow: Felt)
      modifies this
      ensures (State(), hashUntilNow) == Collect(hash, old(State()), inputs)
      ensures hashUntilNow == hash(old(buffer) + inputs)
      ensures |hashCollector| == |old(hashCollector)| + 1
      ensures hashCollector[..|old(hashCollector)|] == old(hashCollector)
      ensures hashCollector[|hashCollector| - 1] == hashUntilNow
    {
      buffer := buffer + inputs;
      hashUntilNow := hash(buffer);
      hashCollector := hashCollector + [hashUntilNow];
      buffer := buffer + [hashUntilNow];
    }
  }

  /** Determinism: two managers given the same sequence of calls return the same hashes and
      end with the same collectors, namely those of CollectAll. */
  method TwoManagersAgree(hash: Hasher, calls: seq<seq<Felt>>)
    returns (hashes1: seq<Felt>, hashes2: seq<Felt>, collector1: seq<Felt>, collector2: seq<Felt>)
    ensures hashes1 == hashes2 == CollectAll(hash, Empty(), calls).1
    ensures collector1 == collector2 == hashes1
  {
    var m1 := new HashManager.NewHashManager(hash);
    var m2 := new HashManager.NewHashManager(hash);
    hashes1, hashes2 := [], [];
    var i := 0;
    while i < |calls|
      invariant 0 <= i <= |calls|
      invariant m1 != m2 && m1.hash == hash && m2.hash == hash
      invariant (m1.State(), hashes1) == CollectAll(hash, Empty(), calls[..i])
      invariant (m2.State(), hashes2) == CollectAll(hash, Empty(), calls[..i])
    {
      assert calls[..i + 1][..i] == calls[..i];
      var h1 := m1.WriteInputAndCollectAndReturnHash(calls[i]);
      var h2 := m2.WriteInputAndCollectAndReturnHash(calls[i]);
      hashes1, hashes2 := hashes1 + [h1], hashes2 + [h2];
      i := i + 1;
    }
    assert calls[..|calls|] == calls;
    collector1, collector2 := m1.hashCollector, m2.hashCollector;
  }
}
