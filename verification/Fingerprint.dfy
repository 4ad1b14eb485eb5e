/** The order-independent digest of a set of heads (swarm/db-commons/src/models/replication.rs).
    The digest of one head is a parameter: nothing here depends on how it is mixed. */
module Fingerprint {
  import opened Basics
  import opened SyncPoints

  type Digest = (nat, Head) -> bv64

  type Mixer = (bv64, bv64) -> bv64

  ghost predicate Commutes(mix: Mixer) {
    forall a, b, c :: mix(a, mix(b, c)) == mix(b, mix(a, c))
  }

  function Xor(a: bv64, b: bv64): bv64 {
    a ^ b
  }

  /** The digests of all heads of `f` mixed together, in no particular order. */
  ghost function MixAll(mix: Mixer, fp: Digest, f: Frontier): bv64
    decreases f.Keys
  {
    if f == map[] then 0
    else
      var ts :| ts in f;
      mix(fp(ts, f[ts]), MixAll(mix, fp, f - {ts}))
  }

  /** The XOR of the digests of all heads of `f`. */
  ghost function Fold(fp: Digest, f: Frontier): bv64 {
    MixAll(Xor, fp, f)
  }

  lemma DropTwo(f: Frontier, a: nat, b: nat)
    ensures f - {a} - {b} == f - {b} - {a}
  {
  }

  /** A digest mixed by a commuting operation may be taken apart at any head. */
  lemma {:induction false} MixSplit(mix: Mixer, fp: Digest, f: Frontier, ts: nat)
    requires Commutes(mix) && ts in f
    ensures MixAll(mix, fp, f) == mix(fp(ts, f[ts]), MixAll(mix, fp, f - {ts}))
    decreases f.Keys
  {
    var first :| first in f && MixAll(mix, fp, f) == mix(fp(first, f[first]), MixAll(mix, fp, f - {first}));
    if first != ts {
      MixSplit(mix, fp, f - {first}, ts);
      MixSplit(mix, fp, f - {ts}, first);
      DropTwo(f, first, ts);
      var a, b := fp(first, f[first]), fp(ts, f[ts]);
      var c := MixAll(mix, fp, f - {first} - {ts});
      assert mix(a, mix(b, c)) == mix(b, mix(a, c));
    }
  }

  lemma XorPermutes(a: bv64, b: bv64, c: bv64)
    ensures Xor(a, Xor(b, c)) == Xor(b, Xor(a, c))
  {
  }

  lemma XorCommutes()
    ensures Commutes(Xor)
  {
    forall a, b, c ensures Xor(a, Xor(b, c)) == Xor(b, Xor(a, c)) {
      XorPermutes(a, b, c);
    }
  }

  lemma XorSwap(a: bv64, b: bv64)
    ensures Xor(a, b) == Xor(b, a)
  {
  }

  /** Mixing a digest in twice cancels. */
  lemma XorCancels(a: bv64, b: bv64)
    ensures Xor(Xor(a, b), b) == a
  {
  }

  /** Adding a head XORs its digest in. */
  lemma FoldExtend(fp: Digest, f: Frontier, ts: nat, h: Head)
    requires ts !in f
    ensures Fold(fp, f[ts := h]) == Xor(Fold(fp, f), fp(ts, h))
  {
    XorCommutes();
    MixSplit(Xor, fp, f[ts := h], ts);
    assert f[ts := h] - {ts} == f;
    XorSwap(Fold(fp, f), fp(ts, h));
  }

  /** And taking it out again XORs it once more. */
  lemma FoldDrop(fp: Digest, f: Frontier, ts: nat)
    requires ts in f
    ensures Fold(fp, f - {ts}) == Xor(Fold(fp, f), fp(ts, f[ts]))
  {
    assert (f - {ts})[ts := f[ts]] == f;
    FoldExtend(fp, f - {ts}, ts, f[ts]);
    XorCancels(Fold(fp, f - {ts}), fp(ts, f[ts]));
  }

  /** So two frontiers that differ in one head fold alike exactly when that head digests alike. */
  lemma OneHeadTells(fp: Digest, f: Frontier, ts: nat, h: Head)
    requires ts in f
    ensures Fold(fp, f[ts := h]) == Fold(fp, f) <==> fp(ts, h) == fp(ts, f[ts])
  {
    var rest := f - {ts};
    assert rest[ts := h] == f[ts := h] && rest[ts := f[ts]] == f;
    FoldExtend(fp, rest, ts, h);
    FoldExtend(fp, rest, ts, f[ts]);
    XorTells(Fold(fp, rest), fp(ts, h), fp(ts, f[ts]));
  }

  lemma XorTells(a: bv64, b: bv64, c: bv64)
    ensures Xor(a, b) == Xor(a, c) <==> b == c
  {
    XorSwap(a, b);
    XorSwap(a, c);
    XorCancels(b, a);
    XorCancels(c, a);
  }
}
