/** Deploy-time resolution of spawn references (swarm/myrmic-build/src/spawn_patch.rs): a memoised
    depth-first search that writes each referenced class's final content hash into its slot. */
module SpawnPatch {
  import opened Basics
  import opened SpawnRefs

  type Hash = h: Bytes | |h| == HASH_LEN witness seq(HASH_LEN, _ => 0)

  datatype Lookup = Found(hash: Hash) | Unknown | Unavailable

  /** The classes as built, the content hash, the class registry and the name encoding. */
  datatype Deploy = Deploy(built: map<Bytes, Bytes>, sha: Bytes -> Hash, registry: Bytes -> Lookup, utf8: Utf8) {
    function RefsOf(name: Bytes): seq<FoundRef>
      requires name in built
    {
      Refs(utf8, built[name])
    }

    /** Class `a`, built here, refers to class `b`, built here. */
    ghost predicate Edge(a: Bytes, b: Bytes) {
      a in built && b in built && exists i :: 0 <= i < |RefsOf(a)| && RefsOf(a)[i].name == b
    }

    ghost predicate Walk(walk: seq<Bytes>) {
      forall i :: 0 <= i < |walk| - 1 ==> Edge(walk[i], walk[i + 1])
    }

    ghost predicate Cycle(walk: seq<Bytes>) {
      |walk| > 1 && walk[0] == walk[|walk| - 1] && Walk(walk)
    }

    ghost predicate HasCycle() {
      exists walk :: Cycle(walk)
    }

    ghost predicate OnCycle(name: Bytes) {
      exists walk :: Cycle(walk) && walk[0] == name
    }

    /** Some class refers to this name. */
    ghost predicate Referred(name: Bytes) {
      exists a, i :: a in built && 0 <= i < |RefsOf(a)| && RefsOf(a)[i].name == name
    }

    /** Some class refers to a name that is neither built here nor found in the registry. */
    ghost predicate HasUnresolved() {
      exists a, i :: a in built && 0 <= i < |RefsOf(a)| && RefsOf(a)[i].name !in built
        && !registry(RefsOf(a)[i].name).Found?
    }
  }

  datatype Error = Cyclic(name: Bytes) | Unresolved(name: Bytes) | RegistryFailed(name: Bytes)

  datatype Result<+T> = Ok(value: T) | Err(error: Error)

  datatype Patch = Patch(offset: nat, hash: Hash)

  function Splice(bytes: Bytes, p: Patch): (r: Bytes)
    requires p.offset + HASH_LEN <= |bytes|
    ensures |r| == |bytes|
    ensures r[p.offset..p.offset + HASH_LEN] == p.hash
    ensures forall k :: 0 <= k < |bytes| && !(p.offset <= k < p.offset + HASH_LEN) ==> r[k] == bytes[k]
  {
    bytes[..p.offset] + p.hash + bytes[p.offset + HASH_LEN..]
  }

  ghost predicate Fits(len: nat, patches: seq<Patch>) {
    && (forall i :: 0 <= i < |patches| ==> patches[i].offset + HASH_LEN <= len)
    && (forall i, j :: 0 <= i < j < |patches| ==> patches[i].offset + HASH_LEN <= patches[j].offset)
  }

  predicate InSlot(p: Patch, k: nat) {
    p.offset <= k < p.offset + HASH_LEN
  }

  ghost predicate Outside(patches: seq<Patch>, k: nat) {
    forall i :: 0 <= i < |patches| ==> !InSlot(patches[i], k)
  }

  /** `after` is `before` with the hash of each patch in its slot and nothing else touched. */
  ghost predicate PatchedTo(before: Bytes, patches: seq<Patch>, after: Bytes) {
    && |after| == |before|
    && (forall i, k :: 0 <= i < |patches| && 0 <= k < |after| && InSlot(patches[i], k) ==>
          after[k] == patches[i].hash[k - patches[i].offset])
    && (forall k :: 0 <= k < |after| && Outside(patches, k) ==> after[k] == before[k])
  }

  /** Writes hashes into their slots, in place. */
  method ApplyPatches(before: Bytes, patches: seq<Patch>) returns (after: Bytes)
    requires Fits(|before|, patches)
    ensures PatchedTo(before, patches, after)
  {
    after := before;
    for n := 0 to |patches|
      invariant PatchedTo(before, patches[..n], after)
    {
      ghost var prior := after;
      after := Splice(after, patches[n]);
      OneMore(before, patches, n, prior, after);
    }
    assert patches[..|patches|] == patches;
  }

  lemma OneMore(before: Bytes, patches: seq<Patch>, n: nat, prior: Bytes, after: Bytes)
    requires Fits(|before|, patches) && n < |patches|
    requires PatchedTo(before, patches[..n], prior) && after == Splice(prior, patches[n])
    ensures PatchedTo(before, patches[..n + 1], after)
  {
    var p := patches[n];
    assert after[p.offset..p.offset + HASH_LEN] == p.hash;
    forall i, k | 0 <= i < n + 1 && 0 <= k < |after| && InSlot(patches[i], k)
      ensures after[k] == patches[i].hash[k - patches[i].offset]
    {
      if i == n {
        assert after[k] == after[p.offset..p.offset + HASH_LEN][k - p.offset];
      } else {
        assert patches[..n][i] == patches[i];
      }
    }
    forall k | 0 <= k < |after| && Outside(patches[..n + 1], k)
      ensures after[k] == before[k]
    {
      assert patches[..n + 1][n] == p;
      assert forall i :: 0 <= i < |patches[..n]| ==> patches[..n + 1][i] == patches[..n][i];
      assert Outside(patches[..n], k);
    }
  }

  /** The hash a reference resolves to: the memoised one for a class built here, else the registry's. */
  ghost predicate Resolves(dep: Deploy, memo: map<Bytes, Hash>, name: Bytes, hash: Hash) {
    if name in dep.built then name in memo && memo[name] == hash else dep.registry(name) == Found(hash)
  }

  ghost predicate ResolvedPatches(dep: Deploy, memo: map<Bytes, Hash>, refs: seq<FoundRef>, patches: seq<Patch>) {
    && |patches| == |refs|
    && forall i :: 0 <= i < |refs| ==>
      patches[i].offset == refs[i].offset && Resolves(dep, memo, refs[i].name, patches[i].hash)
  }

  /** Class `name` carries the hashes of everything it refers to, and its own hash is memoised. */
  ghost predicate Settled(dep: Deploy, memo: map<Bytes, Hash>, name: Bytes, bytes: Bytes) {
    && name in dep.built && name in memo && memo[name] == dep.sha(bytes)
    && exists patches ::
         ResolvedPatches(dep, memo, dep.RefsOf(name), patches) && PatchedTo(dep.built[name], patches, bytes)
  }

  ghost predicate AllSettled(dep: Deploy, classes: map<Bytes, Bytes>, memo: map<Bytes, Hash>) {
    && classes.Keys == dep.built.Keys && memo.Keys <= classes.Keys
    && (forall n :: n in classes && n !in memo ==> classes[n] == dep.built[n])
    && (forall n :: n in memo ==> Settled(dep, memo, n, classes[n]))
  }

  /** References of a memoised class point to classes memoised before it. */
  ghost predicate Ranked(dep: Deploy, memo: map<Bytes, Hash>, rank: map<Bytes, nat>) {
    && rank.Keys == memo.Keys
    && (forall n :: n in rank ==> rank[n] < |memo|)
    && (forall a, b :: a in rank && dep.Edge(a, b) ==> b in rank && rank[b] < rank[a])
  }

  /** What holds between steps of the search. */
  ghost predicate Sound(dep: Deploy, classes: map<Bytes, Bytes>, memo: map<Bytes, Hash>, rank: map<Bytes, nat>) {
    AllSettled(dep, classes, memo) && Ranked(dep, memo, rank)
  }

  /** `path` is the chain of references the search is inside of; the next name hangs off its end. */
  ghost predicate OnPath(dep: Deploy, active: set<Bytes>, path: seq<Bytes>, name: Bytes) {
    && active <= dep.built.Keys
    && (forall n :: n in active <==> n in path)
    && dep.Walk(path)
    && (path != [] && name in dep.built ==> dep.Edge(path[|path| - 1], name))
  }

  ghost predicate Extends(more: map<Bytes, Hash>, less: map<Bytes, Hash>) {
    forall n :: n in less ==> n in more && more[n] == less[n]
  }

  lemma CycleFound(dep: Deploy, active: set<Bytes>, path: seq<Bytes>, name: Bytes)
    requires OnPath(dep, active, path, name) && name in active
    ensures dep.OnCycle(name)
  {
    var i :| 0 <= i < |path| && path[i] == name;
    var walk := path[i..] + [name];
    forall k | 0 <= k < |walk| - 1 ensures dep.Edge(walk[k], walk[k + 1]) {
      if k < |walk| - 2 {
        assert dep.Edge(path[i + k], path[i + k + 1]);
      }
    }
    assert dep.Cycle(walk);
  }

  lemma StepInto(dep: Deploy, active: set<Bytes>, path: seq<Bytes>, name: Bytes, i: nat)
    requires OnPath(dep, active, path, name) && name in dep.built && i < |dep.RefsOf(name)|
    ensures OnPath(dep, active + {name}, path + [name], dep.RefsOf(name)[i].name)
  {
    var longer := path + [name];
    forall k | 0 <= k < |longer| - 1 ensures dep.Edge(longer[k], longer[k + 1]) {
      if k < |path| - 1 {
        assert dep.Edge(path[k], path[k + 1]);
      }
    }
  }

  lemma PatchesKept(dep: Deploy, memo: map<Bytes, Hash>, more: map<Bytes, Hash>, refs: seq<FoundRef>,
                    patches: seq<Patch>)
    requires ResolvedPatches(dep, memo, refs, patches) && Extends(more, memo)
    ensures ResolvedPatches(dep, more, refs, patches)
  {
  }

  lemma SettledKept(dep: Deploy, memo: map<Bytes, Hash>, more: map<Bytes, Hash>, name: Bytes, bytes: Bytes)
    requires Settled(dep, memo, name, bytes) && Extends(more, memo)
    ensures Settled(dep, more, name, bytes)
  {
  }

  lemma SettledStep(dep: Deploy, classes: map<Bytes, Bytes>, memo: map<Bytes, Hash>, name: Bytes, patches: seq<Patch>,
                    bytes: Bytes)
    requires AllSettled(dep, classes, memo)
    requires name in classes && name !in memo
    requires ResolvedPatches(dep, memo, dep.RefsOf(name), patches) && PatchedTo(dep.built[name], patches, bytes)
    ensures AllSettled(dep, classes[name := bytes], memo[name := dep.sha(bytes)])
  {
    var more := memo[name := dep.sha(bytes)];
    forall n | n in more ensures Settled(dep, more, n, classes[name := bytes][n]) {
      if n == name {
        PatchesKept(dep, memo, more, dep.RefsOf(name), patches);
      } else {
        SettledKept(dep, memo, more, n, classes[n]);
      }
    }
  }

  lemma RankedStep(dep: Deploy, memo: map<Bytes, Hash>, rank: map<Bytes, nat>, name: Bytes, hash: Hash,
                   patches: seq<Patch>)
    requires name in dep.built && name !in memo
    requires Ranked(dep, memo, rank) && ResolvedPatches(dep, memo, dep.RefsOf(name), patches)
    ensures Ranked(dep, memo[name := hash], rank[name := |memo|])
  {
    var more := rank[name := |memo|];
    forall a, b | a in more && dep.Edge(a, b) ensures b in more && more[b] < more[a] {
      if a == name {
        var i :| 0 <= i < |dep.RefsOf(a)| && dep.RefsOf(a)[i].name == b;
        assert Resolves(dep, memo, b, patches[i].hash);
      } else {
        assert b in rank;
      }
    }
  }

  lemma RefSlots(dep: Deploy, name: Bytes, memo: map<Bytes, Hash>, patches: seq<Patch>)
    requires name in dep.built && ResolvedPatches(dep, memo, dep.RefsOf(name), patches)
    ensures Fits(|dep.built[name]|, patches)
  {
    ScannedSlotsApart(dep.utf8, dep.built[name], 0);
  }

  class Patcher {
    const dep: Deploy
    var classes: map<Bytes, Bytes>
    var memo: map<Bytes, Hash>
    var active: set<Bytes>
    ghost var rank: map<Bytes, nat>

    constructor (dep: Deploy)
      ensures this.dep == dep && classes == dep.built && memo == map[] && active == {} && rank == map[]
    {
      this.dep := dep;
      classes, memo, active, rank := dep.built, map[], {}, map[];
    }

    ghost predicate Ready()
      reads this
    {
      Sound(dep, classes, memo, rank) && memo.Keys !! active
    }

    /** The final content hash of `name` once its own references are patched. Each class is patched
        when its search ends and never again; on success everything it leads to is settled. */
    method FinalHash(name: Bytes, ghost path: seq<Bytes>) returns (r: Result<Hash>)
      requires Ready() && OnPath(dep, active, path, name)
      modifies this
      decreases dep.built.Keys - active, 2
      ensures r.Ok? ==> Ready() && active == old(active) && Since(old(classes), old(memo), classes, memo)
      ensures r.Ok? ==> Resolves(dep, memo, name, r.value)
      ensures r.Err? ==> Justified(dep, name, r.error)
    {
      SinceSelf(classes, memo);
      if name in memo {
        return Ok(memo[name]);
      }
      if name !in classes {
        r := AskRegistry(name);
        return;
      }
      if name in active {
        CycleFound(dep, active, path, name);
        return Err(Cyclic(name));
      }
      r := PatchNew(name, path);
    }

    /** Patches a class the search meets for the first time, its references first. */
    method PatchNew(name: Bytes, ghost path: seq<Bytes>) returns (r: Result<Hash>)
      requires Ready() && OnPath(dep, active, path, name)
      requires name in classes && name !in memo && name !in active
      modifies this
      decreases dep.built.Keys - active, 1
      ensures r.Ok? ==> Ready() && active == old(active) && Since(old(classes), old(memo), classes, memo)
      ensures r.Ok? ==> name in memo && memo[name] == r.value
      ensures r.Err? ==> Justified(dep, name, r.error)
    {
      var found := ResolveRefs(name, path);
      if found.Err? {
        return Err(found.error);
      }
      ghost var classes1, memo1 := classes, memo;
      var hash := Seal(name, found.value);
      SinceThrough(old(classes), old(memo), classes1, memo1, classes, memo);
      return Ok(hash);
    }

    /** What the registry has for a class that is not built here. */
    method AskRegistry(name: Bytes) returns (r: Result<Hash>)
      requires name !in dep.built
      ensures r.Ok? ==> dep.registry(name) == Found(r.value)
      ensures r.Err? ==> Justified(dep, name, r.error)
    {
      match dep.registry(name) {
        case Found(hash) => return Ok(hash);
        case Unknown => return Err(Unresolved(name));
        case Unavailable => return Err(RegistryFailed(name));
      }
    }

    /** The references of a class still as built. */
    method RefsIn(name: Bytes) returns (refs: seq<FoundRef>)
      requires AllSettled(dep, classes, memo) && name in classes && name !in memo
      ensures refs == dep.RefsOf(name)
    {
      refs := ScanSpawnRefs(dep.utf8, classes[name]);
    }

    /** Resolves the references of a class entering the search, children first. */
    method ResolveRefs(name: Bytes, ghost path: seq<Bytes>) returns (r: Result<seq<Patch>>)
      requires Ready() && OnPath(dep, active, path, name)
      requires name in classes && name !in memo && name !in active
      modifies this
      decreases dep.built.Keys - active, 0
      ensures r.Ok? ==> Ready() && active == old(active) + {name} && Since(old(classes), old(memo), classes, memo)
      ensures r.Ok? ==> ResolvedPatches(dep, memo, dep.RefsOf(name), r.value)
      ensures r.Err? ==> Justified(dep, name, r.error)
    {
      SinceSelf(classes, memo);
      active := active + {name};
      var refs := RefsIn(name);
      var patches: seq<Patch> := [];
      for i := 0 to |refs|
        invariant Ready() && active == old(active) + {name}
        invariant Since(old(classes), old(memo), classes, memo)
        invariant ResolvedPatches(dep, memo, refs[..i], patches)
      {
        StepInto(dep, old(active), path, name, i);
        ghost var knownClasses, known := classes, memo;
        var found := FinalHash(refs[i].name, path + [name]);
        if found.Err? {
          BlamesRef(dep, name, i, found.error);
          return Err(found.error);
        }
        SinceThrough(old(classes), old(memo), knownClasses, known, classes, memo);
        OneMorePatch(dep, known, memo, refs, i, patches, found.value);
        patches := patches + [Patch(refs[i].offset, found.value)];
      }
      assert refs[..|refs|] == refs;
      return Ok(patches);
    }

    /** The bytes of a class still as built, with the resolved hashes in their slots. */
    method PatchedClass(name: Bytes, patches: seq<Patch>) returns (bytes: Bytes)
      requires AllSettled(dep, classes, memo) && name in classes && name !in memo
      requires ResolvedPatches(dep, memo, dep.RefsOf(name), patches)
      ensures PatchedTo(dep.built[name], patches, bytes)
    {
      RefSlots(dep, name, memo, patches);
      bytes := ApplyPatches(classes[name], patches);
    }

    /** Writes the resolved hashes into the class, then memoises its own. */
    method Seal(name: Bytes, patches: seq<Patch>) returns (hash: Hash)
      requires Ready() && name in active && name in classes
      requires ResolvedPatches(dep, memo, dep.RefsOf(name), patches)
      modifies this
      ensures Ready() && active == old(active) - {name}
      ensures Since(old(classes), old(memo), classes, memo)
      ensures name in memo && memo[name] == hash
    {
      var bytes := PatchedClass(name, patches);
      hash := dep.sha(bytes);
      SoundStep(dep, classes, memo, rank, name, patches, bytes);
      SinceStep(classes, memo, name, bytes, hash);
      classes := classes[name := bytes];
      rank := rank[name := |memo|];
      active := active - {name};
      memo := memo[name := hash];
    }
  }

  /** Patching and memoising one class keeps the search sound. */
  lemma SoundStep(dep: Deploy, classes: map<Bytes, Bytes>, memo: map<Bytes, Hash>, rank: map<Bytes, nat>, name: Bytes,
                  patches: seq<Patch>, bytes: Bytes)
    requires Sound(dep, classes, memo, rank) && name in classes && name !in memo
    requires ResolvedPatches(dep, memo, dep.RefsOf(name), patches) && PatchedTo(dep.built[name], patches, bytes)
    ensures Sound(dep, classes[name := bytes], memo[name := dep.sha(bytes)], rank[name := |memo|])
  {
    SettledStep(dep, classes, memo, name, patches, bytes);
    RankedStep(dep, memo, rank, name, dep.sha(bytes), patches);
  }

  lemma SinceStep(classes: map<Bytes, Bytes>, memo: map<Bytes, Hash>, name: Bytes, bytes: Bytes, hash: Hash)
    requires name !in memo
    ensures Since(classes, memo, classes[name := bytes], memo[name := hash])
  {
  }

  /** Memoised hashes and the bytes behind them are never touched again. */
  ghost predicate Since(classes0: map<Bytes, Bytes>, memo0: map<Bytes, Hash>, classes: map<Bytes, Bytes>,
                        memo: map<Bytes, Hash>)
  {
    && Extends(memo, memo0)
    && forall n :: n in memo0 && n in classes0 ==> n in classes && classes[n] == classes0[n]
  }

  lemma SinceSelf(classes: map<Bytes, Bytes>, memo: map<Bytes, Hash>)
    ensures Since(classes, memo, classes, memo)
  {
  }

  lemma SinceThrough(c0: map<Bytes, Bytes>, m0: map<Bytes, Hash>, c1: map<Bytes, Bytes>, m1: map<Bytes, Hash>,
                     c2: map<Bytes, Bytes>, m2: map<Bytes, Hash>)
    requires Since(c0, m0, c1, m1) && Since(c1, m1, c2, m2)
    ensures Since(c0, m0, c2, m2)
  {
  }

  /** What an error says: a class on a cycle, or a name, the one asked for or one referred to, that the
      registry does not know or could not look up. */
  ghost predicate Justified(dep: Deploy, name: Bytes, error: Error) {
    match error
    case Cyclic(n) => dep.OnCycle(n)
    case Unresolved(n) => n !in dep.built && dep.registry(n).Unknown? && (n == name || dep.Referred(n))
    case RegistryFailed(n) => n !in dep.built && dep.registry(n).Unavailable? && (n == name || dep.Referred(n))
  }

  lemma BlamesRef(dep: Deploy, name: Bytes, i: nat, error: Error)
    requires name in dep.built && i < |dep.RefsOf(name)|
    requires Justified(dep, dep.RefsOf(name)[i].name, error)
    ensures Justified(dep, name, error)
  {
  }

  /** So a deploy's error is about the deploy: a cycle of its classes, or a reference of one of them. */
  lemma BlamesDeploy(dep: Deploy, name: Bytes, error: Error)
    requires name in dep.built && Justified(dep, name, error)
    ensures error.Cyclic? ==> dep.HasCycle()
    ensures !error.Cyclic? ==> dep.HasUnresolved() && dep.Referred(error.name)
  {
    if !error.Cyclic? {
      var a, i :| a in dep.built && 0 <= i < |dep.RefsOf(a)| && dep.RefsOf(a)[i].name == error.name;
    }
  }

  lemma OneMorePatch(dep: Deploy, known: map<Bytes, Hash>, memo: map<Bytes, Hash>, refs: seq<FoundRef>, i: nat,
                     patches: seq<Patch>, hash: Hash)
    requires i < |refs| && ResolvedPatches(dep, known, refs[..i], patches) && Extends(memo, known)
    requires Resolves(dep, memo, refs[i].name, hash)
    ensures ResolvedPatches(dep, memo, refs[..i + 1], patches + [Patch(refs[i].offset, hash)])
  {
  }

  /** The hash a slot naming `name` must hold when `out` is what gets uploaded. */
  ghost predicate Wants(dep: Deploy, out: map<Bytes, Bytes>, name: Bytes, hash: Bytes) {
    if name in out then hash == dep.sha(out[name]) else dep.registry(name).Found? && hash == dep.registry(name).hash
  }

  ghost predicate OutsideSlots(refs: seq<FoundRef>, k: nat) {
    forall i :: 0 <= i < |refs| ==> !(refs[i].offset <= k < refs[i].offset + HASH_LEN)
  }

  /** Every slot of `bytes` holds the hash of the very bytes `out` uploads for the class it names, or
      the registry's hash, and every byte outside the slots is as built. */
  ghost predicate Consistent(dep: Deploy, out: map<Bytes, Bytes>, name: Bytes, bytes: Bytes)
    requires name in dep.built
  {
    var refs := dep.RefsOf(name);
    && |bytes| == |dep.built[name]|
    && (forall i :: 0 <= i < |refs| ==>
          refs[i].offset + HASH_LEN <= |bytes|
          && Wants(dep, out, refs[i].name, bytes[refs[i].offset..refs[i].offset + HASH_LEN]))
    && (forall k :: 0 <= k < |bytes| && OutsideSlots(refs, k) ==> bytes[k] == dep.built[name][k])
  }

  /** The classes form a fixed point of hashing and patching. */
  ghost predicate FixedPoint(dep: Deploy, out: map<Bytes, Bytes>) {
    out.Keys == dep.built.Keys && forall n :: n in out ==> Consistent(dep, out, n, out[n])
  }

  lemma SlotFilled(before: Bytes, patches: seq<Patch>, after: Bytes, i: nat)
    requires PatchedTo(before, patches, after) && i < |patches| && patches[i].offset + HASH_LEN <= |after|
    ensures after[patches[i].offset..patches[i].offset + HASH_LEN] == patches[i].hash
  {
    var o := patches[i].offset;
    forall k | 0 <= k < HASH_LEN ensures after[o..o + HASH_LEN][k] == patches[i].hash[k] {
      assert InSlot(patches[i], o + k);
    }
  }

  lemma SettledConsistent(dep: Deploy, classes: map<Bytes, Bytes>, memo: map<Bytes, Hash>, name: Bytes)
    requires classes.Keys == dep.built.Keys == memo.Keys && name in classes
    requires forall n :: n in memo ==> memo[n] == dep.sha(classes[n])
    requires Settled(dep, memo, name, classes[name])
    ensures Consistent(dep, classes, name, classes[name])
  {
    var bytes, refs := classes[name], dep.RefsOf(name);
    var patches: seq<Patch> :| ResolvedPatches(dep, memo, refs, patches) && PatchedTo(dep.built[name], patches, bytes);
    ScannedSlotsApart(dep.utf8, dep.built[name], 0);
    forall i | 0 <= i < |refs|
      ensures Wants(dep, classes, refs[i].name, bytes[refs[i].offset..refs[i].offset + HASH_LEN])
    {
      assert Resolves(dep, memo, refs[i].name, patches[i].hash);
      SlotFilled(dep.built[name], patches, bytes, i);
    }
    forall k | 0 <= k < |bytes| && OutsideSlots(refs, k) ensures bytes[k] == dep.built[name][k] {
      assert Outside(patches, k);
    }
  }

  lemma {:induction false} RankFalls(dep: Deploy, memo: map<Bytes, Hash>, rank: map<Bytes, nat>, walk: seq<Bytes>,
                                     i: nat)
    requires Ranked(dep, memo, rank) && dep.Walk(walk) && 0 < i < |walk| && walk[0] in rank
    ensures walk[i] in rank && rank[walk[i]] < rank[walk[0]]
  {
    if i > 1 {
      RankFalls(dep, memo, rank, walk, i - 1);
    }
    assert dep.Edge(walk[i - 1], walk[i]);
  }

  /** Once every class is memoised, the references among them form no cycle and all resolve. */
  lemma SuccessIsClean(dep: Deploy, classes: map<Bytes, Bytes>, memo: map<Bytes, Hash>, rank: map<Bytes, nat>)
    requires Sound(dep, classes, memo, rank) && memo.Keys == dep.built.Keys
    ensures FixedPoint(dep, classes) && !dep.HasCycle() && !dep.HasUnresolved()
  {
    forall n | n in classes ensures Consistent(dep, classes, n, classes[n]) {
      SettledConsistent(dep, classes, memo, n);
    }
    forall walk ensures !dep.Cycle(walk) {
      if dep.Cycle(walk) {
        assert dep.Edge(walk[0], walk[1]);
        RankFalls(dep, memo, rank, walk, |walk| - 1);
      }
    }
    forall a, i | a in dep.built && 0 <= i < |dep.RefsOf(a)| && dep.RefsOf(a)[i].name !in dep.built
      ensures dep.registry(dep.RefsOf(a)[i].name).Found?
    {
      assert Settled(dep, memo, a, classes[a]);
      var patches: seq<Patch> :| ResolvedPatches(dep, memo, dep.RefsOf(a), patches)
        && PatchedTo(dep.built[a], patches, classes[a]);
      assert Resolves(dep, memo, dep.RefsOf(a)[i].name, patches[i].hash);
    }
  }

  lemma SlotAgrees(dep: Deploy, out: map<Bytes, Bytes>, other: map<Bytes, Bytes>, name: Bytes, a: Bytes, b: Bytes)
    requires out.Keys == other.Keys && (name in out ==> out[name] == other[name])
    requires Wants(dep, out, name, a) && Wants(dep, other, name, b)
    ensures a == b
  {
  }

  lemma SlotByteAgrees(dep: Deploy, out: map<Bytes, Bytes>, other: map<Bytes, Bytes>, a: Bytes, b: Bytes,
                       slot: FoundRef, k: nat)
    requires slot.offset <= k < slot.offset + HASH_LEN <= |a| && |a| == |b|
    requires out.Keys == other.Keys && (slot.name in out ==> out[slot.name] == other[slot.name])
    requires Wants(dep, out, slot.name, a[slot.offset..slot.offset + HASH_LEN])
    requires Wants(dep, other, slot.name, b[slot.offset..slot.offset + HASH_LEN])
    ensures a[k] == b[k]
  {
    var o := slot.offset;
    SlotAgrees(dep, out, other, slot.name, a[o..o + HASH_LEN], b[o..o + HASH_LEN]);
    assert a[k] == a[o..o + HASH_LEN][k - o] && b[k] == b[o..o + HASH_LEN][k - o];
  }

  lemma ByteAgrees(dep: Deploy, out: map<Bytes, Bytes>, other: map<Bytes, Bytes>, name: Bytes, k: nat)
    requires out.Keys == other.Keys == dep.built.Keys && name in out
    requires Consistent(dep, out, name, out[name]) && Consistent(dep, other, name, other[name])
    requires forall b :: dep.Edge(name, b) ==> out[b] == other[b]
    requires k < |out[name]|
    ensures out[name][k] == other[name][k]
  {
    var refs, a, b := dep.RefsOf(name), out[name], other[name];
    if !OutsideSlots(refs, k) {
      var i :| 0 <= i < |refs| && refs[i].offset <= k < refs[i].offset + HASH_LEN;
      assert refs[i].name in dep.built ==> dep.Edge(name, refs[i].name);
      SlotByteAgrees(dep, out, other, a, b, refs[i], k);
    }
  }

  /** Consistent bytes are determined by the hashes of the classes they refer to. */
  lemma ConsistentUnique(dep: Deploy, out: map<Bytes, Bytes>, other: map<Bytes, Bytes>, name: Bytes)
    requires FixedPoint(dep, out) && FixedPoint(dep, other) && name in out
    requires forall b :: dep.Edge(name, b) ==> out[b] == other[b]
    ensures out[name] == other[name]
  {
    assert Consistent(dep, out, name, out[name]) && Consistent(dep, other, name, other[name]);
    forall k | 0 <= k < |out[name]| ensures out[name][k] == other[name][k] {
      ByteAgrees(dep, out, other, name, k);
    }
  }

  ghost predicate Topological(dep: Deploy, rank: map<Bytes, nat>) {
    rank.Keys == dep.built.Keys && forall a, b :: dep.Edge(a, b) ==> rank[b] < rank[a]
  }

  lemma RankIsTopological(dep: Deploy, memo: map<Bytes, Hash>, rank: map<Bytes, nat>)
    requires Ranked(dep, memo, rank) && memo.Keys == dep.built.Keys
    ensures Topological(dep, rank)
  {
  }

  /** An acyclic deploy has one fixed point only, so the order classes are visited in cannot matter. */
  lemma {:induction false} FixedPointUnique(dep: Deploy, rank: map<Bytes, nat>, out: map<Bytes, Bytes>,
                                            other: map<Bytes, Bytes>, name: Bytes)
    requires Topological(dep, rank)
    requires FixedPoint(dep, out) && FixedPoint(dep, other) && name in out
    ensures out[name] == other[name]
    decreases rank[name]
  {
    forall b | dep.Edge(name, b) ensures out[b] == other[b] {
      FixedPointUnique(dep, rank, out, other, b);
    }
    ConsistentUnique(dep, out, other, name);
  }

  lemma SameClasses(out: map<Bytes, Bytes>, other: map<Bytes, Bytes>)
    requires out.Keys == other.Keys && forall n :: n in out ==> out[n] == other[n]
    ensures out == other
  {
  }

  lemma OnlyFixedPoint(dep: Deploy, rank: map<Bytes, nat>, out: map<Bytes, Bytes>, other: map<Bytes, Bytes>)
    requires Topological(dep, rank) && FixedPoint(dep, out) && FixedPoint(dep, other)
    ensures other == out
  {
    forall n | n in out ensures out[n] == other[n] {
      FixedPointUnique(dep, rank, out, other, n);
    }
    SameClasses(out, other);
  }

  lemma FreshIsSound(dep: Deploy)
    ensures Sound(dep, dep.built, map[], map[])
  {
  }

  lemma TodoShrinks(dep: Deploy, classes: map<Bytes, Bytes>, known: map<Bytes, Hash>, memo: map<Bytes, Hash>,
                    todo: set<Bytes>, name: Bytes)
    requires AllSettled(dep, classes, memo) && Extends(memo, known)
    requires dep.built.Keys == known.Keys + todo && name in memo
    ensures dep.built.Keys == memo.Keys + (todo - {name})
  {
  }

  lemma RootPath(dep: Deploy, name: Bytes)
    ensures OnPath(dep, {}, [], name)
  {
  }

  /** Resolves and patches a whole deploy. It fails exactly when the references among the deploy's
      classes form a cycle or some reference resolves nowhere; otherwise the output is a fixed
      point, and the only one. */
  method ResolveAndPatch(dep: Deploy) returns (r: Result<map<Bytes, Bytes>>)
    ensures r.Err? <==> dep.HasCycle() || dep.HasUnresolved()
    ensures r.Err? ==> exists name :: name in dep.built && Justified(dep, name, r.error)
    ensures r.Ok? ==> FixedPoint(dep, r.value) && forall other :: FixedPoint(dep, other) ==> other == r.value
  {
    var patcher := new Patcher(dep);
    FreshIsSound(dep);
    var todo := dep.built.Keys;
    while todo != {}
      invariant fresh(patcher) && patcher.dep == dep && patcher.Ready() && patcher.active == {}
      invariant dep.built.Keys == patcher.memo.Keys + todo
      invariant todo <= dep.built.Keys
      decreases todo
    {
      var name :| name in todo;
      RootPath(dep, name);
      ghost var known := patcher.memo;
      var found := patcher.FinalHash(name, []);
      if found.Err? {
        BlamesDeploy(dep, name, found.error);
        return Err(found.error);
      }
      TodoShrinks(dep, patcher.classes, known, patcher.memo, todo, name);
      todo := todo - {name};
    }
    SuccessIsClean(dep, patcher.classes, patcher.memo, patcher.rank);
    RankIsTopological(dep, patcher.memo, patcher.rank);
    forall other | FixedPoint(dep, other) ensures other == patcher.classes {
      OnlyFixedPoint(dep, patcher.rank, patcher.classes, other);
    }
    return Ok(patcher.classes);
  }
}
