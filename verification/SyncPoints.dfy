/** Sync points, their key order, and the frontier of a store (swarm/db/src/domain.rs,
    swarm/db/src/store/fjall/tx.rs).

    A store's holdings for one scope are a finite set of points, kept in a table whose keys order
    them by timestamp, then epoch, then node. The frontier keeps the greatest point of each
    version. */
module SyncPoints {
  import opened Basics

  datatype Point = Point(epoch: nat, ts: nat, node: nat)

  datatype Head = Head(epoch: nat, node: nat)

  /** Version -> the newest epoch held at it, and the node that wrote that epoch. */
  type Frontier = map<nat, Head>

  /** The key order of the sync point table. */
  predicate Before(a: Point, b: Point) {
    || a.ts < b.ts
    || (a.ts == b.ts && (a.epoch < b.epoch || (a.epoch == b.epoch && a.node < b.node)))
  }

  ghost predicate Ascending(keys: seq<Point>) {
    forall i, j :: 0 <= i < j < |keys| ==> Before(keys[i], keys[j])
  }

  function HeadPoint(ts: nat, h: Head): Point {
    Point(h.epoch, ts, h.node)
  }

  predicate AtMost(p: Point, h: Head) {
    p.epoch < h.epoch || (p.epoch == h.epoch && p.node <= h.node)
  }

  /** `f` is the frontier of `points`: a head for every version held, each head held, and no held
      point above the head of its version. */
  ghost predicate Summarises(f: Frontier, points: set<Point>) {
    && (forall ts :: ts in f ==> HeadPoint(ts, f[ts]) in points)
    && (forall p :: p in points ==> p.ts in f && AtMost(p, f[p.ts]))
  }

  lemma FrontierUnique(f: Frontier, g: Frontier, points: set<Point>)
    requires Summarises(f, points) && Summarises(g, points)
    ensures f == g
  {
    forall ts | ts in f || ts in g
      ensures ts in f && ts in g && f[ts] == g[ts]
    {
      if ts in f { assert HeadPoint(ts, f[ts]) in points; }
      if ts in g { assert HeadPoint(ts, g[ts]) in points; }
    }
    assert f.Keys == g.Keys;
  }

  /** Adds one point to a frontier. */
  function Raise(f: Frontier, p: Point): Frontier {
    if p.ts in f && AtMost(p, f[p.ts]) then f else f[p.ts := Head(p.epoch, p.node)]
  }

  lemma RaiseSummarises(f: Frontier, points: set<Point>, p: Point)
    requires Summarises(f, points)
    ensures Summarises(Raise(f, p), points + {p})
  {
    var g := Raise(f, p);
    forall q | q in points + {p}
      ensures q.ts in g && AtMost(q, g[q.ts])
    {
      if q != p { assert q in points; }
    }
  }

  lemma {:induction false} FrontierExists(points: set<Point>)
    ensures exists f: Frontier :: Summarises(f, points)
  {
    if points == {} {
      assert Summarises(map[], points);
    } else {
      var p :| p in points;
      FrontierExists(points - {p});
      var f: Frontier :| Summarises(f, points - {p});
      RaiseSummarises(f, points - {p}, p);
      assert points - {p} + {p} == points;
    }
  }

  ghost function FrontierOf(points: set<Point>): (f: Frontier)
    ensures Summarises(f, points)
  {
    FrontierExists(points);
    var f: Frontier :| Summarises(f, points);
    f
  }

  /** The version-to-epoch map two replicas agree on when they are in step. */
  function Epochs(f: Frontier): map<nat, nat> {
    map ts | ts in f :: f[ts].epoch
  }

  /** The pointwise maximum of two version-to-epoch maps. */
  function Join(a: map<nat, nat>, b: map<nat, nat>): map<nat, nat> {
    map ts | ts in a.Keys + b.Keys ::
      if ts in a && ts in b then Max(a[ts], b[ts]) else if ts in a then a[ts] else b[ts]
  }

  /** `f` holds version `ts` at `epoch` or a newer one. */
  predicate Covers(f: Frontier, ts: nat, epoch: nat) {
    ts in f && f[ts].epoch >= epoch
  }

  /** Some point of `heads` tops `p`: same version, not before it in key order. */
  ghost predicate Topped(heads: seq<Point>, p: Point) {
    exists h :: h in heads && h.ts == p.ts && !Before(h, p)
  }

  ghost predicate Descending(heads: seq<Point>) {
    forall j, k :: 0 <= j < k < |heads| ==> heads[j].ts > heads[k].ts
  }

  ghost predicate AllTopped(keys: seq<Point>, heads: seq<Point>) {
    forall p :: p in keys ==> Topped(heads, p)
  }

  /** `heads` is the newest point of every version of the table, newest version first. */
  ghost predicate LatestHeads(keys: seq<Point>, heads: seq<Point>) {
    && Descending(heads)
    && (forall h :: h in heads ==> h in keys)
    && AllTopped(keys, heads)
  }

  /** The last key of each version's run, from the end of the table down to index `i`. */
  function HeadsDown(keys: seq<Point>, i: nat): seq<Point>
    requires i <= |keys|
    decreases |keys| - i
  {
    if i == |keys| then []
    else if i + 1 < |keys| && keys[i + 1].ts == keys[i].ts then HeadsDown(keys, i + 1)
    else HeadsDown(keys, i + 1) + [keys[i]]
  }

  lemma {:induction false} HeadsDownDrawn(keys: seq<Point>, i: nat)
    requires Ascending(keys) && i <= |keys|
    ensures forall h :: h in HeadsDown(keys, i) ==> h in keys && keys[i].ts <= h.ts
    ensures Descending(HeadsDown(keys, i))
    decreases |keys| - i
  {
    if i < |keys| {
      HeadsDownDrawn(keys, i + 1);
      if i + 1 < |keys| {
        assert Before(keys[i], keys[i + 1]);
      }
    }
  }

  lemma {:induction false} HeadsDownTops(keys: seq<Point>, i: nat, k: nat)
    requires Ascending(keys) && i <= k < |keys|
    ensures Topped(HeadsDown(keys, i), keys[k])
    decreases |keys| - i
  {
    var heads := HeadsDown(keys, i);
    if i + 1 < |keys| && keys[i + 1].ts == keys[i].ts {
      HeadsDownTops(keys, i + 1, if k == i then i + 1 else k);
      assert Before(keys[i], keys[i + 1]);
    } else if k == i {
      assert keys[i] in heads;
    } else {
      HeadsDownTops(keys, i + 1, k);
      var h :| h in HeadsDown(keys, i + 1) && h.ts == keys[k].ts && !Before(h, keys[k]);
      assert h in heads;
    }
  }

  /** The scan's output is exactly the newest point of each version. */
  lemma HeadsDownLatest(keys: seq<Point>)
    requires Ascending(keys)
    ensures LatestHeads(keys, HeadsDown(keys, 0))
  {
    HeadsDownDrawn(keys, 0);
    forall p | p in keys ensures Topped(HeadsDown(keys, 0), p) {
      var k :| 0 <= k < |keys| && keys[k] == p;
      HeadsDownTops(keys, 0, k);
    }
  }

  /** Scans the table from its end, holding one point back until a point of an older version shows
      that every later epoch of its own version has been seen. */
  method CollectLatestHeads(keys: seq<Point>) returns (heads: seq<Point>)
    requires Ascending(keys)
    ensures LatestHeads(keys, heads)
  {
    heads := [];
    var current: Option<Point> := None;
    var i := |keys|;
    while i > 0
      invariant 0 <= i <= |keys|
      invariant current.None? <==> i == |keys|
      invariant current.Some? ==> current.value.ts == keys[i].ts
      invariant HeadsDown(keys, i) == if current.Some? then heads + [current.value] else heads
    {
      i := i - 1;
      if current.None? || current.value.ts != keys[i].ts {
        if current.Some? {
          heads := heads + [current.value];
        }
        current := Some(keys[i]);
      }
    }
    if current.Some? {
      heads := heads + [current.value];
    }
    HeadsDownLatest(keys);
  }

  lemma HeadsSummarise(keys: seq<Point>, heads: seq<Point>, f: Frontier)
    requires LatestHeads(keys, heads)
    requires forall ts :: ts in f ==> HeadPoint(ts, f[ts]) in heads
    requires forall h :: h in heads ==> h.ts in f && HeadPoint(h.ts, f[h.ts]) == h
    ensures Summarises(f, set p | p in keys)
  {
    forall p | p in keys ensures p.ts in f && AtMost(p, f[p.ts]) {
      assert Topped(heads, p);
    }
  }

  /** Gathers the collected heads into the frontier map an announce is built from. */
  method ScanFrontier(keys: seq<Point>) returns (f: Frontier)
    requires Ascending(keys)
    ensures Summarises(f, set p | p in keys)
  {
    var heads := CollectLatestHeads(keys);
    f := map[];
    for i := 0 to |heads|
      invariant forall ts :: ts in f ==> HeadPoint(ts, f[ts]) in heads[..i]
      invariant forall h :: h in heads[..i] ==> h.ts in f && HeadPoint(h.ts, f[h.ts]) == h
    {
      f := f[heads[i].ts := Head(heads[i].epoch, heads[i].node)];
      assert heads[..i + 1] == heads[..i] + [heads[i]];
    }
    assert heads[..|heads|] == heads;
    HeadsSummarise(keys, heads, f);
  }
}
