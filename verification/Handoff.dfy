/** Handing a drain's holdings to a replica: the pull floored by the receiver's whole frontier, and
    the paged coverage check that lets the drain retire (swarm/db/src/replication.rs). */
module Handoff {
  import opened Basics
  import opened SyncPoints
  import opened Fingerprint
  import opened Catchup
  import opened Convergence
  import opened Pull

  /** The request a replica sends a drain whose announce diverges from its own holdings. */
  function HandoffRequest(ours: Frontier): Request {
    Request(None, Epochs(ours))
  }

  ghost function HandedOver(ours: set<Point>, drain: set<Point>): set<Point> {
    set p | p in drain && Wanted(HandoffRequest(FrontierOf(ours)), p)
  }

  /** The handoff needs no agreement on any prefix: it merges the drain's heads whatever the two
      sides held before. */
  lemma HandoffMerges(ours: set<Point>, drain: set<Point>)
    ensures FrontierOf(ours + HandedOver(ours, drain)) == Merge(FrontierOf(ours), FrontierOf(drain))
  {
    var f, g := FrontierOf(ours), FrontierOf(drain);
    var m := Merge(f, g);
    var got := HandedOver(ours, drain);
    forall ts | ts in m ensures HeadPoint(ts, m[ts]) in ours + got {
      if ts in g && !Covers(f, ts, g[ts].epoch) {
        assert HeadPoint(ts, g[ts]) in drain;
      } else {
        assert HeadPoint(ts, f[ts]) in ours;
      }
    }
    FrontierUnique(FrontierOf(ours + got), m, ours + got);
  }

  /** Afterwards the receiver dominates the drain at every version, and asking again brings nothing. */
  lemma HandoffComplete(ours: set<Point>, drain: set<Point>)
    ensures AllCovered(FrontierOf(ours + HandedOver(ours, drain)), FrontierOf(drain))
    ensures HandedOver(ours + HandedOver(ours, drain), drain) == {}
  {
    HandoffMerges(ours, drain);
    MergeJoins(FrontierOf(ours), FrontierOf(drain));
    var f, g := FrontierOf(ours + HandedOver(ours, drain)), FrontierOf(drain);
    forall p | p in drain ensures !Wanted(HandoffRequest(f), p) {
      assert p.ts in g && AtMost(p, g[p.ts]) && Covers(f, p.ts, g[p.ts].epoch);
    }
  }

  /** The chunks a holder serves are its points the request does not exclude: applying them is adding
      that set, which is what the answer to a plan and the handoff are made of. */
  lemma ServedSet(req: Request, rows: seq<Row>)
    ensures Ids(Served(req, rows, 0)) == set p | p in RowIds(rows) && Wanted(req, p)
  {
    var served, wanted := Ids(Served(req, rows, 0)), set p | p in RowIds(rows) && Wanted(req, p);
    forall p ensures p in served <==> p in wanted {
      ServedIds(req, rows, 0, p);
    }
  }

  function Ids(chunks: seq<Chunk>): set<Point> {
    set c | c in chunks :: c.id
  }

  function RowIds(rows: seq<Row>): set<Point> {
    set r | r in rows :: r.id
  }

  ghost predicate HoldsAt(keys: seq<Point>, ts: nat, epoch: nat) {
    exists p :: p in keys && p.ts == ts && p.epoch >= epoch
  }

  ghost predicate AllHeld(keys: seq<Point>, heads: seq<(nat, nat)>) {
    forall h :: h in heads ==> HoldsAt(keys, h.0, h.1)
  }

  /** Looks for one version at the given epoch or a newer one. */
  method HoldsVersion(keys: seq<Point>, ts: nat, epoch: nat) returns (held: bool)
    ensures held <==> HoldsAt(keys, ts, epoch)
  {
    held := false;
    for i := 0 to |keys|
      invariant !held
      invariant forall k :: 0 <= k < i ==> !(keys[k].ts == ts && keys[k].epoch >= epoch)
    {
      if keys[i].ts == ts && keys[i].epoch >= epoch {
        return true;
      }
    }
  }

  /** Whether this holder covers every head of a page. */
  method VerifyCoverage(inSubject: bool, keys: seq<Point>, heads: seq<(nat, nat)>) returns (covered: bool)
    ensures covered <==> inSubject && AllHeld(keys, heads)
  {
    if !inSubject {
      return false;
    }
    for i := 0 to |heads|
      invariant forall k :: 0 <= k < i ==> HoldsAt(keys, heads[k].0, heads[k].1)
    {
      var held := HoldsVersion(keys, heads[i].0, heads[i].1);
      if !held {
        return false;
      }
    }
    return true;
  }

  const VERIFY_PAGE_HEADS: nat := 2048

  /** The target's frontier covers ours. */
  ghost predicate CoveredBy(own: seq<Point>, target: seq<Point>) {
    AllCovered(FrontierOf(set p | p in target), FrontierOf(set p | p in own))
  }

  function HeadsOf(latest: seq<Point>): seq<(nat, nat)> {
    seq(|latest|, i requires 0 <= i < |latest| => (latest[i].ts, latest[i].epoch))
  }

  lemma PageOfHeads(target: seq<Point>, heads: seq<(nat, nat)>, at: nat, end: nat)
    requires at <= end <= |heads| && AllHeld(target, heads[..at])
    ensures AllHeld(target, heads[at..end]) ==> AllHeld(target, heads[..end])
    ensures !AllHeld(target, heads[at..end]) ==> !AllHeld(target, heads)
  {
    assert heads[..end] == heads[..at] + heads[at..end];
    assert heads == heads[..at] + heads[at..end] + heads[end..];
  }

  /** Asks page by page. An answer does not depend on where the pages fall. */
  method AskPages(heads: seq<(nat, nat)>, inSubject: bool, target: seq<Point>, reach: nat -> bool)
    returns (answer: Option<bool>, asked: nat)
    ensures answer.Some? ==> (answer.value <==> AllHeld(target, heads) && (inSubject || heads == []))
    ensures answer.None? ==> !reach(asked)
    ensures forall k :: 0 <= k < asked ==> reach(k)
    ensures answer == Some(true) ==> 2048 * asked - 2048 < |heads| <= 2048 * asked
  {
    var at := 0;
    asked := 0;
    while at < |heads|
      invariant at <= |heads| && (at > 0 ==> inSubject) && AllHeld(target, heads[..at])
      invariant at == Min(2048 * asked, |heads|) && (asked > 0 ==> 2048 * asked - 2048 < |heads|)
      invariant forall k :: 0 <= k < asked ==> reach(k)
    {
      var end := Min(at + VERIFY_PAGE_HEADS, |heads|);
      if !reach(asked) {
        return None, asked;
      }
      var covered := VerifyCoverage(inSubject, target, heads[at..end]);
      PageOfHeads(target, heads, at, end);
      asked := asked + 1;
      if !covered {
        return Some(false), asked;
      }
      at := end;
    }
    assert heads[..at] == heads;
    return Some(true), asked;
  }

  /** Asks `target` whether it covers everything held here: an answer is whether its frontier covers ours. A
      target whose subject leaves the scope out never confirms a head. Only a page that could not be asked
      leaves the question open. */
  method ConfirmCoveredBy(own: seq<Point>, inSubject: bool, target: seq<Point>, reach: nat -> bool)
    returns (answer: Option<bool>, asked: nat)
    requires Ascending(own)
    ensures answer.Some? ==> (answer.value <==> CoveredBy(own, target) && (inSubject || own == []))
    ensures answer.None? ==> !reach(asked)
    ensures forall k :: 0 <= k < asked ==> reach(k)
  {
    var latest := CollectLatestHeads(own);
    NoHeadsIffNone(own, latest);
    HeldIffCovered(own, target, latest);
    answer, asked := AskPages(HeadsOf(latest), inSubject, target, reach);
  }

  lemma HeldIffCovered(own: seq<Point>, target: seq<Point>, latest: seq<Point>)
    requires LatestHeads(own, latest)
    ensures AllHeld(target, HeadsOf(latest)) <==> CoveredBy(own, target)
  {
    var heads := HeadsOf(latest);
    if AllHeld(target, heads) {
      forall k | 0 <= k < |latest| ensures HoldsAt(target, latest[k].ts, latest[k].epoch) {
        assert heads[k] in heads;
      }
      CoveredHeads(own, target, latest);
    } else {
      var k :| 0 <= k < |heads| && !HoldsAt(target, heads[k].0, heads[k].1);
      UncoveredHead(own, target, latest, k);
    }
  }

  lemma NoHeadsIffNone(own: seq<Point>, latest: seq<Point>)
    requires LatestHeads(own, latest)
    ensures latest == [] <==> own == []
  {
    assert latest == [] || latest[0] in latest;
    assert own == [] || own[0] in own;
  }

  lemma CoverIffHolds(target: seq<Point>, ts: nat, epoch: nat)
    ensures Covers(FrontierOf(set p | p in target), ts, epoch) <==> HoldsAt(target, ts, epoch)
  {
    var points := set p | p in target;
    var f := FrontierOf(points);
    if Covers(f, ts, epoch) {
      assert HeadPoint(ts, f[ts]) in points;
    }
    if HoldsAt(target, ts, epoch) {
      var p :| p in target && p.ts == ts && p.epoch >= epoch;
      assert p in points;
    }
  }

  lemma UncoveredHead(own: seq<Point>, target: seq<Point>, latest: seq<Point>, k: nat)
    requires LatestHeads(own, latest) && k < |latest|
    requires !HoldsAt(target, latest[k].ts, latest[k].epoch)
    ensures !CoveredBy(own, target)
  {
    HeadIsTop(own, latest, latest[k]);
    CoverIffHolds(target, latest[k].ts, latest[k].epoch);
  }

  lemma CoveredHeads(own: seq<Point>, target: seq<Point>, latest: seq<Point>)
    requires LatestHeads(own, latest)
    requires forall k :: 0 <= k < |latest| ==> HoldsAt(target, latest[k].ts, latest[k].epoch)
    ensures CoveredBy(own, target)
  {
    var points := set p | p in own;
    var f := FrontierOf(points);
    forall ts | ts in f ensures Covers(FrontierOf(set p | p in target), ts, f[ts].epoch) {
      assert HeadPoint(ts, f[ts]) in points;
      assert Topped(latest, HeadPoint(ts, f[ts]));
      var h :| h in latest && h.ts == ts && !Before(h, HeadPoint(ts, f[ts]));
      HeadIsTop(own, latest, h);
      CoverIffHolds(target, ts, f[ts].epoch);
    }
  }

  /** What a full replica does about one scope of an announce. */
  datatype Action =
    | Nothing
    | ProbeForFull
    | AskChangeSet(req: Request)
    | PullDirectly(req: Request)

  /** The data request of an action, against a sender whose frontier is `theirs`, is exact. */
  ghost predicate Exact(ours: Frontier, theirs: Frontier, action: Action) {
    match action
    case Nothing => AllCovered(ours, theirs)
    case ProbeForFull => true
    case AskChangeSet(req) => AsksExactly(ours, theirs, req)
    case PullDirectly(req) => AsksExactly(ours, theirs, req)
  }

  ghost predicate AsksExactly(ours: Frontier, theirs: Frontier, req: Request) {
    forall ts :: ts in theirs ==> (Wanted(req, HeadPoint(ts, theirs[ts])) <==> !Covers(ours, ts, theirs[ts].epoch))
  }

  /** Handles one scope of an announce. Whatever the sender is and however its holdings relate to
      ours, the request that goes out asks for exactly the heads we lack or hold at a lower epoch; a
      drain is asked directly where the transport can, a diverging full replica is probed. */
  method HandleAnnounce(fp: Digest, inSubject: bool, ours: Option<Frontier>, theirs: ScopeAnnounce, fullReplica: bool,
                        canSync: bool)
    returns (action: Action)
    ensures !inSubject ==> action == Nothing
    ensures inSubject ==>
              forall g ::
                theirs == Announced(fp, g, theirs.baseline) && FoldsFaithful(fp, ours.Or(map[]), g, theirs.baseline)
                ==> Exact(ours.Or(map[]), g, action)
    ensures action.PullDirectly? ==> !fullReplica && canSync
    ensures action.ProbeForFull? || action.AskChangeSet? ==> fullReplica || !canSync
    ensures action.ProbeForFull? ==> Planned(fp, ours.Or(map[]), theirs, Diverged)
    ensures inSubject && Planned(fp, ours.Or(map[]), theirs, Diverged) ==>
              action == if fullReplica || !canSync then ProbeForFull
                        else PullDirectly(Request(None, Epochs(ours.Or(map[]))))
    ensures inSubject && !Planned(fp, ours.Or(map[]), theirs, Diverged) ==>
              if AllCovered(ours.Or(map[]), theirs.heads) then action == Nothing
              else if fullReplica || !canSync then action.AskChangeSet? else action.PullDirectly?
  {
    if !inSubject {
      return Nothing;
    }
    ghost var mine := ours.Or(map[]);
    var plan := PlanCatchup(fp, ours, theirs);
    match plan {
      case Diverged =>
        action := if !fullReplica && canSync then PullDirectly(HandoffRequest(ours.Or(map[]))) else ProbeForFull;
      case Behind(sinceTs, floors) =>
        action := if !fullReplica && canSync then PullDirectly(Request(sinceTs, floors))
          else AskChangeSet(Request(sinceTs, floors));
      case CaughtUp =>
        action := Nothing;
    }
    forall g | theirs == Announced(fp, g, theirs.baseline) && FoldsFaithful(fp, mine, g, theirs.baseline)
      ensures Exact(mine, g, action)
    {
      RequestExactness(fp, mine, g, theirs.baseline, plan);
    }
  }

  /** A drain's retirement record. */
  class Offloader {
    var covered: seq<Point>
    var stopped: bool

    constructor ()
      ensures covered == [] && !stopped
    {
      covered := [];
      stopped := false;
    }

    /** Retires exactly when a full replica that has not since departed announces every head held here,
        explicitly, at the same or a newer epoch; the coverage recorded is those heads and no more. */
    method HandleCoverage(own: seq<Point>, known: Option<ScopeAnnounce>, fullReplica: bool, vouched: bool)
      requires Ascending(own)
      modifies this
      ensures var heads := if known.Some? then known.value.heads else map[];
              if fullReplica && vouched && AllCovered(heads, FrontierOf(set p | p in own)) then
                && stopped
                && var f := FrontierOf(set p | p in own);
                   forall q :: q in covered <==> q.ts in f && q == HeadPoint(q.ts, f[q.ts])
              else
                stopped == old(stopped) && covered == old(covered)
    {
      if !fullReplica {
        return;
      }
      var latest := CollectLatestHeads(own);
      var heads: Frontier := if known.Some? then known.value.heads else map[];
      var allHeld := true;
      for i := 0 to |latest|
        invariant allHeld <==> forall k :: 0 <= k < i ==> Covers(heads, latest[k].ts, latest[k].epoch)
      {
        allHeld := allHeld && Covers(heads, latest[i].ts, latest[i].epoch);
      }
      LatestIsFrontier(own, latest, heads);
      if allHeld && vouched {
        covered := latest;
        stopped := true;
      }
    }

    /** Hands the recorded coverage over once. */
    method TakeConfirmedCoverage() returns (points: seq<Point>)
      modifies this`covered
      ensures points == old(covered) && covered == []
    {
      points := covered;
      covered := [];
    }
  }

  lemma PickTop(own: seq<Point>, latest: seq<Point>, p: Point) returns (h: Point)
    requires LatestHeads(own, latest) && p in own
    ensures h in latest && h in own && h.ts == p.ts && !Before(h, p)
  {
    assert Topped(latest, p);
    h :| h in latest && h.ts == p.ts && !Before(h, p);
  }

  lemma TopIsUnique(own: seq<Point>, q: Point, h: Point)
    requires var f := FrontierOf(set p | p in own);
             q.ts in f && q == HeadPoint(q.ts, f[q.ts])
    requires h in own && h.ts == q.ts && !Before(h, q)
    ensures h == q
  {
  }

  lemma LatestMember(own: seq<Point>, latest: seq<Point>, q: Point)
    requires LatestHeads(own, latest)
    ensures var f := FrontierOf(set p | p in own);
            q in latest <==> q.ts in f && q == HeadPoint(q.ts, f[q.ts])
  {
    var f := FrontierOf(set p | p in own);
    if q in latest {
      HeadIsTop(own, latest, q);
    } else if q.ts in f && q == HeadPoint(q.ts, f[q.ts]) {
      assert q in (set p | p in own);
      var h := PickTop(own, latest, q);
      TopIsUnique(own, q, h);
    }
  }

  lemma HeadIsTop(own: seq<Point>, latest: seq<Point>, h: Point)
    requires Descending(latest) && AllTopped(own, latest)
    requires h in latest && h in own
    ensures var f := FrontierOf(set p | p in own);
            h.ts in f && h == HeadPoint(h.ts, f[h.ts])
  {
  }

  lemma LatestIsFrontier(own: seq<Point>, latest: seq<Point>, heads: Frontier)
    requires LatestHeads(own, latest)
    ensures var f := FrontierOf(set p | p in own);
            forall q :: q in latest <==> q.ts in f && q == HeadPoint(q.ts, f[q.ts])
    ensures AllCovered(heads, FrontierOf(set p | p in own))
            <==> forall k :: 0 <= k < |latest| ==> Covers(heads, latest[k].ts, latest[k].epoch)
  {
    var f := FrontierOf(set p | p in own);
    forall q: Point ensures q in latest <==> q.ts in f && q == HeadPoint(q.ts, f[q.ts]) {
      LatestMember(own, latest, q);
    }
    if forall k :: 0 <= k < |latest| ==> Covers(heads, latest[k].ts, latest[k].epoch) {
      forall ts | ts in f ensures Covers(heads, ts, f[ts].epoch) {
        assert HeadPoint(ts, f[ts]) in latest;
      }
    } else {
      var k :| 0 <= k < |latest| && !Covers(heads, latest[k].ts, latest[k].epoch);
      assert latest[k] in latest;
    }
  }
}
