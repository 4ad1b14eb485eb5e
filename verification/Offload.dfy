/** Offload safety over whole runs (swarm/db/src/replication.rs, swarm/swarm/src/plugins/db.rs).

    One scope is held by full replicas, whose points only accumulate, and by drains, which serve
    their points out and retire, or become replicas themselves when nobody comes for their points. Nodes
    commit, announce, serve, apply, check coverage, release and promote in any order; announces and
    changesets arrive late, twice, out of order or not at all. */
module Offload {
  import opened Basics
  import opened SyncPoints
  import opened Fingerprint
  import opened Catchup

  type NodeId = nat

  datatype Announce = Announce(sender: NodeId, sa: ScopeAnnounce, fullReplica: bool)

  /** A point-to-point coverage check in progress: the target, what the drain held when it began, and
      the heads still to be confirmed, once they have been collected. */
  datatype Check =
    | Idle
    | Asking(target: NodeId, snapshot: set<Point>, heads: Option<set<(nat, nat)>>)

  /** `scanned` is the holdings an incoming announce is checked against. `covered` is what an announce
      confirmed, kept by the replicator, and `verified` what the drain's own check did. */
  datatype Drain = Drain(store: set<Point>, scanned: Option<set<Point>>, check: Check,
                         covered: set<Point>, verified: set<Point>, retired: bool)

  /** What a retired drain lets go of: what its own check confirmed, else what an announce did. */
  function Releasable(drain: Drain): set<Point> {
    if drain.verified != {} then drain.verified else drain.covered
  }

  datatype State = State(replicas: map<NodeId, set<Point>>, drains: map<NodeId, Drain>,
                         committed: set<Point>, announces: set<Announce>, served: set<Point>)

  ghost predicate Held(store: set<Point>, ts: nat, epoch: nat) {
    exists q :: q in store && q.ts == ts && q.epoch >= epoch
  }

  /** Some full replica holds version `ts` at `epoch` or a newer one. */
  ghost predicate Dominated(s: State, ts: nat, epoch: nat) {
    exists r :: r in s.replicas && Held(s.replicas[r], ts, epoch)
  }

  /** Some node still holds version `ts` at `epoch` or a newer one. */
  ghost predicate Kept(s: State, ts: nat, epoch: nat) {
    || Dominated(s, ts, epoch)
    || exists d :: d in s.drains && Held(s.drains[d].store, ts, epoch)
  }

  ghost function HeadPoints(store: set<Point>): set<Point> {
    set p | p in store && p == HeadPoint(p.ts, FrontierOf(store)[p.ts])
  }

  ghost function HeadEpochs(store: set<Point>): set<(nat, nat)> {
    set p | p in HeadPoints(store) :: (p.ts, p.epoch)
  }

  ghost function Serve(store: set<Point>, sinceTs: Option<nat>, floors: map<nat, nat>): set<Point> {
    set p | p in store && !Skips(sinceTs, floors, p.ts, p.epoch)
  }

  datatype Step =
    | CommitAtReplica(r: NodeId, p: Point)
    | CommitAtDrain(d: NodeId, p: Point)
    | AnnounceReplica(r: NodeId, cut: Option<nat>)
    | AnnounceDrain(d: NodeId, cut: Option<nat>)
    | ServeReplica(r: NodeId, sinceTs: Option<nat>, floors: map<nat, nat>)
    | ServeDrain(d: NodeId, sinceTs: Option<nat>, floors: map<nat, nat>)
    | Apply(r: NodeId, chunks: set<Point>)
    | Scan(d: NodeId)
    | HandleCoverage(d: NodeId, a: Announce)
    | BeginCheck(d: NodeId, target: NodeId)
    | CollectHeads(d: NodeId)
    | VerifyPage(d: NodeId, page: set<(nat, nat)>)
    | Confirm(d: NodeId)
    | Release(d: NodeId, points: set<Point>)
    | Restart(d: NodeId)
    | Promote(d: NodeId)

  ghost predicate Enabled(s: State, step: Step) {
    match step
    case CommitAtReplica(r, p) => r in s.replicas
    case CommitAtDrain(d, p) => d in s.drains
    case AnnounceReplica(r, cut) => r in s.replicas
    case AnnounceDrain(d, cut) => d in s.drains
    case ServeReplica(r, since, floors) => r in s.replicas
    case ServeDrain(d, since, floors) => d in s.drains
    case Apply(r, chunks) => r in s.replicas && chunks <= s.served
    case Scan(d) => d in s.drains
    case HandleCoverage(d, a) =>
      && d in s.drains && a in s.announces && a.fullReplica && s.drains[d].scanned.Some?
      && AllCovered(a.sa.heads, FrontierOf(s.drains[d].scanned.value))
    case BeginCheck(d, target) => d in s.drains && target in s.replicas
    case CollectHeads(d) => d in s.drains && s.drains[d].check.Asking? && s.drains[d].check.heads.None?
    case VerifyPage(d, page) =>
      && d in s.drains && s.drains[d].check.Asking? && s.drains[d].check.heads.Some?
      && s.drains[d].check.target in s.replicas
      && forall h :: h in page ==> Held(s.replicas[s.drains[d].check.target], h.0, h.1)
    case Confirm(d) => d in s.drains && s.drains[d].check.Asking? && s.drains[d].check.heads == Some({})
    case Release(d, points) => d in s.drains && s.drains[d].retired && points <= Releasable(s.drains[d])
    case Restart(d) => d in s.drains
    case Promote(d) => d in s.drains
  }

  function WithDrain(s: State, d: NodeId, drain: Drain): State {
    s.(drains := s.drains[d := drain])
  }

  /** Drain `d` takes the step. */
  predicate Moves(step: Step, d: NodeId) {
    match step
    case CommitAtReplica(_, _) => false
    case AnnounceReplica(_, _) => false
    case AnnounceDrain(_, _) => false
    case ServeReplica(_, _, _) => false
    case ServeDrain(_, _, _) => false
    case Apply(_, _) => false
    case _ => step.d == d
  }

  /** What a step does to the drain that takes it. A confirmation counts only what was held when it was
      pinned down, and a release lets go of confirmed points only. A promoted drain's points are the new
      replica's. */
  ghost function DrainAfter(drain: Drain, step: Step): Drain {
    match step
    case CommitAtDrain(_, p) => drain.(store := drain.store + {p})
    case Scan(_) => drain.(scanned := Some(drain.store))
    case HandleCoverage(_, _) => drain.(covered := HeadPoints(drain.scanned.Or({})), retired := true)
    case BeginCheck(_, target) => drain.(check := Asking(target, drain.store, None))
    case CollectHeads(_) =>
      if drain.check.Idle? then drain else drain.(check := drain.check.(heads := Some(HeadEpochs(drain.store))))
    case VerifyPage(_, page) =>
      if drain.check.Idle? then drain else drain.(check := drain.check.(heads := Some(drain.check.heads.Or({}) - page)))
    case Confirm(_) =>
      if drain.check.Idle? then drain
      else drain.(verified := HeadPoints(drain.check.snapshot), retired := true, check := Idle)
    case Release(_, points) => drain.(store := drain.store - points)
    case Restart(_) => Drain(drain.store, None, Idle, {}, {}, false)
    case Promote(_) => Drain({}, None, Idle, {}, {}, false)
    case _ => drain
  }

  ghost function ReplicaAt(s: State, r: NodeId): set<Point> {
    if r in s.replicas then s.replicas[r] else {}
  }

  /** Chunks are applied one by one and some may fail, so a replica applies any part of what was ever
      served. */
  ghost function After(fp: Digest, s: State, step: Step): State
    requires Enabled(s, step)
  {
    match step
    case CommitAtReplica(r, p) => s.(replicas := s.replicas[r := s.replicas[r] + {p}], committed := s.committed + {p})
    case AnnounceReplica(r, cut) =>
      s.(announces := s.announces + {Announce(r, Announced(fp, FrontierOf(s.replicas[r]), cut), true)})
    case AnnounceDrain(d, cut) =>
      s.(announces := s.announces + {Announce(d, Announced(fp, FrontierOf(s.drains[d].store), cut), false)})
    case ServeReplica(r, since, floors) => s.(served := s.served + Serve(s.replicas[r], since, floors))
    case ServeDrain(d, since, floors) => s.(served := s.served + Serve(s.drains[d].store, since, floors))
    case Apply(r, chunks) => s.(replicas := s.replicas[r := s.replicas[r] + chunks])
    case CommitAtDrain(d, p) => WithDrain(s, d, DrainAfter(s.drains[d], step)).(committed := s.committed + {p})
    case Promote(d) =>
      WithDrain(s, d, DrainAfter(s.drains[d], step)).(replicas := s.replicas[d := ReplicaAt(s, d) + s.drains[d].store])
    case _ => WithDrain(s, step.d, DrainAfter(s.drains[step.d], step))
  }

  lemma DrainSteps(fp: Digest, s: State, step: Step, d: NodeId)
    requires Enabled(s, step) && d in s.drains
    ensures After(fp, s, step).drains.Keys == s.drains.Keys
    ensures After(fp, s, step).drains[d] == if Moves(step, d) then DrainAfter(s.drains[d], step) else s.drains[d]
  {
  }

  /** Whatever a full replica ever announced explicitly, some full replica still holds. */
  ghost predicate Truthful(s: State) {
    forall a, ts :: a in s.announces && a.fullReplica && ts in a.sa.heads ==> Dominated(s, ts, a.sa.heads[ts].epoch)
  }

  /** Whatever a drain may release, some full replica holds. */
  ghost predicate Backed(s: State) {
    forall d, p :: d in s.drains && (p in s.drains[d].covered || p in s.drains[d].verified) ==>
      Dominated(s, p.ts, p.epoch)
  }

  /** Where a version the check is about stands: confirmed, still to be confirmed, or still held. */
  ghost predicate Accounted(s: State, drain: Drain, p: Point)
    requires drain.check.Asking?
  {
    || Dominated(s, p.ts, p.epoch)
    || (drain.check.heads.None? && p in drain.store)
    || (drain.check.heads.Some? && exists h :: h in drain.check.heads.value && h.0 == p.ts && h.1 >= p.epoch)
  }

  ghost predicate Checking(s: State) {
    forall d, p :: d in s.drains && s.drains[d].check.Asking? && p in s.drains[d].check.snapshot ==>
      Accounted(s, s.drains[d], p)
  }

  /** No committed version is lost. */
  ghost predicate NothingLost(s: State) {
    forall p :: p in s.committed ==> Kept(s, p.ts, p.epoch)
  }

  ghost predicate DrainGenuine(drain: Drain, committed: set<Point>) {
    && drain.store <= committed && drain.covered <= committed && drain.verified <= committed
    && (drain.scanned.Some? ==> drain.scanned.value <= committed)
    && (drain.check.Asking? ==> drain.check.snapshot <= committed)
  }

  /** Nobody holds, serves or remembers a point that was never committed. */
  ghost predicate Genuine(s: State) {
    && s.served <= s.committed
    && (forall r :: r in s.replicas ==> s.replicas[r] <= s.committed)
    && (forall d :: d in s.drains ==> DrainGenuine(s.drains[d], s.committed))
  }

  ghost predicate Inv(s: State) {
    Truthful(s) && Backed(s) && Checking(s) && NothingLost(s) && Genuine(s)
  }

  lemma HeldGrows(a: set<Point>, b: set<Point>, ts: nat, epoch: nat)
    requires a <= b && Held(a, ts, epoch)
    ensures Held(b, ts, epoch)
  {
  }

  ghost predicate Grows(s: State, t: State) {
    forall r :: r in s.replicas ==> r in t.replicas && s.replicas[r] <= t.replicas[r]
  }

  lemma ReplicasGrow(fp: Digest, s: State, step: Step)
    requires Enabled(s, step)
    ensures Grows(s, After(fp, s, step))
  {
  }

  lemma DominatedStays(s: State, t: State, ts: nat, epoch: nat)
    requires Grows(s, t) && Dominated(s, ts, epoch)
    ensures Dominated(t, ts, epoch)
  {
  }

  lemma AnnouncedHeld(fp: Digest, store: set<Point>, cut: Option<nat>, ts: nat)
    requires ts in Announced(fp, FrontierOf(store), cut).heads
    ensures Held(store, ts, Announced(fp, FrontierOf(store), cut).heads[ts].epoch)
  {
  }

  lemma StaysTruthful(fp: Digest, s: State, step: Step)
    requires Truthful(s) && Enabled(s, step)
    ensures Truthful(After(fp, s, step))
  {
    var t := After(fp, s, step);
    ReplicasGrow(fp, s, step);
    forall a, ts | a in t.announces && a.fullReplica && ts in a.sa.heads
      ensures Dominated(t, ts, a.sa.heads[ts].epoch)
    {
      if a in s.announces {
        DominatedStays(s, t, ts, a.sa.heads[ts].epoch);
      } else {
        AnnouncedHeld(fp, s.replicas[step.r], step.cut, ts);
      }
    }
  }

  /** A covered frontier covers every point under it. */
  lemma CoverageBacks(s: State, a: Announce, held: set<Point>, p: Point)
    requires Truthful(s) && a in s.announces && a.fullReplica
    requires AllCovered(a.sa.heads, FrontierOf(held)) && p in held
    ensures Dominated(s, p.ts, p.epoch)
  {
  }

  lemma StaysBacked(fp: Digest, s: State, step: Step)
    requires Truthful(s) && Checking(s) && Backed(s) && Enabled(s, step)
    ensures Backed(After(fp, s, step))
  {
    var t := After(fp, s, step);
    ReplicasGrow(fp, s, step);
    forall d, p | d in t.drains && (p in t.drains[d].covered || p in t.drains[d].verified)
      ensures Dominated(t, p.ts, p.epoch)
    {
      DrainSteps(fp, s, step, d);
      var drain := s.drains[d];
      if p in drain.covered || p in drain.verified {
        assert Dominated(s, p.ts, p.epoch);
      } else if step.HandleCoverage? {
        CoverageBacks(s, step.a, drain.scanned.value, p);
      } else {
        assert Accounted(s, drain, p);
      }
      DominatedStays(s, t, p.ts, p.epoch);
    }
  }

  lemma CollectedHeads(store: set<Point>, p: Point)
    requires p in store
    ensures exists h :: h in HeadEpochs(store) && h.0 == p.ts && h.1 >= p.epoch
  {
    var f := FrontierOf(store);
    var top := HeadPoint(p.ts, f[p.ts]);
    assert top in HeadPoints(store);
    assert (top.ts, top.epoch) in HeadEpochs(store);
  }

  /** One version of a check, across a step of its own drain. */
  lemma StaysAccounted(fp: Digest, s: State, step: Step, d: NodeId, p: Point)
    requires Checking(s) && Backed(s) && Enabled(s, step)
    requires d in s.drains && d in After(fp, s, step).drains && After(fp, s, step).drains[d].check.Asking?
    requires p in After(fp, s, step).drains[d].check.snapshot
    ensures Accounted(After(fp, s, step), After(fp, s, step).drains[d], p)
  {
    var t := After(fp, s, step);
    ReplicasGrow(fp, s, step);
    DrainSteps(fp, s, step, d);
    if Dominated(s, p.ts, p.epoch) {
      DominatedStays(s, t, p.ts, p.epoch);
    } else if !(step.BeginCheck? && step.d == d) {
      assert Accounted(s, s.drains[d], p);
      if step.CollectHeads? && step.d == d {
        CollectedHeads(s.drains[d].store, p);
      } else if step.VerifyPage? && step.d == d {
        var h :| h in s.drains[d].check.heads.value && h.0 == p.ts && h.1 >= p.epoch;
        assert h !in step.page;
        assert h in t.drains[d].check.heads.value;
      }
    }
  }

  lemma StaysChecking(fp: Digest, s: State, step: Step)
    requires Checking(s) && Backed(s) && Enabled(s, step)
    ensures Checking(After(fp, s, step))
  {
    var t := After(fp, s, step);
    assert t.drains.Keys == s.drains.Keys;
    forall d, p | d in t.drains && t.drains[d].check.Asking? && p in t.drains[d].check.snapshot
      ensures Accounted(t, t.drains[d], p)
    {
      StaysAccounted(fp, s, step, d, p);
    }
  }

  lemma StoreStays(fp: Digest, s: State, step: Step, d: NodeId, ts: nat, epoch: nat)
    requires Backed(s) && Enabled(s, step)
    requires d in s.drains && Held(s.drains[d].store, ts, epoch)
    ensures Kept(After(fp, s, step), ts, epoch)
  {
    var t := After(fp, s, step);
    ReplicasGrow(fp, s, step);
    var q :| q in s.drains[d].store && q.ts == ts && q.epoch >= epoch;
    DrainSteps(fp, s, step, d);
    if q in t.drains[d].store {
      assert Held(t.drains[d].store, ts, epoch);
    } else if step.Promote? {
      assert Held(t.replicas[d], ts, epoch);
    } else {
      assert step.Release? && q in Releasable(s.drains[d]);
      var r :| r in s.replicas && Held(s.replicas[r], q.ts, q.epoch);
      HeldGrows(s.replicas[r], t.replicas[r], q.ts, q.epoch);
    }
  }

  lemma StaysKept(fp: Digest, s: State, step: Step)
    requires Backed(s) && NothingLost(s) && Enabled(s, step)
    ensures NothingLost(After(fp, s, step))
  {
    var t := After(fp, s, step);
    ReplicasGrow(fp, s, step);
    forall p | p in t.committed ensures Kept(t, p.ts, p.epoch) {
      if p in s.committed {
        if Dominated(s, p.ts, p.epoch) {
          DominatedStays(s, t, p.ts, p.epoch);
        } else {
          var d :| d in s.drains && Held(s.drains[d].store, p.ts, p.epoch);
          StoreStays(fp, s, step, d, p.ts, p.epoch);
        }
      } else if step.CommitAtReplica? {
        assert Held(t.replicas[step.r], p.ts, p.epoch);
      } else {
        assert Held(t.drains[step.d].store, p.ts, p.epoch);
      }
    }
  }

  /** Every step keeps the invariant. */
  lemma StepKeeps(fp: Digest, s: State, step: Step)
    requires Inv(s) && Enabled(s, step)
    ensures Inv(After(fp, s, step))
  {
    StaysTruthful(fp, s, step);
    StaysBacked(fp, s, step);
    StaysChecking(fp, s, step);
    StaysKept(fp, s, step);
    StaysGenuine(fp, s, step);
  }

  lemma CommittedGrows(fp: Digest, s: State, step: Step)
    requires Enabled(s, step)
    ensures s.committed <= After(fp, s, step).committed
    ensures step.CommitAtDrain? ==> After(fp, s, step).committed == s.committed + {step.p}
  {
  }

  lemma StaysDrainGenuine(drain: Drain, step: Step, committed: set<Point>)
    requires DrainGenuine(drain, committed) && (step.CommitAtDrain? ==> step.p in committed)
    ensures DrainGenuine(DrainAfter(drain, step), committed)
  {
  }

  lemma StaysGenuine(fp: Digest, s: State, step: Step)
    requires Genuine(s) && Enabled(s, step)
    ensures Genuine(After(fp, s, step))
  {
    var t := After(fp, s, step);
    CommittedGrows(fp, s, step);
    forall d | d in t.drains ensures DrainGenuine(t.drains[d], t.committed) {
      DrainSteps(fp, s, step, d);
      assert DrainGenuine(s.drains[d], t.committed);
      if Moves(step, d) {
        StaysDrainGenuine(s.drains[d], step, t.committed);
      }
    }
  }

  /** Nothing announced, served or checked yet, and every committed version held by someone. */
  ghost predicate Init(s: State) {
    && s.announces == {} && s.served == {} && NothingLost(s) && Genuine(s)
    && forall d :: d in s.drains ==> s.drains[d] == Drain(s.drains[d].store, None, Idle, {}, {}, false)
  }

  /** Any division of points among replicas and drains is a start, with exactly those points committed. */
  lemma AnyDivisionStarts(replicas: map<NodeId, set<Point>>, stores: map<NodeId, set<Point>>, committed: set<Point>)
    requires forall r :: r in replicas ==> replicas[r] <= committed
    requires forall d :: d in stores ==> stores[d] <= committed
    requires forall p :: p in committed ==> (exists r :: r in replicas && p in replicas[r])
                                            || exists d :: d in stores && p in stores[d]
    ensures Init(State(replicas, map d | d in stores :: Drain(stores[d], None, Idle, {}, {}, false), committed, {}, {}))
  {
    var s := State(replicas, map d | d in stores :: Drain(stores[d], None, Idle, {}, {}, false), committed, {}, {});
    forall p | p in committed ensures Kept(s, p.ts, p.epoch) {
      if r :| r in replicas && p in replicas[r] {
        assert Held(s.replicas[r], p.ts, p.epoch);
      } else {
        var d :| d in stores && p in stores[d];
        assert Held(s.drains[d].store, p.ts, p.epoch);
      }
    }
  }

  ghost predicate Takes(fp: Digest, s: State, step: Step, t: State) {
    Enabled(s, step) && t == After(fp, s, step)
  }

  ghost predicate IsRun(fp: Digest, states: seq<State>, steps: seq<Step>) {
    && |states| == |steps| + 1 && Init(states[0])
    && forall i {:trigger steps[i]} :: 0 <= i < |steps| ==> Takes(fp, states[i], steps[i], states[i + 1])
  }

  lemma {:induction false} RunKeeps(fp: Digest, states: seq<State>, steps: seq<Step>, n: nat)
    requires IsRun(fp, states, steps) && n <= |steps|
    ensures Inv(states[n])
  {
    if n > 0 {
      RunKeeps(fp, states, steps, n - 1);
      StepKeeps(fp, states[n - 1], steps[n - 1]);
    }
  }

  /** Replica holdings only grow along a run, and so does the set of committed points. */
  lemma {:induction false} RunGrows(fp: Digest, states: seq<State>, steps: seq<Step>, m: nat, n: nat)
    requires IsRun(fp, states, steps) && m <= n <= |steps|
    ensures Grows(states[m], states[n]) && states[m].committed <= states[n].committed
    decreases n
  {
    if m < n {
      RunGrows(fp, states, steps, m, n - 1);
      StepGrows(fp, states[n - 1], steps[n - 1], states[n]);
      GrowsThrough(states[m], states[n - 1], states[n]);
    }
  }

  lemma GrowsThrough(s: State, t: State, u: State)
    requires Grows(s, t) && Grows(t, u)
    ensures Grows(s, u)
  {
  }

  lemma StepGrows(fp: Digest, s: State, step: Step, t: State)
    requires Takes(fp, s, step, t)
    ensures Grows(s, t) && s.committed <= t.committed
  {
    ReplicasGrow(fp, s, step);
    CommittedGrows(fp, s, step);
  }

  /** Offload safety: in every run, a version committed at some epoch is held by someone at that
      epoch or a newer one ever after. */
  lemma NoCommitIsLost(fp: Digest, states: seq<State>, steps: seq<Step>, m: nat, n: nat, p: Point)
    requires IsRun(fp, states, steps) && m <= n <= |steps|
    requires p in states[m].committed
    ensures Kept(states[n], p.ts, p.epoch)
  {
    RunKeeps(fp, states, steps, n);
    RunGrows(fp, states, steps, m, n);
  }

  /** When a drain releases, some full replica holds every released version at its epoch or a newer
      one, then and for the rest of the run. */
  lemma ReleaseIsSafe(fp: Digest, states: seq<State>, steps: seq<Step>, m: nat, n: nat, p: Point)
    requires IsRun(fp, states, steps) && m < n <= |steps|
    requires steps[m].Release? && p in steps[m].points
    ensures Dominated(states[n], p.ts, p.epoch)
  {
    RunKeeps(fp, states, steps, m);
    RunGrows(fp, states, steps, m, n);
    DominatedStays(states[m], states[n], p.ts, p.epoch);
  }

  /** Drain `d` pinned its holdings down again after step `k`, for an announce to be checked against. */
  ghost predicate ScannedSince(steps: seq<Step>, d: NodeId, k: nat, n: nat) {
    exists i :: k < i < n <= |steps| && steps[i] == Scan(d)
  }

  /** The same, for a check of its own. */
  ghost predicate AskedSince(steps: seq<Step>, d: NodeId, k: nat, n: nat) {
    exists i :: k < i < n <= |steps| && steps[i].BeginCheck? && steps[i].d == d
  }

  /** Position `j` confirms what drain `d` had pinned down after step `k`. */
  ghost predicate Confirms(steps: seq<Step>, d: NodeId, k: nat, j: nat) {
    && k < j < |steps|
    && ((steps[j].HandleCoverage? && steps[j].d == d && ScannedSince(steps, d, k, j))
        || (steps[j] == Confirm(d) && AskedSince(steps, d, k, j)))
  }

  ghost predicate ConfirmedSince(steps: seq<Step>, d: NodeId, k: nat, n: nat) {
    exists j: nat :: j < n && Confirms(steps, d, k, j)
  }

  /** The drain's points went over to the replica it became. */
  ghost predicate PromotedSince(steps: seq<Step>, d: NodeId, k: nat, n: nat) {
    exists i :: k < i < n <= |steps| && steps[i] == Promote(d)
  }

  /** Wherever a drain remembers `p`, it pinned its holdings down after `p` was written; and it holds `p`
      still unless it had it confirmed since, or became a replica. */
  ghost predicate Dated(steps: seq<Step>, d: NodeId, k: nat, n: nat, drain: Drain, p: Point) {
    && (drain.scanned.Some? && p in drain.scanned.value ==> ScannedSince(steps, d, k, n))
    && (drain.check.Asking? && p in drain.check.snapshot ==> AskedSince(steps, d, k, n))
    && (p in drain.covered || p in drain.verified ==> ConfirmedSince(steps, d, k, n))
    && (p !in drain.store ==> ConfirmedSince(steps, d, k, n) || PromotedSince(steps, d, k, n))
  }

  lemma SinceGrows(steps: seq<Step>, d: NodeId, k: nat, n: nat)
    requires n < |steps|
    ensures ScannedSince(steps, d, k, n) ==> ScannedSince(steps, d, k, n + 1)
    ensures AskedSince(steps, d, k, n) ==> AskedSince(steps, d, k, n + 1)
    ensures ConfirmedSince(steps, d, k, n) ==> ConfirmedSince(steps, d, k, n + 1)
    ensures PromotedSince(steps, d, k, n) ==> PromotedSince(steps, d, k, n + 1)
  {
  }

  /** Steps by which a drain pins its holdings down, has them confirmed, or gives them up. */
  predicate Marks(step: Step) {
    step.Scan? || step.BeginCheck? || step.HandleCoverage? || step.Confirm? || step.Promote?
  }

  lemma DatedQuiet(steps: seq<Step>, d: NodeId, k: nat, n: nat, drain: Drain, p: Point)
    requires k < n < |steps| && Dated(steps, d, k, n, drain, p) && Moves(steps[n], d) && !Marks(steps[n])
    requires steps[n].Release? ==> steps[n].points <= Releasable(drain)
    ensures Dated(steps, d, k, n + 1, DrainAfter(drain, steps[n]), p)
  {
    SinceGrows(steps, d, k, n);
  }

  lemma DatedMark(steps: seq<Step>, d: NodeId, k: nat, n: nat, drain: Drain, p: Point)
    requires k < n < |steps| && Dated(steps, d, k, n, drain, p) && Moves(steps[n], d) && Marks(steps[n])
    requires steps[n].HandleCoverage? ==> drain.scanned.Some?
    requires steps[n].Confirm? ==> drain.check.Asking?
    ensures Dated(steps, d, k, n + 1, DrainAfter(drain, steps[n]), p)
  {
    SinceGrows(steps, d, k, n);
    match steps[n] {
      case Scan(_) => assert ScannedSince(steps, d, k, n + 1);
      case BeginCheck(_, _) => assert AskedSince(steps, d, k, n + 1);
      case HandleCoverage(_, _) => assert p in drain.scanned.value ==> Confirms(steps, d, k, n);
      case Confirm(_) => assert p in drain.check.snapshot ==> Confirms(steps, d, k, n);
      case Promote(_) => assert PromotedSince(steps, d, k, n + 1);
    }
  }

  lemma DatedStep(fp: Digest, s: State, steps: seq<Step>, d: NodeId, k: nat, n: nat, p: Point)
    requires k < n < |steps| && Enabled(s, steps[n]) && d in s.drains && Dated(steps, d, k, n, s.drains[d], p)
    ensures d in After(fp, s, steps[n]).drains && Dated(steps, d, k, n + 1, After(fp, s, steps[n]).drains[d], p)
  {
    DrainSteps(fp, s, steps[n], d);
    if !Moves(steps[n], d) {
      SinceGrows(steps, d, k, n);
    } else if Marks(steps[n]) {
      DatedMark(steps, d, k, n, s.drains[d], p);
    } else {
      DatedQuiet(steps, d, k, n, s.drains[d], p);
    }
  }

  lemma {:induction false} DatedRun(fp: Digest, states: seq<State>, steps: seq<Step>, k: nat, n: nat, d: NodeId,
                                    p: Point)
    requires IsRun(fp, states, steps) && k < n <= |steps|
    requires steps[k] == CommitAtDrain(d, p) && p !in states[k].committed
    ensures d in states[n].drains && Dated(steps, d, k, n, states[n].drains[d], p)
    decreases n
  {
    if n == k + 1 {
      RunKeeps(fp, states, steps, k);
      assert DrainGenuine(states[k].drains[d], states[k].committed);
    } else {
      DatedRun(fp, states, steps, k, n - 1, d, p);
      DatedStep(fp, states[n - 1], steps, d, k, n - 1, p);
    }
  }

  /** Writes landing after the checked holdings are not released: in every run, a drain that releases a
      point pinned its holdings down after the point was written, and had coverage confirmed behind that,
      by an announce or by a check of its own, before the release. */
  lemma ReleasedWasRechecked(fp: Digest, states: seq<State>, steps: seq<Step>, k: nat, m: nat, d: NodeId, p: Point)
    requires IsRun(fp, states, steps) && k < m < |steps|
    requires steps[k] == CommitAtDrain(d, p) && p !in states[k].committed
    requires steps[m].Release? && steps[m].d == d && p in steps[m].points
    ensures exists i, j :: k < i < j < m
              && ((steps[i] == Scan(d) && steps[j].HandleCoverage? && steps[j].d == d)
                  || (steps[i].BeginCheck? && steps[i].d == d && steps[j] == Confirm(d)))
  {
    DatedRun(fp, states, steps, k, m, d, p);
    assert Enabled(states[m], steps[m]);
    var j: nat :| j < m && Confirms(steps, d, k, j);
    if steps[j] == Confirm(d) {
      var i :| k < i < j && steps[i].BeginCheck? && steps[i].d == d;
    } else {
      var i :| k < i < j && steps[i] == Scan(d);
    }
  }

  /** Until then, or until the drain becomes a replica, the write stays where it landed, whatever else is
      confirmed and released. */
  lemma LateWriteStays(fp: Digest, states: seq<State>, steps: seq<Step>, k: nat, n: nat, d: NodeId, p: Point)
    requires IsRun(fp, states, steps) && k < n <= |steps|
    requires steps[k] == CommitAtDrain(d, p) && p !in states[k].committed
    ensures d in states[n].drains
    ensures p in states[n].drains[d].store || ConfirmedSince(steps, d, k, n) || PromotedSince(steps, d, k, n)
  {
    DatedRun(fp, states, steps, k, n, d, p);
  }

  /** Between `j` and `n` drain `d` neither has another check of its own confirmed, nor starts over, nor becomes
      a replica. */
  ghost predicate KeepsRecord(steps: seq<Step>, d: NodeId, j: nat, n: nat) {
    forall i :: j < i < n <= |steps| ==> steps[i] != Confirm(d) && steps[i] != Restart(d) && steps[i] != Promote(d)
  }

  lemma {:induction false} CheckStays(fp: Digest, states: seq<State>, steps: seq<Step>, j: nat, n: nat, d: NodeId)
    requires IsRun(fp, states, steps) && j < n <= |steps| && steps[j] == Confirm(d) && KeepsRecord(steps, d, j, n)
    ensures d in states[j].drains && states[j].drains[d].check.Asking? && d in states[n].drains
    ensures states[n].drains[d].verified == HeadPoints(states[j].drains[d].check.snapshot)
    decreases n
  {
    if n == j + 1 {
      DrainSteps(fp, states[j], steps[j], d);
    } else {
      CheckStays(fp, states, steps, j, n - 1, d);
      DrainSteps(fp, states[n - 1], steps[n - 1], d);
    }
  }

  lemma HeadsExist(store: set<Point>)
    requires store != {}
    ensures HeadPoints(store) != {}
  {
    var p :| p in store;
    var top := HeadPoint(p.ts, FrontierOf(store)[p.ts]);
    assert top in HeadPoints(store);
  }

  /** A drain's own check has the last word: once it has confirmed anything, only what it confirmed is
      released, and no announce adds to it. */
  lemma OwnCheckDecides(fp: Digest, states: seq<State>, steps: seq<Step>, j: nat, m: nat, d: NodeId, p: Point)
    requires IsRun(fp, states, steps) && j < m < |steps| && steps[j] == Confirm(d) && KeepsRecord(steps, d, j, m)
    requires states[j].drains[d].check.snapshot != {}
    requires steps[m].Release? && steps[m].d == d && p in steps[m].points
    ensures p in HeadPoints(states[j].drains[d].check.snapshot)
  {
    CheckStays(fp, states, steps, j, m, d);
    HeadsExist(states[j].drains[d].check.snapshot);
    assert Enabled(states[m], steps[m]);
  }

  /** A replica that pulls what a drain has past its own frontier covers the drain. */
  lemma PullCovers(mine: set<Point>, theirs: set<Point>)
    ensures AllCovered(FrontierOf(mine + Serve(theirs, None, Epochs(FrontierOf(mine)))), FrontierOf(theirs))
  {
    var got := Serve(theirs, None, Epochs(FrontierOf(mine)));
    var f, g, h := FrontierOf(mine), FrontierOf(theirs), FrontierOf(mine + got);
    forall ts | ts in g ensures Covers(h, ts, g[ts].epoch) {
      var top := HeadPoint(ts, g[ts]);
      assert top in theirs;
      if top in got {
        assert top in mine + got;
      } else {
        assert HeadPoint(ts, f[ts]) in mine + got;
      }
    }
  }

  /** These steps lead from one state to the other. */
  ghost predicate Leads(fp: Digest, s: State, steps: seq<Step>, t: State)
    decreases |steps|
  {
    if steps == [] then s == t else Enabled(s, steps[0]) && Leads(fp, After(fp, s, steps[0]), steps[1..], t)
  }

  lemma LeadsOn(fp: Digest, s: State, step: Step, steps: seq<Step>, t: State)
    requires Enabled(s, step) && Leads(fp, After(fp, s, step), steps, t)
    ensures Leads(fp, s, [step] + steps, t)
  {
    assert ([step] + steps)[1..] == steps;
  }

  /** The drain is rid of every head it held, and this replica holds each of its versions. */
  ghost predicate HandedOn(s: State, t: State, d: NodeId, r: NodeId)
    requires d in s.drains
  {
    && d in t.drains && r in t.replicas
    && t.drains[d].store == s.drains[d].store - HeadPoints(s.drains[d].store)
    && forall p :: p in s.drains[d].store ==> Held(t.replicas[r], p.ts, p.epoch)
  }

  /** The replica pulls from the drain. */
  ghost function PullSteps(s: State, d: NodeId, r: NodeId): seq<Step>
    requires d in s.drains && r in s.replicas
  {
    var floors := Epochs(FrontierOf(s.replicas[r]));
    [ServeDrain(d, None, floors), Apply(r, Serve(s.drains[d].store, None, floors))]
  }

  ghost function Pulled(s: State, d: NodeId, r: NodeId): State
    requires d in s.drains && r in s.replicas
  {
    var got := Serve(s.drains[d].store, None, Epochs(FrontierOf(s.replicas[r])));
    s.(served := s.served + got, replicas := s.replicas[r := s.replicas[r] + got])
  }

  lemma PullLeads(fp: Digest, s: State, d: NodeId, r: NodeId)
    requires d in s.drains && r in s.replicas
    ensures Leads(fp, s, PullSteps(s, d, r), Pulled(s, d, r))
    ensures AllCovered(FrontierOf(Pulled(s, d, r).replicas[r]), FrontierOf(s.drains[d].store))
  {
    var steps := PullSteps(s, d, r);
    var t := After(fp, s, steps[0]);
    assert After(fp, t, steps[1]) == Pulled(s, d, r);
    LeadsOn(fp, t, steps[1], [], Pulled(s, d, r));
    LeadsOn(fp, s, steps[0], [steps[1]], Pulled(s, d, r));
    assert [steps[0]] + ([steps[1]] + []) == steps;
    PullCovers(s.replicas[r], s.drains[d].store);
  }

  /** This replica's frontier covers the drain's. */
  ghost predicate CoversDrain(s: State, d: NodeId, r: NodeId) {
    d in s.drains && r in s.replicas && AllCovered(FrontierOf(s.replicas[r]), FrontierOf(s.drains[d].store))
  }

  lemma CoveredIsHeld(mine: set<Point>, theirs: set<Point>, p: Point)
    requires AllCovered(FrontierOf(mine), FrontierOf(theirs)) && p in theirs
    ensures Held(mine, p.ts, p.epoch)
  {
    var f := FrontierOf(mine);
    assert HeadPoint(p.ts, f[p.ts]) in mine;
  }

  /** The drain lets go of its heads: the last step of both ways to retire. */
  lemma ReleaseLeads(fp: Digest, s: State, d: NodeId, r: NodeId)
    requires CoversDrain(s, d, r) && Enabled(s, Release(d, HeadPoints(s.drains[d].store)))
    ensures var last := Release(d, HeadPoints(s.drains[d].store));
            Leads(fp, s, [last], After(fp, s, last)) && HandedOn(s, After(fp, s, last), d, r)
  {
    var last := Release(d, HeadPoints(s.drains[d].store));
    LeadsOn(fp, s, last, [], After(fp, s, last));
    assert [last] + [] == [last];
    forall p | p in s.drains[d].store ensures Held(s.replicas[r], p.ts, p.epoch) {
      CoveredIsHeld(s.replicas[r], s.drains[d].store, p);
    }
  }

  /** The replica announces in full, and the drain, having scanned, finds itself covered. */
  lemma AnnounceLeads(fp: Digest, s: State, d: NodeId, r: NodeId) returns (steps: seq<Step>, t: State)
    requires CoversDrain(s, d, r) && s.drains[d].verified == {}
    ensures Leads(fp, s, steps, t) && HandedOn(s, t, d, r)
  {
    var a := Announce(r, Announced(fp, FrontierOf(s.replicas[r]), None), true);
    var s1 := After(fp, s, AnnounceReplica(r, None));
    var s2 := After(fp, s1, Scan(d));
    var s3 := After(fp, s2, HandleCoverage(d, a));
    ReleaseLeads(fp, s3, d, r);
    var last := Release(d, HeadPoints(s3.drains[d].store));
    t := After(fp, s3, last);
    LeadsOn(fp, s2, HandleCoverage(d, a), [last], t);
    LeadsOn(fp, s1, Scan(d), [HandleCoverage(d, a)] + [last], t);
    steps := [AnnounceReplica(r, None)] + ([Scan(d)] + ([HandleCoverage(d, a)] + [last]));
    LeadsOn(fp, s, AnnounceReplica(r, None), [Scan(d)] + ([HandleCoverage(d, a)] + [last]), t);
  }

  lemma HeadsHeld(mine: set<Point>, theirs: set<Point>)
    requires AllCovered(FrontierOf(mine), FrontierOf(theirs))
    ensures forall h :: h in HeadEpochs(theirs) ==> Held(mine, h.0, h.1)
  {
    forall h | h in HeadEpochs(theirs) ensures Held(mine, h.0, h.1) {
      var p :| p in HeadPoints(theirs) && h == (p.ts, p.epoch);
      CoveredIsHeld(mine, theirs, p);
    }
  }

  /** The drain asks the replica itself, and is told yes for every head. */
  lemma AskLeads(fp: Digest, s: State, d: NodeId, r: NodeId) returns (steps: seq<Step>, t: State)
    requires CoversDrain(s, d, r)
    ensures Leads(fp, s, steps, t) && t.replicas == s.replicas && d in t.drains
    ensures t.drains[d] == s.drains[d].(check := Asking(r, s.drains[d].store, Some({})))
  {
    var page := HeadEpochs(s.drains[d].store);
    HeadsHeld(s.replicas[r], s.drains[d].store);
    var s1 := After(fp, s, BeginCheck(d, r));
    var s2 := After(fp, s1, CollectHeads(d));
    t := After(fp, s2, VerifyPage(d, page));
    assert page - page == {};
    LeadsOn(fp, s2, VerifyPage(d, page), [], t);
    LeadsOn(fp, s1, CollectHeads(d), [VerifyPage(d, page)] + [], t);
    steps := [BeginCheck(d, r)] + ([CollectHeads(d)] + ([VerifyPage(d, page)] + []));
    LeadsOn(fp, s, BeginCheck(d, r), [CollectHeads(d)] + ([VerifyPage(d, page)] + []), t);
  }

  lemma ConfirmLeads(fp: Digest, s: State, d: NodeId, r: NodeId) returns (steps: seq<Step>, t: State)
    requires CoversDrain(s, d, r) && s.drains[d].check == Asking(r, s.drains[d].store, Some({}))
    ensures Leads(fp, s, steps, t) && HandedOn(s, t, d, r)
  {
    var s1 := After(fp, s, Confirm(d));
    ReleaseLeads(fp, s1, d, r);
    var last := Release(d, HeadPoints(s1.drains[d].store));
    t := After(fp, s1, last);
    steps := [Confirm(d)] + [last];
    LeadsOn(fp, s, Confirm(d), [last], t);
  }

  lemma CheckLeads(fp: Digest, s: State, d: NodeId, r: NodeId) returns (steps: seq<Step>, t: State)
    requires CoversDrain(s, d, r)
    ensures Leads(fp, s, steps, t) && HandedOn(s, t, d, r)
  {
    var first, u := AskLeads(fp, s, d, r);
    var rest;
    rest, t := ConfirmLeads(fp, u, d, r);
    LeadsThrough(fp, s, first, u, rest, t);
    steps := first + rest;
  }

  lemma {:induction false} LeadsThrough(fp: Digest, s: State, first: seq<Step>, t: State, rest: seq<Step>, u: State)
    requires Leads(fp, s, first, t) && Leads(fp, t, rest, u)
    ensures Leads(fp, s, first + rest, u)
    decreases |first|
  {
    if first == [] {
      assert first + rest == rest;
    } else {
      LeadsThrough(fp, After(fp, s, first[0]), first[1..], t, rest, u);
      assert (first + rest)[1..] == first[1..] + rest;
    }
  }

  /** Retiring is always within reach: from any state, steps of one drain and one replica hand everything the
      drain holds on to the replica and rid the drain of its heads, by a check of its own, or by an announce
      where no check of its own stands. */
  lemma DrainCanRetire(fp: Digest, s: State, d: NodeId, r: NodeId, byCheck: bool) returns (steps: seq<Step>, t: State)
    requires d in s.drains && r in s.replicas && (byCheck || s.drains[d].verified == {})
    ensures Leads(fp, s, steps, t) && HandedOn(s, t, d, r)
  {
    PullLeads(fp, s, d, r);
    var rest;
    if byCheck {
      rest, t := CheckLeads(fp, Pulled(s, d, r), d, r);
    } else {
      rest, t := AnnounceLeads(fp, Pulled(s, d, r), d, r);
    }
    LeadsThrough(fp, s, PullSteps(s, d, r), Pulled(s, d, r), rest, t);
    steps := PullSteps(s, d, r) + rest;
  }

  /** One replica can always catch up with another: a serve and its application lead to where it covers it. */
  lemma ReplicaCanCatchUp(fp: Digest, s: State, q: NodeId, r: NodeId) returns (steps: seq<Step>, t: State)
    requires q in s.replicas && r in s.replicas
    ensures Leads(fp, s, steps, t) && t.drains == s.drains && t.replicas.Keys == s.replicas.Keys
    ensures AllCovered(FrontierOf(t.replicas[r]), FrontierOf(s.replicas[q]))
  {
    var floors := Epochs(FrontierOf(s.replicas[r]));
    var first, last := ServeReplica(q, None, floors), Apply(r, Serve(s.replicas[q], None, floors));
    var u := After(fp, s, first);
    t := After(fp, u, last);
    LeadsOn(fp, u, last, [], t);
    LeadsOn(fp, s, first, [last] + [], t);
    steps := [first] + ([last] + []);
    PullCovers(s.replicas[r], s.replicas[q]);
  }
}
