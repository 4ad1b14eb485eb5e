/** What one catch-up exchange achieves: exact requests, and frontiers that meet at their join
    (swarm/db/src/replication.rs). */
module Convergence {
  import opened Basics
  import opened SyncPoints
  import opened Fingerprint
  import opened Catchup

  /** The collision-freedom the protocol relies on: these two frontiers, folded at `cut`, agree only
      if the heads they leave out are the same. */
  ghost predicate FoldsFaithful(fp: Digest, ours: Frontier, theirs: Frontier, cut: Option<nat>) {
    cut.Some? && Fold(fp, Elided(ours, cut.value)) == Fold(fp, Elided(theirs, cut.value))
    ==> Elided(ours, cut.value) == Elided(theirs, cut.value)
  }

  /** Cursor and floors together skip an explicit head exactly when it is covered. */
  lemma SkipExact(ours: Frontier, b: Option<nat>, heads: Frontier, since: Option<nat>, floors: map<nat, nat>, ts: nat)
    requires IsCursor(ours, b, heads, since) && floors == FloorsOf(ours, b, heads)
    requires ts in heads
    requires !Above(b, ts) ==> b.value < heads[ts].epoch
    ensures Skips(since, floors, ts, heads[ts].epoch) <==> Covers(ours, ts, heads[ts].epoch)
  {
    if Floored(ours, b, heads, ts) {
      assert floors[ts] == if ts in ours then ours[ts].epoch else 0;
    } else {
      assert ts !in floors;
      assert since.Some? && since != b ==> Above(b, since.value);
    }
  }

  /** A version left out of the announce is skipped whole. */
  lemma SkipElided(ours: Frontier, b: Option<nat>, heads: Frontier, since: Option<nat>, floors: map<nat, nat>, ts: nat,
                   epoch: nat)
    requires IsCursor(ours, b, heads, since) && floors == FloorsOf(ours, b, heads)
    requires b.Some? && ts <= b.value && ts !in heads
    ensures Skips(since, floors, ts, epoch)
  {
  }

  /** A covered version is skipped at every epoch the holder has of it. */
  lemma SkipWhole(ours: Frontier, b: Option<nat>, heads: Frontier, since: Option<nat>, floors: map<nat, nat>, ts: nat,
                  epoch: nat)
    requires IsCursor(ours, b, heads, since) && floors == FloorsOf(ours, b, heads)
    requires ts in heads && Covers(ours, ts, heads[ts].epoch) && epoch <= heads[ts].epoch
    requires !Above(b, ts) ==> b.value < heads[ts].epoch
    ensures Skips(since, floors, ts, epoch)
  {
    SkipExact(ours, b, heads, since, floors, ts);
  }

  /** Request exactness: against any announce, full or cut, a plan that is not Diverged asks for
      exactly the heads the receiver lacks or holds at a lower epoch, and there is a plan to do
      nothing exactly when there is nothing to ask for. */
  lemma RequestExactness(fp: Digest, ours: Frontier, theirs: Frontier, cut: Option<nat>, plan: Plan)
    requires Planned(fp, ours, Announced(fp, theirs, cut), plan)
    requires FoldsFaithful(fp, ours, theirs, cut)
    ensures plan.Diverged? <==> cut.Some? && Elided(ours, cut.value) != Elided(theirs, cut.value)
    ensures !plan.Diverged? ==> (plan.CaughtUp? <==> AllCovered(ours, theirs))
    ensures plan.Behind? ==> forall ts :: ts in theirs ==>
              (Skips(plan.sinceTs, plan.floors, ts, theirs[ts].epoch) <==> Covers(ours, ts, theirs[ts].epoch))
  {
    if !plan.Diverged? {
      forall ts | ts in theirs
        ensures ts !in Announced(fp, theirs, cut).heads ==> Covers(ours, ts, theirs[ts].epoch)
        ensures plan.Behind? ==>
                  (Skips(plan.sinceTs, plan.floors, ts, theirs[ts].epoch) <==> Covers(ours, ts, theirs[ts].epoch))
      {
        HeadAsked(fp, ours, theirs, cut, plan, ts);
      }
      assert forall ts :: ts in Announced(fp, theirs, cut).heads ==>
             ts in theirs && Announced(fp, theirs, cut).heads[ts] == theirs[ts];
    }
  }

  lemma HeadAsked(fp: Digest, ours: Frontier, theirs: Frontier, cut: Option<nat>, plan: Plan, ts: nat)
    requires Planned(fp, ours, Announced(fp, theirs, cut), plan) && !plan.Diverged?
    requires FoldsFaithful(fp, ours, theirs, cut)
    requires ts in theirs
    ensures ts !in Announced(fp, theirs, cut).heads ==> Covers(ours, ts, theirs[ts].epoch)
    ensures plan.Behind? ==>
              (Skips(plan.sinceTs, plan.floors, ts, theirs[ts].epoch) <==> Covers(ours, ts, theirs[ts].epoch))
  {
    var sa := Announced(fp, theirs, cut);
    if ts in sa.heads {
      if plan.Behind? {
        SkipExact(ours, cut, sa.heads, plan.sinceTs, plan.floors, ts);
      }
    } else {
      assert ts in Elided(theirs, cut.value);
      assert ts in Elided(ours, cut.value);
      if plan.Behind? {
        SkipElided(ours, cut, sa.heads, plan.sinceTs, plan.floors, ts, theirs[ts].epoch);
      }
    }
  }

  /** No epoch of a version the receiver already covers is sent. */
  lemma NothingWasted(fp: Digest, ours: Frontier, theirs: Frontier, cut: Option<nat>, plan: Plan, p: Point)
    requires Planned(fp, ours, Announced(fp, theirs, cut), plan) && plan.Behind?
    requires FoldsFaithful(fp, ours, theirs, cut)
    requires p.ts in theirs && AtMost(p, theirs[p.ts]) && Covers(ours, p.ts, theirs[p.ts].epoch)
    ensures Skips(plan.sinceTs, plan.floors, p.ts, p.epoch)
  {
    var sa := Announced(fp, theirs, cut);
    if p.ts in sa.heads {
      SkipWhole(ours, cut, sa.heads, plan.sinceTs, plan.floors, p.ts, p.epoch);
    } else {
      SkipElided(ours, cut, sa.heads, plan.sinceTs, plan.floors, p.ts, p.epoch);
    }
  }

  /** The points a holder of `points` answers a plan with. */
  ghost function Answer(plan: Plan, points: set<Point>): set<Point> {
    if plan.Behind? then set p | p in points && !Skips(plan.sinceTs, plan.floors, p.ts, p.epoch) else {}
  }

  /** The frontier `ours` grown by exactly the heads of `theirs` it does not cover. */
  function Merge(ours: Frontier, theirs: Frontier): Frontier {
    map ts | ts in ours.Keys + theirs.Keys ::
      if ts in theirs && !Covers(ours, ts, theirs[ts].epoch) then theirs[ts] else ours[ts]
  }

  /** Applying the answer grows the receiver's frontier by exactly the missing heads. */
  lemma AnswerMerges(fp: Digest, ours: set<Point>, theirs: set<Point>, cut: Option<nat>, plan: Plan)
    requires Planned(fp, FrontierOf(ours), Announced(fp, FrontierOf(theirs), cut), plan) && !plan.Diverged?
    requires FoldsFaithful(fp, FrontierOf(ours), FrontierOf(theirs), cut)
    ensures FrontierOf(ours + Answer(plan, theirs)) == Merge(FrontierOf(ours), FrontierOf(theirs))
  {
    var f, g := FrontierOf(ours), FrontierOf(theirs);
    var m := Merge(f, g);
    var got := Answer(plan, theirs);
    RequestExactness(fp, f, g, cut, plan);
    forall ts | ts in m ensures HeadPoint(ts, m[ts]) in ours + got {
      if ts in g && !Covers(f, ts, g[ts].epoch) {
        assert HeadPoint(ts, g[ts]) in theirs;
      } else {
        assert HeadPoint(ts, f[ts]) in ours;
      }
    }
    forall p | p in ours + got ensures p.ts in m && AtMost(p, m[p.ts]) {
      if p in got && Covers(f, p.ts, g[p.ts].epoch) {
        NothingWasted(fp, f, g, cut, plan, p);
      }
    }
    FrontierUnique(FrontierOf(ours + got), m, ours + got);
  }

  /** A merge is the join of the version-to-epoch maps. */
  lemma MergeJoins(f: Frontier, g: Frontier)
    ensures Epochs(Merge(f, g)) == Join(Epochs(f), Epochs(g))
    ensures AllCovered(Merge(f, g), g) && AllCovered(Merge(f, g), f)
  {
  }

  /** With equal elided heads, a merge leaves the elided part of the receiver as it was. */
  lemma MergeKeepsElided(f: Frontier, g: Frontier, cut: nat)
    requires Elided(f, cut) == Elided(g, cut)
    ensures Elided(Merge(f, g), cut) == Elided(f, cut)
  {
    var m := Merge(f, g);
    forall ts | ts in m
      ensures Elides(cut, ts, m[ts]) <==> ts in f && Elides(cut, ts, f[ts])
      ensures Elides(cut, ts, m[ts]) ==> m[ts] == f[ts]
    {
      assert ts in f && Elides(cut, ts, f[ts]) ==> ts in Elided(f, cut);
      assert ts in g && Elides(cut, ts, g[ts]) ==> ts in Elided(g, cut);
      assert ts in Elided(f, cut) <==> ts in Elided(g, cut);
    }
  }

  /** One exchange is a join and settles the announce that drove it: afterwards the receiver's
      version-to-epoch map is the pointwise maximum of both, its elided heads are untouched, and
      planning against the same announce again finds it caught up. */
  lemma OneExchangeConverges(fp: Digest, ours: set<Point>, theirs: set<Point>, cut: Option<nat>, plan: Plan,
                             again: Plan)
    requires Planned(fp, FrontierOf(ours), Announced(fp, FrontierOf(theirs), cut), plan) && !plan.Diverged?
    requires FoldsFaithful(fp, FrontierOf(ours), FrontierOf(theirs), cut)
    requires Planned(fp, FrontierOf(ours + Answer(plan, theirs)), Announced(fp, FrontierOf(theirs), cut), again)
    ensures Epochs(FrontierOf(ours + Answer(plan, theirs)))
            == Join(Epochs(FrontierOf(ours)), Epochs(FrontierOf(theirs)))
    ensures cut.Some? ==>
            Elided(FrontierOf(ours + Answer(plan, theirs)), cut.value) == Elided(FrontierOf(ours), cut.value)
    ensures again == CaughtUp
  {
    var f, g := FrontierOf(ours), FrontierOf(theirs);
    AnswerMerges(fp, ours, theirs, cut, plan);
    MergeJoins(f, g);
    RequestExactness(fp, f, g, cut, plan);
    if cut.Some? {
      MergeKeepsElided(f, g, cut.value);
    }
    RequestExactness(fp, Merge(f, g), g, cut, again);
  }

  /** No version is held on both sides at one epoch written by two different nodes. */
  ghost predicate NoTies(f: Frontier, g: Frontier) {
    forall ts :: ts in f && ts in g && f[ts].epoch == g[ts].epoch ==> f[ts] == g[ts]
  }

  lemma MergeAlgebra(f: Frontier, g: Frontier)
    ensures Merge(g, Merge(f, g)) == Merge(g, f)
    ensures Epochs(Merge(f, g)) == Epochs(Merge(g, f))
    ensures Merge(f, g) == Merge(g, f) <==> NoTies(f, g)
  {
    var m, n := Merge(f, g), Merge(g, f);
    assert m.Keys == n.Keys;
    if NoTies(f, g) {
      forall ts | ts in m ensures m[ts] == n[ts] {
      }
    } else {
      var ts :| ts in f && ts in g && f[ts].epoch == g[ts].epoch && f[ts] != g[ts];
      assert m[ts] == f[ts] && n[ts] == g[ts];
    }
  }

  /** Two nodes that exchange full announces, one after the other, end with equal version-to-epoch
      maps. They end with equal frontiers exactly when no version ties: two writers of one version
      at one epoch each keep their own point, and neither ever asks for the other's. */
  lemma FullExchangeConverges(fp: Digest, a: set<Point>, b: set<Point>, planA: Plan, planB: Plan)
    requires Planned(fp, FrontierOf(a), Announced(fp, FrontierOf(b), None), planA)
    requires Planned(fp, FrontierOf(b), Announced(fp, FrontierOf(a + Answer(planA, b)), None), planB)
    ensures var a1, b1 := a + Answer(planA, b), b + Answer(planB, a + Answer(planA, b));
            && Epochs(FrontierOf(a1)) == Epochs(FrontierOf(b1)) == Join(Epochs(FrontierOf(a)), Epochs(FrontierOf(b)))
            && (FrontierOf(a1) == FrontierOf(b1) <==> NoTies(FrontierOf(a), FrontierOf(b)))
  {
    var f, g := FrontierOf(a), FrontierOf(b);
    AnswerMerges(fp, a, b, None, planA);
    AnswerMerges(fp, b, a + Answer(planA, b), None, planB);
    MergeAlgebra(f, g);
    MergeJoins(f, g);
  }

  /** It makes no difference that the announces cross on their way. */
  lemma CrossedExchangeConverges(fp: Digest, a: set<Point>, b: set<Point>, planA: Plan, planB: Plan)
    requires Planned(fp, FrontierOf(a), Announced(fp, FrontierOf(b), None), planA)
    requires Planned(fp, FrontierOf(b), Announced(fp, FrontierOf(a), None), planB)
    ensures var a1, b1 := a + Answer(planA, b), b + Answer(planB, a);
            && Epochs(FrontierOf(a1)) == Epochs(FrontierOf(b1)) == Join(Epochs(FrontierOf(a)), Epochs(FrontierOf(b)))
            && (FrontierOf(a1) == FrontierOf(b1) <==> NoTies(FrontierOf(a), FrontierOf(b)))
  {
    AnswerMerges(fp, a, b, None, planA);
    AnswerMerges(fp, b, a, None, planB);
    MergeAlgebra(FrontierOf(a), FrontierOf(b));
    MergeJoins(FrontierOf(a), FrontierOf(b));
  }

  /** The tie is real: each side is caught up with the other's full announce, yet their frontiers
      differ, and any baseline that covers the version makes every later cut announce diverge. */
  lemma TieStaysApart(fp: Digest, cut: nat)
    requires cut >= 7 && fp(7, Head(7, 1)) != fp(7, Head(7, 2))
    ensures var f, g := FrontierOf({Point(7, 7, 1)}), FrontierOf({Point(7, 7, 2)});
            && f != g
            && Planned(fp, f, Announced(fp, g, None), CaughtUp)
            && Planned(fp, g, Announced(fp, f, None), CaughtUp)
            && Planned(fp, f, Announced(fp, g, Some(cut)), Diverged)
  {
    var a, b := Point(7, 7, 1), Point(7, 7, 2);
    var f, g: Frontier := map[7 := Head(7, 1)], map[7 := Head(7, 2)];
    FrontierUnique(FrontierOf({a}), f, {a});
    FrontierUnique(FrontierOf({b}), g, {b});
    SingleFold(fp, f, cut, 7);
    SingleFold(fp, g, cut, 7);
  }

  lemma SingleFold(fp: Digest, f: Frontier, cut: nat, ts: nat)
    requires f.Keys == {ts} && Elides(cut, ts, f[ts])
    ensures Elided(f, cut) == f
    ensures Fold(fp, f) == fp(ts, f[ts])
  {
    var none: Frontier := map[];
    assert f == none[ts := f[ts]];
    FoldExtend(fp, none, ts, f[ts]);
    ZeroXor(fp(ts, f[ts]));
  }

  lemma ZeroXor(a: bv64)
    ensures Xor(0, a) == a
  {
  }
}
