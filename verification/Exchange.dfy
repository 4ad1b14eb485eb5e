/** Whole exchanges, from the rows of one node's table to what the other holds afterwards: the pieces of
    replication put together as the nodes put them together (swarm/db/src/replication.rs). */
module Exchange {
  import opened Basics
  import opened SyncPoints
  import opened Fingerprint
  import opened Catchup
  import opened Convergence
  import opened Pull
  import opened Handoff
  import Offload

  ghost function Held(keys: seq<Point>): set<Point> {
    set p | p in keys
  }

  /** The sync points of a table, in key order. */
  function KeysOf(rows: seq<Row>): seq<Point> {
    seq(|rows|, i requires 0 <= i < |rows| => rows[i].id)
  }

  lemma KeysAscend(rows: seq<Row>)
    requires Sorted(rows)
    ensures Ascending(KeysOf(rows)) && Held(KeysOf(rows)) == RowIds(rows)
  {
    SortedMeans(rows);
    var keys := KeysOf(rows);
    forall p ensures p in Held(keys) <==> p in RowIds(rows) {
      if p in RowIds(rows) {
        var r :| r in rows && r.id == p;
        var i :| 0 <= i < |rows| && rows[i] == r;
        assert keys[i] == p;
      }
    }
  }

  lemma HeldMore(keys: seq<Point>, p: Point)
    ensures Held(keys + [p]) == Held(keys) + {p}
  {
  }

  lemma IdsMore(chunks: seq<Chunk>, chunk: Chunk)
    ensures Ids(chunks + [chunk]) == Ids(chunks) + {chunk.id}
  {
    forall p ensures p in Ids(chunks + [chunk]) <==> p in Ids(chunks) + {chunk.id} {
      if p in Ids(chunks) {
        var c :| c in chunks && c.id == p;
        assert c in chunks + [chunk];
      }
      assert chunk in chunks + [chunk];
    }
  }

  /** Takes in the sync point of every chunk. */
  method Store(keys: seq<Point>, chunks: seq<Chunk>) returns (held: seq<Point>)
    ensures Held(held) == Held(keys) + Ids(chunks)
  {
    held := keys;
    for i := 0 to |chunks|
      invariant Held(held) == Held(keys) + Ids(chunks[..i])
    {
      IdsMore(chunks[..i], chunks[i]);
      assert chunks[..i + 1] == chunks[..i] + [chunks[i]];
      HeldMore(held, chunks[i].id);
      held := held + [chunks[i].id];
    }
    assert chunks[..|chunks|] == chunks;
  }

  lemma AnswerServed(plan: Plan, rows: seq<Row>)
    requires plan.Behind?
    ensures Ids(Served(Request(plan.sinceTs, plan.floors), rows, 0)) == Answer(plan, RowIds(rows))
  {
    ServedSet(Request(plan.sinceTs, plan.floors), rows);
  }

  /** One announce and what comes of it: the sender scans and announces, the receiver scans, plans, asks and
      takes in the answer. Unless the plan finds the elided parts different, the receiver ends with the
      pointwise maximum and would ask for nothing more. */
  method CatchUp(fp: Digest, rows: seq<Row>, keys: seq<Point>, lagCut: Option<nat>)
    returns (sa: ScopeAnnounce, plan: Plan, held: seq<Point>)
    requires Sorted(rows) && Ascending(keys)
    ensures Planned(fp, FrontierOf(Held(keys)), sa, plan) && (!plan.Behind? ==> held == keys)
    ensures CutFor(FrontierOf(RowIds(rows)), lagCut, sa.baseline)
    ensures FoldsFaithful(fp, FrontierOf(Held(keys)), FrontierOf(RowIds(rows)), sa.baseline) && !plan.Diverged? ==>
              && FrontierOf(Held(held)) == Merge(FrontierOf(Held(keys)), FrontierOf(RowIds(rows)))
              && Epochs(FrontierOf(Held(held)))
                == Join(Epochs(FrontierOf(Held(keys))), Epochs(FrontierOf(RowIds(rows))))
              && forall again :: Planned(fp, FrontierOf(Held(held)), sa, again) ==> again == CaughtUp
  {
    KeysAscend(rows);
    var theirs := ScanFrontier(KeysOf(rows));
    FrontierUnique(theirs, FrontierOf(RowIds(rows)), RowIds(rows));
    sa := BuildAnnounce(fp, theirs, lagCut);
    var ours := ScanFrontier(keys);
    FrontierUnique(ours, FrontierOf(Held(keys)), Held(keys));
    plan := PlanCatchup(fp, Some(ours), sa);
    held := keys;
    if plan.Behind? {
      var chunks := HandleChangeSetReq(true, rows, Request(plan.sinceTs, plan.floors));
      AnswerServed(plan, rows);
      held := Store(keys, chunks);
    }
    Caught(fp, Held(keys), RowIds(rows), sa.baseline, plan, Held(held));
  }

  lemma Caught(fp: Digest, ours: set<Point>, theirs: set<Point>, cut: Option<nat>, plan: Plan, held: set<Point>)
    requires Planned(fp, FrontierOf(ours), Announced(fp, FrontierOf(theirs), cut), plan)
    requires held == ours + Answer(plan, theirs)
    ensures FoldsFaithful(fp, FrontierOf(ours), FrontierOf(theirs), cut) && !plan.Diverged? ==>
              && FrontierOf(held) == Merge(FrontierOf(ours), FrontierOf(theirs))
              && Epochs(FrontierOf(held)) == Join(Epochs(FrontierOf(ours)), Epochs(FrontierOf(theirs)))
              && forall again :: Planned(fp, FrontierOf(held), Announced(fp, FrontierOf(theirs), cut), again) ==>
                again == CaughtUp
  {
    if FoldsFaithful(fp, FrontierOf(ours), FrontierOf(theirs), cut) && !plan.Diverged? {
      AnswerMerges(fp, ours, theirs, cut, plan);
      MergeJoins(FrontierOf(ours), FrontierOf(theirs));
      forall again | Planned(fp, FrontierOf(held), Announced(fp, FrontierOf(theirs), cut), again)
        ensures again == CaughtUp
      {
        OneExchangeConverges(fp, ours, theirs, cut, plan, again);
      }
    }
  }

  lemma HandoffServed(ours: set<Point>, rows: seq<Row>, held: set<Point>)
    requires held == ours + Ids(Served(HandoffRequest(FrontierOf(ours)), rows, 0))
    ensures AllCovered(FrontierOf(held), FrontierOf(RowIds(rows)))
    ensures Served(HandoffRequest(FrontierOf(held)), rows, 0) == []
  {
    ServedSet(HandoffRequest(FrontierOf(ours)), rows);
    ServedSet(HandoffRequest(FrontierOf(held)), rows);
    HandoffComplete(ours, RowIds(rows));
    var again := Served(HandoffRequest(FrontierOf(held)), rows, 0);
    assert again == [] || again[0].id in Ids(again);
  }

  /** A whole handoff: the replica scans, pulls from the drain with its frontier as floors and takes the pages
      in; then the drain asks it for confirmation. A pull that ran to its end leaves nothing to ask for, and
      the drain is told yes as soon as it can ask. */
  method HandOver(rows: seq<Row>, keys: seq<Point>, budget: nat, fate: nat -> Fate, lagCut: nat, reach: nat -> bool)
    returns (held: seq<Point>, chunks: seq<Chunk>, pages: nat, answer: Option<bool>, asked: nat)
    requires Sorted(rows) && Ascending(keys)
    ensures AllApplied(fate, pages) && Held(held) == Held(keys) + Ids(chunks) && Ids(chunks) <= RowIds(rows)
    ensures !Complete(Served(HandoffRequest(FrontierOf(Held(keys))), rows, 0), chunks, pages) ==> !fate(pages).Applied?
    ensures Complete(Served(HandoffRequest(FrontierOf(Held(keys))), rows, 0), chunks, pages) ==>
              && AllCovered(FrontierOf(Held(held)), FrontierOf(RowIds(rows)))
              && Served(HandoffRequest(FrontierOf(Held(held))), rows, 0) == []
              && (answer == Some(true) || (answer.None? && !reach(asked)))
    ensures answer.Some? ==> (answer.value <==> AllCovered(FrontierOf(Held(held)), FrontierOf(RowIds(rows))))
  {
    KeysAscend(rows);
    var ours := ScanFrontier(keys);
    FrontierUnique(ours, FrontierOf(Held(keys)), Held(keys));
    var ok, vouch;
    ok, chunks, vouch, pages := PullFrom(rows, HandoffRequest(ours), budget, fate, lagCut);
    held := Store(keys, chunks);
    ChunksFromRows(HandoffRequest(ours), rows, chunks);
    if chunks == Served(HandoffRequest(ours), rows, 0) {
      HandoffServed(Held(keys), rows, Held(held));
    }
    answer, asked := ConfirmCoveredBy(KeysOf(rows), true, held, reach);
  }

  lemma ChunksFromRows(req: Request, rows: seq<Row>, chunks: seq<Chunk>)
    requires chunks <= Served(req, rows, 0)
    ensures Ids(chunks) <= RowIds(rows)
  {
    ServedSet(req, rows);
    forall p | p in Ids(chunks) ensures p in RowIds(rows) {
      var c :| c in chunks && c.id == p;
      assert c in Served(req, rows, 0);
      assert p in Ids(Served(req, rows, 0));
    }
  }

  /** The steps of the offload machine are these operations: what it serves is what a holder answers, */
  lemma MachineServes(rows: seq<Row>, req: Request)
    ensures Offload.Serve(RowIds(rows), req.sinceTs, req.floors) == Ids(Served(req, rows, 0))
  {
    ServedSet(req, rows);
  }

  /** the coverage it records is the heads a drain scans, and those are what its check asks about, */
  lemma MachineHeads(own: seq<Point>, latest: seq<Point>)
    requires LatestHeads(own, latest)
    ensures Offload.HeadPoints(Held(own)) == Held(latest)
    ensures Offload.HeadEpochs(Held(own)) == set h | h in HeadsOf(latest)
  {
    LatestIsFrontier(own, latest, map[]);
    assert Offload.HeadPoints(Held(own)) == Held(latest);
    var heads := HeadsOf(latest);
    forall h ensures h in heads <==> exists p :: p in Held(latest) && h == (p.ts, p.epoch) {
      HeadOfLatest(latest, h);
    }
  }

  lemma HeadOfLatest(latest: seq<Point>, h: (nat, nat))
    ensures h in HeadsOf(latest) <==> exists p :: p in Held(latest) && h == (p.ts, p.epoch)
  {
    var heads := HeadsOf(latest);
    if h in heads {
      var i :| 0 <= i < |heads| && heads[i] == h;
      assert latest[i] in Held(latest);
    }
    forall p | p in Held(latest) && h == (p.ts, p.epoch) ensures h in heads {
      var i :| 0 <= i < |latest| && latest[i] == p;
      assert heads[i] == h;
    }
  }

  /** and a page of the check goes through exactly when the target verifies it. */
  lemma MachineVerifies(target: seq<Point>, page: seq<(nat, nat)>)
    ensures AllHeld(target, page) <==> forall h :: h in page ==> Offload.Held(Held(target), h.0, h.1)
  {
    forall h | h in page ensures HoldsAt(target, h.0, h.1) <==> Offload.Held(Held(target), h.0, h.1) {
      if HoldsAt(target, h.0, h.1) {
        var p :| p in target && p.ts == h.0 && p.epoch >= h.1;
        assert p in Held(target);
      }
    }
  }

  /** What a receiver does about an announce: it takes in what its plan asks for. */
  ghost function TakenIn(ours: set<Point>, theirs: set<Point>, plan: Plan): set<Point> {
    if plan.Behind? then ours + Offload.Serve(theirs, plan.sinceTs, plan.floors) else ours
  }

  lemma PlanCovers(fp: Digest, ours: set<Point>, theirs: set<Point>, cut: Option<nat>, plan: Plan)
    requires Planned(fp, FrontierOf(ours), Announced(fp, FrontierOf(theirs), cut), plan) && !plan.Diverged?
    requires FoldsFaithful(fp, FrontierOf(ours), FrontierOf(theirs), cut)
    ensures AllCovered(FrontierOf(TakenIn(ours, theirs, plan)), FrontierOf(theirs))
  {
    TakenInIsAnswer(ours, theirs, plan);
    AnswerMerges(fp, ours, theirs, cut, plan);
    MergeJoins(FrontierOf(ours), FrontierOf(theirs));
  }

  lemma TakenInIsAnswer(ours: set<Point>, theirs: set<Point>, plan: Plan)
    ensures TakenIn(ours, theirs, plan) == ours + Answer(plan, theirs)
  {
  }

  /** An announce the machine sends, of a drain or of a replica, is one to plan on: whoever takes in what its plan
      asks for, unless the plan diverges, covers the sender. */
  lemma MachineAnnounces(fp: Digest, s: Offload.State, step: Offload.Step, ours: set<Point>, plan: Plan)
    requires (step.AnnounceDrain? || step.AnnounceReplica?) && Offload.Enabled(s, step)
    ensures exists a ::
              && a in Offload.After(fp, s, step).announces && a.fullReplica == step.AnnounceReplica?
              && a.sender == (if step.AnnounceReplica? then step.r else step.d)
              && var theirs := if step.AnnounceReplica? then s.replicas[step.r] else s.drains[step.d].store;
                 Planned(fp, FrontierOf(ours), a.sa, plan) && !plan.Diverged?
                   && FoldsFaithful(fp, FrontierOf(ours), FrontierOf(theirs), step.cut)
                 ==> AllCovered(FrontierOf(TakenIn(ours, theirs, plan)), FrontierOf(theirs))
  {
    var theirs := if step.AnnounceReplica? then s.replicas[step.r] else s.drains[step.d].store;
    var a := Offload.Announce(if step.AnnounceReplica? then step.r else step.d,
      Announced(fp, FrontierOf(theirs), step.cut), step.AnnounceReplica?);
    assert a in Offload.After(fp, s, step).announces;
    if Planned(fp, FrontierOf(ours), a.sa, plan) && !plan.Diverged?
       && FoldsFaithful(fp, FrontierOf(ours), FrontierOf(theirs), step.cut)
    {
      PlanCovers(fp, ours, theirs, step.cut, plan);
    }
  }
}
