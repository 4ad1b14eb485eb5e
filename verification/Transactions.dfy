/** What a transaction means: operations applied in order to a snapshot, and the ledger of one
    application's calls (swarm/db-client/src/application.rs, swarm/db-commons/src/models.rs). */
module Transactions {
  import opened Basics

  type Op = nat
  type Response = nat
  type Db = nat
  type TxId = nat

  /** What one operation does to the data a transaction sees; `None` when it fails. */
  type Run = (Db, Op) -> Option<(Db, Response)>

  /** What the transaction sees after the operations; `None` when one of them failed. */
  function Replay(run: Run, base: Db, ops: seq<Op>): Option<Db> {
    if ops == [] then Some(base)
    else
      var before := Replay(run, base, ops[..|ops| - 1]);
      if before.None? then None
      else
        var now := run(before.value, ops[|ops| - 1]);
        if now.None? then None else Some(now.value.0)
  }

  /** What the last operation returned. */
  function AnswerOf(run: Run, base: Db, ops: seq<Op>): Response
    requires ops != [] && Replay(run, base, ops).Some?
  {
    run(Replay(run, base, ops[..|ops| - 1]).value, ops[|ops| - 1]).value.1
  }

  lemma ReplayMore(run: Run, base: Db, ops: seq<Op>, op: Op)
    ensures Replay(run, base, ops).None? ==> Replay(run, base, ops + [op]).None?
    ensures Replay(run, base, ops).Some? ==>
              var now := run(Replay(run, base, ops).value, op);
              && (now.None? <==> Replay(run, base, ops + [op]).None?)
              && (now.Some? ==>
                    && Replay(run, base, ops + [op]) == Some(now.value.0)
                    && AnswerOf(run, base, ops + [op]) == now.value.1)
  {
  }

  lemma {:induction false} ReplayStops(run: Run, base: Db, ops: seq<Op>, more: seq<Op>)
    requires Replay(run, base, ops).None?
    ensures Replay(run, base, ops + more).None?
    decreases more
  {
    if more == [] {
      assert ops + more == ops;
    } else {
      var init := more[..|more| - 1];
      ReplayStops(run, base, ops, init);
      assert (ops + more)[..|ops + more| - 1] == ops + init;
    }
  }

  /** Sending every operation in a round trip of its own: what the transaction sees at the end, and what
      each round trip returned. */
  function PerOperation(run: Run, state: Db, ops: seq<Op>): Option<(Db, seq<Response>)>
    decreases ops
  {
    if ops == [] then Some((state, []))
    else
      var now := run(state, ops[0]);
      if now.None? then None
      else
        var rest := PerOperation(run, now.value.0, ops[1..]);
        if rest.None? then None else Some((rest.value.0, [now.value.1] + rest.value.1))
  }

  lemma {:induction false} PerOperationMore(run: Run, state: Db, ops: seq<Op>, op: Op)
    ensures var all, one := PerOperation(run, state, ops + [op]), PerOperation(run, state, ops);
            if one.None? then all.None?
            else
              var now := run(one.value.0, op);
              all == if now.None? then None else Some((now.value.0, one.value.1 + [now.value.1]))
    decreases ops
  {
    if ops == [] {
      assert (ops + [op])[1..] == [];
      assert forall r: Response :: [r] + [] == [] + [r];
    } else {
      assert (ops + [op])[1..] == ops[1..] + [op];
      var now := run(state, ops[0]);
      if now.Some? {
        PerOperationMore(run, now.value.0, ops[1..], op);
        var rest := PerOperation(run, now.value.0, ops[1..]);
        if rest.Some? && run(rest.value.0, op).Some? {
          var r := run(rest.value.0, op).value.1;
          assert [now.value.1] + (rest.value.1 + [r]) == [now.value.1] + rest.value.1 + [r];
        }
      }
    }
  }

  lemma {:induction false} PerOperationSplit(run: Run, state: Db, a: seq<Op>, b: seq<Op>)
    ensures var all, first := PerOperation(run, state, a + b), PerOperation(run, state, a);
            if first.None? then all.None?
            else
              var rest := PerOperation(run, first.value.0, b);
              all == if rest.None? then None else Some((rest.value.0, first.value.1 + rest.value.1))
    decreases b
  {
    var first := PerOperation(run, state, a);
    if b == [] {
      assert a + b == a;
      assert first.Some? ==> first.value.1 + [] == first.value.1;
    } else {
      var init, op := b[..|b| - 1], b[|b| - 1];
      PerOperationSplit(run, state, a, init);
      PerOperationMore(run, state, a + init, op);
      assert a + b == a + init + [op] && b == init + [op];
      if first.Some? {
        PerOperationMore(run, first.value.0, init, op);
        AppendAssociates(first.value.1);
      }
    }
  }

  lemma AppendAssociates(a: seq<Response>)
    ensures forall b: seq<Response>, r: Response :: a + (b + [r]) == a + b + [r]
  {
  }

  /** A batch replayed in one go fails, ends and answers as its operations would one by one. */
  lemma {:induction false} ReplayIsPerOperation(run: Run, state: Db, ops: seq<Op>)
    ensures var all := PerOperation(run, state, ops);
            && (all.None? <==> Replay(run, state, ops).None?)
            && (all.Some? ==> Replay(run, state, ops) == Some(all.value.0) && |all.value.1| == |ops|)
            && (all.Some? && ops != [] ==> AnswerOf(run, state, ops) == all.value.1[|ops| - 1])
  {
    if ops != [] {
      var init, op := ops[..|ops| - 1], ops[|ops| - 1];
      assert ops == init + [op];
      ReplayIsPerOperation(run, state, init);
      PerOperationMore(run, state, init, op);
      ReplayMore(run, state, init, op);
    }
  }

  function Flat(bundles: seq<seq<Op>>): seq<Op> {
    if bundles == [] then [] else Flat(bundles[..|bundles| - 1]) + bundles[|bundles| - 1]
  }

  lemma FlatMore(bundles: seq<seq<Op>>, ops: seq<Op>)
    ensures Flat(bundles + [ops]) == Flat(bundles) + ops
  {
  }

  /** One round trip per batch, each continuing where the one before left the data: what the transaction
      sees at the end, and the answer each round trip carried, that of its last operation. */
  function InBatches(run: Run, base: Db, batches: seq<seq<Op>>): Option<(Db, seq<Option<Response>>)> {
    if batches == [] then Some((base, []))
    else
      var before, batch := InBatches(run, base, batches[..|batches| - 1]), batches[|batches| - 1];
      if before.None? || Replay(run, before.value.0, batch).None? then None
      else
        var answer := if batch == [] then None else Some(AnswerOf(run, before.value.0, batch));
        Some((Replay(run, before.value.0, batch).value, before.value.1 + [answer]))
  }

  /** The responses, cut up as the operations were, end with the answers: every batch that holds an operation
      carried its last operation's own response. */
  ghost predicate CarriesAnswers(batches: seq<seq<Op>>, answers: seq<Option<Response>>, responses: seq<Response>)
    decreases |batches|
  {
    && |answers| == |batches| && |responses| == |Flat(batches)|
    && (batches == []
        || var n := |batches| - 1;
           && (batches[n] != [] ==> answers[n] == Some(responses[|responses| - 1]))
           && CarriesAnswers(batches[..n], answers[..n], responses[..|Flat(batches[..n])|]))
  }

  lemma CarriesMore(batches: seq<seq<Op>>, answers: seq<Option<Response>>, responses: seq<Response>, batch: seq<Op>,
                    answer: Option<Response>, more: seq<Response>)
    requires CarriesAnswers(batches, answers, responses) && |more| == |batch|
    requires batch != [] ==> answer == Some(more[|more| - 1])
    ensures CarriesAnswers(batches + [batch], answers + [answer], responses + more)
  {
    FlatMore(batches, batch);
    var n := |batches|;
    assert (batches + [batch])[..n] == batches && (answers + [answer])[..n] == answers;
    assert (responses + more)[..|Flat(batches)|] == responses;
  }

  /** By index: the answer of batch `k` is the response at the batch's last position. */
  lemma {:induction false} AnswerAt(batches: seq<seq<Op>>, answers: seq<Option<Response>>, responses: seq<Response>,
                                    k: nat)
    requires CarriesAnswers(batches, answers, responses) && k < |batches| && batches[k] != []
    ensures var last := |Flat(batches[..k + 1])| - 1;
            0 <= last < |responses| && answers[k] == Some(responses[last])
    decreases |batches|
  {
    var n := |batches| - 1;
    if k == n {
      assert batches[..k + 1] == batches;
    } else {
      AnswerAt(batches[..n], answers[..n], responses[..|Flat(batches[..n])|], k);
      assert batches[..n][..k + 1] == batches[..k + 1];
    }
  }

  /** Batching refines per-operation sending, however the operations are cut into batches: the same runs
      fail, the transaction sees the same data, and every batch's answer is the one its last operation
      would have got in a round trip of its own. */
  lemma {:induction false} BatchesRefine(run: Run, base: Db, batches: seq<seq<Op>>)
    ensures var all, one := InBatches(run, base, batches), PerOperation(run, base, Flat(batches));
            && (all.None? <==> one.None?)
            && (all.Some? ==> all.value.0 == one.value.0 && CarriesAnswers(batches, all.value.1, one.value.1))
  {
    if batches != [] {
      var init, batch := batches[..|batches| - 1], batches[|batches| - 1];
      BatchesRefine(run, base, init);
      PerOperationSplit(run, base, Flat(init), batch);
      assert batches == init + [batch];
      FlatMore(init, batch);
      var before := InBatches(run, base, init);
      if before.Some? {
        var state := before.value.0;
        ReplayIsPerOperation(run, state, batch);
        var one, more := PerOperation(run, base, Flat(init)), PerOperation(run, state, batch);
        if more.Some? {
          var answer := if batch == [] then None else Some(AnswerOf(run, state, batch));
          CarriesMore(init, before.value.1, one.value.1, batch, answer, more.value.1);
        }
      }
    }
  }

  /** Going on from what a transaction sees is replaying everything from its snapshot. */
  lemma {:induction false} ReplaySplit(run: Run, base: Db, ops: seq<Op>, more: seq<Op>)
    requires Replay(run, base, ops).Some?
    ensures Replay(run, base, ops + more) == Replay(run, Replay(run, base, ops).value, more)
    ensures more != [] && Replay(run, base, ops + more).Some? ==>
              AnswerOf(run, base, ops + more) == AnswerOf(run, Replay(run, base, ops).value, more)
    decreases more
  {
    if more == [] {
      assert ops + more == ops;
    } else {
      var init, op := more[..|more| - 1], more[|more| - 1];
      ReplaySplit(run, base, ops, init);
      assert (ops + more)[..|ops + more| - 1] == ops + init;
    }
  }

  /** One call of an application, as its caller saw it. `base` is the transaction's snapshot. */
  datatype Event =
    | Deferred(op: Op)
    | Applied(op: Op, response: Response, base: Db)
    | Opened(base: Db)
    | Committed(base: Db)
    | Failed(doubt: Option<seq<Op>>)
    | RolledBack

  /** Where the calls have left the application: the operations accepted since the last commit and the
      snapshot they run on, the bundles reported committed, the bundle whose commit was never answered,
      and whether a call has failed or rolled back. */
  datatype Ledger = Ledger(open: seq<Op>, base: Option<Db>, done: seq<seq<Op>>, doubt: Option<seq<Op>>, dead: bool)

  const NOTHING := Ledger([], None, [], None, false)

  function After(l: Ledger, e: Event): Ledger {
    match e
    case Deferred(op) => l.(open := l.open + [op])
    case Applied(op, _, base) => l.(open := l.open + [op], base := Some(base))
    case Opened(base) => l.(base := Some(base))
    case Committed(_) => l.(open := [], base := None, done := l.done + [l.open])
    case Failed(doubt) => l.(open := [], base := None, doubt := doubt, dead := true)
    case RolledBack => l.(open := [], base := None, dead := true)
  }

  function LedgerOf(h: seq<Event>): Ledger {
    if h == [] then NOTHING else After(LedgerOf(h[..|h| - 1]), h[|h| - 1])
  }

  ghost predicate SameBase(l: Ledger, base: Db) {
    l.base.Some? ==> l.base.value == base
  }

  /** What a truthful application may report next: answers that the operation gives after all accepted
      before it, on one snapshot for the whole transaction, and nothing after a failure. */
  ghost predicate Allowed(run: Run, l: Ledger, e: Event) {
    && !l.dead
    && match e
       case Deferred(_) => true
       case Applied(op, r, base) => SameBase(l, base) && Replay(run, base, l.open + [op]).Some?
         && r == AnswerOf(run, base, l.open + [op])
       case Opened(base) => SameBase(l, base) && Replay(run, base, l.open).Some?
       case Committed(base) => SameBase(l, base) && Replay(run, base, l.open).Some?
       case Failed(doubt) => doubt.Some? ==> l.open <= doubt.value
       case RolledBack => true
  }

  ghost predicate Legal(run: Run, h: seq<Event>) {
    h == [] || (Legal(run, h[..|h| - 1]) && Allowed(run, LedgerOf(h[..|h| - 1]), h[|h| - 1]))
  }

  lemma Record(run: Run, h: seq<Event>, e: Event)
    requires Legal(run, h) && Allowed(run, LedgerOf(h), e)
    ensures Legal(run, h + [e]) && LedgerOf(h + [e]) == After(LedgerOf(h), e)
  {
  }

  predicate Accepts(e: Event) {
    e.Deferred? || e.Applied?
  }

  /** The operations the application accepted, in program order. */
  function OpsOf(h: seq<Event>): seq<Op> {
    if h == [] then []
    else
      var e := h[|h| - 1];
      OpsOf(h[..|h| - 1]) + if Accepts(e) then [e.op] else []
  }

  /** Conservation, over every run: the committed bundles, end to end, followed by what is still open are
      exactly the accepted operations in program order; after a failure or a rollback the committed
      bundles are a prefix of them, so nothing committed twice and nothing out of order. */
  lemma {:induction false} AcceptedOnce(run: Run, h: seq<Event>)
    requires Legal(run, h)
    ensures var l := LedgerOf(h);
            if l.dead then Flat(l.done) <= OpsOf(h) else Flat(l.done) + l.open == OpsOf(h)
  {
    if h != [] {
      var init, e := h[..|h| - 1], h[|h| - 1];
      AcceptedOnce(run, init);
      var l := LedgerOf(init);
      if e.Committed? {
        FlatMore(l.done, l.open);
      } else if Accepts(e) {
        assert Flat(l.done) + (l.open + [e.op]) == Flat(l.done) + l.open + [e.op];
      }
    }
  }

  /** The bundles made durable are those reported committed, and at most the one whose commit was never
      answered. */
  ghost predicate Durable(l: Ledger, committed: seq<seq<Op>>) {
    committed == l.done || (l.doubt.Some? && committed == l.done + [l.doubt.value])
  }

  lemma {:induction false} LiveHasNoDoubt(run: Run, h: seq<Event>)
    requires Legal(run, h)
    ensures !LedgerOf(h).dead ==> LedgerOf(h).doubt.None?
  {
    if h != [] {
      LiveHasNoDoubt(run, h[..|h| - 1]);
    }
  }

  /** At every point of the run, whatever the unanswered commit did, either nothing of what the application
      accepted is durable or all of it is. */
  ghost predicate AllOrNothing(h: seq<Event>) {
    forall n, committed :: 0 <= n <= |h| && Durable(LedgerOf(h[..n]), committed) ==> Whole(OpsOf(h[..n]), committed)
  }

  ghost predicate Whole(ops: seq<Op>, committed: seq<seq<Op>>) {
    Flat(committed) == [] || ops <= Flat(committed)
  }

  predicate CommitsSomething(h: seq<Event>) {
    h != [] && (CommitsSomething(h[..|h| - 1]) || (h[|h| - 1].Committed? && OpsOf(h[..|h| - 1]) != []))
  }

  /** The application accepted an operation after a commit of something it had accepted before. */
  predicate Reused(h: seq<Event>) {
    h != [] && (Reused(h[..|h| - 1]) || (Accepts(h[|h| - 1]) && CommitsSomething(h[..|h| - 1])))
  }

  lemma {:induction false} DoneIff(run: Run, h: seq<Event>)
    requires Legal(run, h)
    ensures Flat(LedgerOf(h).done) != [] <==> CommitsSomething(h)
  {
    if h != [] {
      var init, e := h[..|h| - 1], h[|h| - 1];
      DoneIff(run, init);
      if e.Committed? {
        AcceptedOnce(run, init);
        FlatMore(LedgerOf(init).done, LedgerOf(init).open);
        assert Flat(LedgerOf(h).done) == OpsOf(init);
      } else {
        assert LedgerOf(h).done == LedgerOf(init).done;
      }
    }
  }

  /** Operations are open behind a commit only in an application that was used again. */
  lemma {:induction false} LiveIsWhole(run: Run, h: seq<Event>)
    requires Legal(run, h) && !LedgerOf(h).dead && !Reused(h)
    ensures LedgerOf(h).open == [] || Flat(LedgerOf(h).done) == []
  {
    if h != [] {
      var init, e := h[..|h| - 1], h[|h| - 1];
      if Accepts(e) {
        DoneIff(run, init);
      } else {
        LiveIsWhole(run, init);
      }
    }
  }

  lemma WholeUnlessReused(run: Run, h: seq<Event>, committed: seq<seq<Op>>)
    requires Legal(run, h) && !Reused(h) && Durable(LedgerOf(h), committed)
    ensures Whole(OpsOf(h), committed)
  {
    if !LedgerOf(h).dead {
      AcceptedOnce(run, h);
      LiveHasNoDoubt(run, h);
      LiveIsWhole(run, h);
    } else {
      DeadIsWhole(run, h);
      WholeOnceDead(LedgerOf(h), OpsOf(h), committed);
    }
  }

  lemma WholeOnceDead(l: Ledger, ops: seq<Op>, committed: seq<seq<Op>>)
    requires ops == Flat(l.done) || (Flat(l.done) == [] && (l.doubt.Some? ==> ops <= l.doubt.value))
    requires Durable(l, committed)
    ensures Whole(ops, committed)
  {
    if committed != l.done {
      FlatMore(l.done, l.doubt.value);
      assert ops == Flat(l.done) ==> ops <= Flat(l.done) + l.doubt.value;
      assert [] + l.doubt.value == l.doubt.value;
    }
  }

  lemma DeadIsWhole(run: Run, h: seq<Event>)
    requires Legal(run, h) && !Reused(h) && LedgerOf(h).dead
    ensures var l := LedgerOf(h);
            OpsOf(h) == Flat(l.done) || (Flat(l.done) == [] && (l.doubt.Some? ==> OpsOf(h) <= l.doubt.value))
  {
    var init, e := h[..|h| - 1], h[|h| - 1];
    assert e.Failed? || e.RolledBack?;
    assert OpsOf(h) == OpsOf(init) && LedgerOf(h).done == LedgerOf(init).done;
    LiveHasNoDoubt(run, init);
    LiveIsWhole(run, init);
    AcceptedOnce(run, init);
  }

  lemma {:induction false} TornIfReused(run: Run, h: seq<Event>)
    requires Legal(run, h) && Reused(h)
    ensures !AllOrNothing(h)
  {
    var init := h[..|h| - 1];
    if Reused(init) {
      TornIfReused(run, init);
      AllOrNothingBefore(h);
    } else {
      AcceptedOnce(run, h);
      DoneIff(run, init);
      assert h[..|h|] == h;
      assert Durable(LedgerOf(h), LedgerOf(h).done) && !Whole(OpsOf(h), LedgerOf(h).done);
    }
  }

  lemma AllOrNothingBefore(h: seq<Event>)
    requires h != []
    ensures AllOrNothing(h) ==> AllOrNothing(h[..|h| - 1])
  {
    var init := h[..|h| - 1];
    assert forall n :: 0 <= n <= |init| ==> init[..n] == h[..n];
  }

  /** One application is all-or-nothing exactly when it is not used again after committing something. */
  lemma {:induction false} AllOrNothingIff(run: Run, h: seq<Event>)
    requires Legal(run, h)
    ensures AllOrNothing(h) <==> !Reused(h)
  {
    if Reused(h) {
      TornIfReused(run, h);
    } else {
      forall n, committed | 0 <= n <= |h| && Durable(LedgerOf(h[..n]), committed)
        ensures Whole(OpsOf(h[..n]), committed)
      {
        LegalPrefix(run, h, n);
        PrefixNotReused(h, n);
        WholeUnlessReused(run, h[..n], committed);
      }
    }
  }

  lemma {:induction false} PrefixNotReused(h: seq<Event>, n: nat)
    requires n <= |h| && !Reused(h)
    ensures !Reused(h[..n])
  {
    if n < |h| {
      PrefixNotReused(h[..|h| - 1], n);
      assert h[..|h| - 1][..n] == h[..n];
    } else {
      assert h[..n] == h;
    }
  }

  /** Read off the calls: an operation, a commit behind it, and an operation behind that. */
  lemma {:induction false} ReusedIn(h: seq<Event>) returns (i: nat, k: nat, j: nat)
    requires Reused(h)
    ensures i < k < j < |h| && Accepts(h[i]) && h[k].Committed? && Accepts(h[j])
  {
    var init := h[..|h| - 1];
    if Reused(init) {
      i, k, j := ReusedIn(init);
    } else {
      i, k := CommittedIn(init);
      j := |init|;
    }
  }

  lemma {:induction false} ReusedFrom(h: seq<Event>, i: nat, k: nat, j: nat)
    requires i < k < j < |h| && Accepts(h[i]) && h[k].Committed? && Accepts(h[j])
    ensures Reused(h)
  {
    if j < |h| - 1 {
      ReusedFrom(h[..|h| - 1], i, k, j);
    } else {
      CommittedFrom(h[..|h| - 1], i, k);
    }
  }

  lemma {:induction false} CommittedIn(h: seq<Event>) returns (i: nat, k: nat)
    requires CommitsSomething(h)
    ensures i < k < |h| && Accepts(h[i]) && h[k].Committed?
  {
    var init := h[..|h| - 1];
    if CommitsSomething(init) {
      i, k := CommittedIn(init);
    } else {
      OpsIff(init);
      i :| 0 <= i < |init| && Accepts(init[i]);
      k := |init|;
    }
  }

  lemma {:induction false} CommittedFrom(h: seq<Event>, i: nat, k: nat)
    requires i < k < |h| && Accepts(h[i]) && h[k].Committed?
    ensures CommitsSomething(h)
  {
    var init := h[..|h| - 1];
    if k < |init| {
      CommittedFrom(init, i, k);
    } else {
      assert Accepts(init[i]);
      OpsIff(init);
    }
  }

  lemma {:induction false} OpsIff(h: seq<Event>)
    ensures OpsOf(h) != [] <==> exists i :: 0 <= i < |h| && Accepts(h[i])
  {
    if h != [] {
      OpsIff(h[..|h| - 1]);
    }
  }

  /** The calls apply-and-commit, defer, roll back: the first operation is durable, the second is lost. */
  lemma ReuseTears(run: Run, base: Db, a: Op, b: Op)
    requires run(base, a).Some?
    ensures var h := [Applied(a, run(base, a).value.1, base), Committed(base), Deferred(b), RolledBack];
            Legal(run, h) && LedgerOf(h).done == [[a]] && OpsOf(h) == [a, b] && !AllOrNothing(h)
  {
    var e := Applied(a, run(base, a).value.1, base);
    ReplayMore(run, base, [], a);
    assert [] + [a] == [a];
    RecordAll(run, [], e);
    RecordAll(run, [e], Committed(base));
    assert [e] + [Committed(base)] == [e, Committed(base)];
    RecordAll(run, [e, Committed(base)], Deferred(b));
    assert [e, Committed(base)] + [Deferred(b)] == [e, Committed(base), Deferred(b)];
    RecordAll(run, [e, Committed(base), Deferred(b)], RolledBack);
    assert [e, Committed(base), Deferred(b)] + [RolledBack] == [e, Committed(base), Deferred(b), RolledBack];
    TornIfReused(run, [e, Committed(base), Deferred(b), RolledBack]);
  }

  /** One more call, and everything said of the calls so far. */
  lemma RecordAll(run: Run, h: seq<Event>, e: Event)
    requires Legal(run, h) && Allowed(run, LedgerOf(h), e)
    ensures Legal(run, h + [e]) && LedgerOf(h + [e]) == After(LedgerOf(h), e)
    ensures OpsOf(h + [e]) == OpsOf(h) + if Accepts(e) then [e.op] else []
    ensures CommitsSomething(h + [e]) <==> CommitsSomething(h) || (e.Committed? && OpsOf(h) != [])
    ensures Reused(h + [e]) <==> Reused(h) || (Accepts(e) && CommitsSomething(h))
  {
    assert (h + [e])[..|h|] == h;
  }

  /** Every answer was the one its operation gives after all accepted before it in its transaction. */
  lemma {:induction false} AnswersTrue(run: Run, h: seq<Event>, i: nat)
    requires Legal(run, h) && i < |h| && h[i].Applied?
    ensures var ops := LedgerOf(h[..i]).open + [h[i].op];
            Replay(run, h[i].base, ops).Some? && h[i].response == AnswerOf(run, h[i].base, ops)
  {
    if i < |h| - 1 {
      AnswersTrue(run, h[..|h| - 1], i);
      assert h[..|h| - 1][..i] == h[..i];
    }
  }

  /** A failure or a rollback is the last thing an application reports. */
  lemma {:induction false} DeadIsLast(run: Run, h: seq<Event>, i: nat)
    requires Legal(run, h) && i < |h| && (h[i].Failed? || h[i].RolledBack?)
    ensures i == |h| - 1 && LedgerOf(h).dead
  {
    if i < |h| - 1 {
      assert !LedgerOf(h[..|h| - 1]).dead;
      DeadIsLast(run, h[..|h| - 1], i);
    }
  }

  /** What is committed ran: all that was accepted since the last commit, on the transaction's snapshot. */
  lemma {:induction false} CommitsTrue(run: Run, h: seq<Event>, i: nat)
    requires Legal(run, h) && i < |h| && (h[i].Committed? || h[i].Opened?)
    ensures Replay(run, h[i].base, LedgerOf(h[..i]).open).Some?
  {
    LegalPrefix(run, h, i + 1);
    assert h[..i + 1][..i] == h[..i];
  }

  /** Calls that name the snapshot they ran on. */
  predicate HasBase(e: Event) {
    e.Applied? || e.Opened? || e.Committed?
  }

  /** One transaction runs on one snapshot: two calls with no commit before the second name the same one. */
  lemma {:induction false} OneSnapshot(run: Run, h: seq<Event>, i: nat, j: nat)
    requires Legal(run, h) && i < j < |h| && HasBase(h[i]) && HasBase(h[j])
    requires forall k :: i <= k < j ==> !h[k].Committed?
    ensures h[i].base == h[j].base
  {
    LegalPrefix(run, h, j + 1);
    assert h[..j + 1][..j] == h[..j];
    SnapshotStays(run, h[..j], i);
  }

  lemma {:induction false} LegalPrefix(run: Run, h: seq<Event>, n: nat)
    requires Legal(run, h) && n <= |h|
    ensures Legal(run, h[..n])
  {
    if n < |h| {
      LegalPrefix(run, h[..|h| - 1], n);
      assert h[..|h| - 1][..n] == h[..n];
    } else {
      assert h[..n] == h;
    }
  }

  lemma {:induction false} SnapshotStays(run: Run, h: seq<Event>, i: nat)
    requires i < |h| && HasBase(h[i]) && Legal(run, h)
    requires forall k :: i <= k < |h| ==> !h[k].Committed?
    ensures LedgerOf(h).dead || LedgerOf(h).base == Some(h[i].base)
  {
    if i < |h| - 1 {
      SnapshotStays(run, h[..|h| - 1], i);
    }
  }
}
