/** Batched transactions: the client's buffer with its tail rule and its poison flag
    (swarm/db-client/src/application.rs), against the node that applies the batches
    (swarm/swarm/src/plugins/db/handler.rs). */
module Applications {
  import opened Basics
  import opened Transactions

  datatype Target = New | Existing(id: TxId)
  datatype Finish = KeepOpen | Commit
  datatype Request = Request(target: Target, ops: seq<Op>, finish: Finish)
  datatype Reply = Reply(tx: Option<TxId>, last: Option<Response>)

  /** A transaction: its snapshot, what it applied, and what it sees. */
  datatype Tx = Tx(base: Db, ops: seq<Op>, sees: Db)

  ghost predicate Sound(run: Run, tx: Tx) {
    Replay(run, tx.base, tx.ops) == Some(tx.sees)
  }

  function Last(run: Run, base: Db, ops: seq<Op>, n: nat): Option<Response>
    requires n <= |ops| && Replay(run, base, ops).Some?
  {
    if n == 0 then None else Some(AnswerOf(run, base, ops))
  }

  /** Applies every operation in order; `None` when one fails, otherwise the transaction as it then is
      and the last answer. */
  method ApplyAll(run: Run, tx: Tx, ops: seq<Op>) returns (r: Option<(Tx, Option<Response>)>)
    requires Sound(run, tx)
    ensures r.None? <==> Replay(run, tx.base, tx.ops + ops).None?
    ensures r.Some? ==> Sound(run, r.value.0) && r.value.0.base == tx.base && r.value.0.ops == tx.ops + ops
    ensures r.Some? ==> r.value.1 == Last(run, tx.base, tx.ops + ops, |ops|)
    ensures r.None? <==> Replay(run, tx.sees, ops).None?
    ensures r.Some? ==> r.value.0.sees == Replay(run, tx.sees, ops).value && r.value.1 == Last(run, tx.sees, ops, |ops|)
  {
    ReplaySplit(run, tx.base, tx.ops, ops);
    var sees, last: Option<Response> := tx.sees, None;
    assert tx.ops + ops[..0] == tx.ops;
    for i := 0 to |ops|
      invariant Replay(run, tx.base, tx.ops + ops[..i]) == Some(sees)
      invariant last == Last(run, tx.base, tx.ops + ops[..i], i)
    {
      ReplayMore(run, tx.base, tx.ops + ops[..i], ops[i]);
      assert tx.ops + ops[..i + 1] == tx.ops + ops[..i] + [ops[i]];
      var now := run(sees, ops[i]);
      if now.None? {
        ReplayStops(run, tx.base, tx.ops + ops[..i + 1], ops[i + 1..]);
        assert tx.ops + ops[..i + 1] + ops[i + 1..] == tx.ops + ops;
        return None;
      }
      sees, last := now.value.0, Some(now.value.1);
    }
    assert tx.ops + ops[..|ops|] == tx.ops + ops;
    r := Some((Tx(tx.base, tx.ops + ops, sees), last));
  }

  ghost predicate AllSound(run: Run, registry: map<TxId, Tx>, next: TxId) {
    forall id :: id in registry ==> id < next && Sound(run, registry[id])
  }

  /** Where a request starts: a fresh transaction on the given snapshot, or the one it names. */
  function Begun(registry: map<TxId, Tx>, target: Target, snapshot: Db): Tx
    requires Finds(registry, target)
  {
    match target
    case New => Tx(snapshot, [], snapshot)
    case Existing(id) => registry[id]
  }

  /** What an answered request leaves behind: it ran every operation after those before it; a committing
      one takes the transaction away and commits the whole bundle, another leaves it open under its id. */
  ghost predicate Answered(run: Run, req: Request, snapshot: Db, was: map<TxId, Tx>, now: map<TxId, Tx>, next: TxId,
                           log: seq<seq<Op>>, logged: seq<seq<Op>>, reply: Reply)
  {
    && Finds(was, req.target)
    && var tx := Begun(was, req.target, snapshot);
       var ops := tx.ops + req.ops;
       && Replay(run, tx.base, ops).Some?
       && reply.last == Last(run, tx.base, ops, |req.ops|)
       && match req.finish
          case Commit => reply.tx == None && logged == log + [ops]
            && now == (if req.target.Existing? then was - {req.target.id} else was)
          case KeepOpen =>
            var id := if req.target.Existing? then req.target.id else next;
            reply.tx == Some(id) && logged == log && now == was[id := Tx(tx.base, ops, Replay(run, tx.base, ops).value)]
  }

  /** A refused request commits nothing and leaves the transaction it named rolled back; the others are
      untouched. */
  ghost predicate Declined(req: Request, was: map<TxId, Tx>, now: map<TxId, Tx>, log: seq<seq<Op>>,
                           logged: seq<seq<Op>>)
  {
    logged == log && now == if req.target.Existing? then was - {req.target.id} else was
  }

  /** When a request is answered: its transaction is there or admitted, every operation succeeds on top of
      those before, and the commit it may ask for goes through. */
  predicate Grants(run: Run, req: Request, snapshot: Db, registry: map<TxId, Tx>, admits: bool, commits: bool) {
    && Finds(registry, req.target) && (req.target.New? ==> admits) && (req.finish.Commit? ==> commits)
    && Replay(run, Begun(registry, req.target, snapshot).base, Begun(registry, req.target, snapshot).ops
      + req.ops).Some?
  }

  /** What becomes of a round trip: the reply arrives; the request never reaches the node; the reply is
      lost on its way back; or the request is held up while the caller gets an error, or drops the call. */
  datatype Fate = Delivered | RequestLost | ReplyLost | Delayed

  /** Whether the node gets to see the request before the call is over. */
  predicate Arrives(fate: Fate) {
    fate.Delivered? || fate.ReplyLost?
  }

  datatype Outcome<T> = Ok(value: T) | Refused | Unreachable

  predicate Finds(registry: map<TxId, Tx>, target: Target) {
    target.Existing? ==> target.id in registry
  }

  /** The caller cannot tell: nothing was committed, or the request's whole bundle was. */
  ghost predicate InDoubt(req: Request, was: map<TxId, Tx>, log: seq<seq<Op>>, logged: seq<seq<Op>>) {
    logged == log || (req.finish.Commit? && Finds(was, req.target)
      && logged == log + [Begun(was, req.target, 0).ops + req.ops])
  }

  /** The bundles durable once a request has been served: a committing one that is granted adds its whole
      bundle, and no other adds anything. */
  function Logged(req: Request, registry: map<TxId, Tx>, log: seq<seq<Op>>, granted: bool): seq<seq<Op>>
    requires granted ==> Finds(registry, req.target)
  {
    if req.finish.Commit? && granted then log + [Begun(registry, req.target, 0).ops + req.ops] else log
  }

  function LastAnswer(run: Run, from: Db, ops: seq<Op>): Option<Response>
    requires Replay(run, from, ops).Some?
  {
    if ops == [] then None else Some(AnswerOf(run, from, ops))
  }

  /** What a request for a new transaction comes to: its operations, run on the snapshot and nothing else. */
  ghost predicate ServedNew(run: Run, req: Request, snapshot: Db, admits: bool, commits: bool, was: map<TxId, Tx>,
                            now: map<TxId, Tx>, next: TxId, log: seq<seq<Op>>, logged: seq<seq<Op>>,
                            reply: Option<Reply>)
  {
    var ran := Replay(run, snapshot, req.ops);
    if !admits || ran.None? || (req.finish == Commit && !commits) then reply == None && now == was && logged == log
    else if req.finish == Commit then
      reply == Some(Reply(None, LastAnswer(run, snapshot, req.ops))) && now == was && logged == log + [req.ops]
    else
      && reply == Some(Reply(Some(next), LastAnswer(run, snapshot, req.ops))) && logged == log
      && now == was[next := Tx(snapshot, req.ops, ran.value)]
  }

  /** What a request that names a transaction comes to: its operations, run on what that one sees. */
  ghost predicate ServedOpen(run: Run, req: Request, id: TxId, commits: bool, was: map<TxId, Tx>, now: map<TxId, Tx>,
                             log: seq<seq<Op>>, logged: seq<seq<Op>>, reply: Option<Reply>)
  {
    if id !in was || Replay(run, was[id].sees, req.ops).None? || (req.finish == Commit && !commits)
      then reply == None && now == was - {id} && logged == log
    else
      var tx, last := was[id], LastAnswer(run, was[id].sees, req.ops);
      if req.finish == Commit then
        reply == Some(Reply(None, last)) && now == was - {id} && logged == log + [tx.ops + req.ops]
      else
        && reply == Some(Reply(Some(id), last)) && logged == log
        && now == was[id := Tx(tx.base, tx.ops + req.ops, Replay(run, tx.sees, req.ops).value)]
  }

  /** A node holding open transactions. `committed` are the bundles this application's requests made
      durable, and `delayed` a request the network still holds. */
  class Server {
    const run: Run
    var registry: map<TxId, Tx>
    var next: TxId
    var committed: seq<seq<Op>>
    var delayed: Option<Request>

    ghost predicate Valid()
      reads this
    {
      AllSound(run, registry, next)
    }

    constructor (run: Run)
      ensures Valid() && this.run == run && registry == map[] && committed == [] && delayed == None
    {
      this.run := run;
      registry, next, committed, delayed := map[], 0, [], None;
    }

    /** Serves one request. The store decides whether a new transaction is admitted, on what snapshot,
        and whether a commit goes through. */
    method Handle(req: Request, snapshot: Db, admits: bool, commits: bool) returns (reply: Option<Reply>)
      requires Valid()
      modifies this`registry, this`next, this`committed
      ensures Valid() && old(next) <= next
      ensures reply.Some? <==> Grants(run, req, snapshot, old(registry), admits, commits)
      ensures committed
              == Logged(req, old(registry), old(committed), Grants(run, req, snapshot, old(registry), admits, commits))
      ensures reply.None? ==> Declined(req, old(registry), registry, old(committed), committed)
      ensures reply.Some? ==>
              Answered(run, req, snapshot, old(registry), registry, old(next), old(committed), committed, reply.value)
      ensures reply.Some? && reply.value.tx.Some? ==> reply.value.tx.value < next
      ensures req.target.New? ==>
                ServedNew(run, req, snapshot, admits, commits, old(registry), registry, old(next), old(committed),
                          committed, reply)
      ensures req.target.Existing? ==>
                ServedOpen(run, req, req.target.id, commits, old(registry), registry, old(committed), committed, reply)
    {
      if (req.target.New? && !admits) || !Finds(registry, req.target) {
        if req.target.Existing? {
          assert registry - {req.target.id} == registry;
        }
        return None;
      }
      var tx := Begun(registry, req.target, snapshot);
      var id := if req.target.Existing? then req.target.id else next;
      if req.target.New? && req.finish.KeepOpen? {
        next := next + 1;
      }
      var rest := if req.target.Existing? then registry - {id} else registry;
      var ran := ApplyAll(run, tx, req.ops);
      assert req.target.New? ==> tx.ops + req.ops == req.ops;
      if ran.None? || (req.finish.Commit? && !commits) {
        registry := rest;
        return None;
      }
      if req.finish.Commit? {
        registry := rest;
        committed := committed + [ran.value.0.ops];
        return Some(Reply(None, ran.value.1));
      }
      registry := registry[id := ran.value.0];
      reply := Some(Reply(Some(id), ran.value.1));
    }

    /** The request to roll back; it fails when the transaction is gone already. */
    method HandleRollback(id: TxId) returns (ok: bool)
      requires Valid()
      modifies this`registry
      ensures Valid() && registry == old(registry) - {id} && (ok <==> id in old(registry))
    {
      ok := id in registry;
      registry := registry - {id};
    }

    /** One round trip, as its caller sees it. */
    method Send(req: Request, fate: Fate, snapshot: Db, admits: bool, commits: bool) returns (out: Outcome<Reply>)
      requires Valid() && delayed.None?
      modifies this
      ensures Valid() && old(next) <= next
      ensures out.Unreachable? <==> !fate.Delivered?
      ensures fate.Delivered? ==> (out.Ok? <==> Grants(run, req, snapshot, old(registry), admits, commits))
      ensures out.Ok? ==> Answered(run, req, snapshot, old(registry), registry, old(next), old(committed), committed,
              out.value)
      ensures out.Ok? && out.value.tx.Some? ==> out.value.tx.value < next
      ensures committed
              == Logged(req, old(registry), old(committed),
                        Arrives(fate) && Grants(run, req, snapshot, old(registry), admits, commits))
      ensures delayed == if fate.Delayed? then Some(req) else None
      ensures fate.Delayed? ==> registry == old(registry)
    {
      if fate == Delayed {
        delayed := Some(req);
        return Unreachable;
      }
      if fate == RequestLost {
        return Unreachable;
      }
      var reply := Handle(req, snapshot, admits, commits);
      if fate == ReplyLost {
        return Unreachable;
      }
      out := if reply.None? then Refused else Ok(reply.value);
    }
  }

  function Tail(tail: Option<Op>): seq<Op> {
    if tail.Some? then [tail.value] else []
  }

  /** What an answered flush adds to the record of calls. */
  ghost function Reports(tail: Option<Op>, finish: Finish, last: Option<Response>, base: Db): seq<Event>
    requires tail.Some? ==> last.Some?
  {
    match finish
    case KeepOpen => if tail.Some? then [Applied(tail.value, last.value, base)] else [Opened(base)]
    case Commit => if tail.Some? then [Applied(tail.value, last.value, base), Committed(base)] else [Committed(base)]
  }

  /** Where an answered flush leaves the ledger. */
  function Flushed(l: Ledger, tail: Option<Op>, finish: Finish, base: Db): Ledger {
    match finish
    case KeepOpen => l.(open := l.open + Tail(tail), base := Some(base))
    case Commit => l.(open := [], base := None, done := l.done + [l.open + Tail(tail)])
  }

  lemma ReportsTrue(run: Run, h: seq<Event>, tail: Option<Op>, finish: Finish, last: Option<Response>, base: Db)
    requires Legal(run, h) && !LedgerOf(h).dead && SameBase(LedgerOf(h), base)
    requires Replay(run, base, LedgerOf(h).open + Tail(tail)).Some?
    requires tail.Some? ==> last == Some(AnswerOf(run, base, LedgerOf(h).open + Tail(tail)))
    ensures Legal(run, h + Reports(tail, finish, last, base))
    ensures LedgerOf(h + Reports(tail, finish, last, base)) == Flushed(LedgerOf(h), tail, finish, base)
  {
    if tail.None? {
      assert LedgerOf(h).open + Tail(tail) == LedgerOf(h).open;
      Record(run, h, if finish.Commit? then Committed(base) else Opened(base));
    } else {
      Record(run, h, Applied(tail.value, last.value, base));
      if finish.Commit? {
        CommitTrue(run, h, Applied(tail.value, last.value, base), base);
      }
    }
  }

  lemma CommitTrue(run: Run, h: seq<Event>, told: Event, base: Db)
    requires Legal(run, h + [told]) && LedgerOf(h + [told]) == After(LedgerOf(h), told)
    requires Allowed(run, After(LedgerOf(h), told), Committed(base))
    ensures Legal(run, h + [told, Committed(base)])
    ensures LedgerOf(h + [told, Committed(base)]) == After(After(LedgerOf(h), told), Committed(base))
  {
    assert h + [told] + [Committed(base)] == h + [told, Committed(base)];
    Record(run, h + [told], Committed(base));
  }

  /** The request still held up belongs to the failed call, and can commit nothing but the bundle in doubt. */
  ghost predicate Due(l: Ledger, delayed: Option<Request>, registry: map<TxId, Tx>, committed: seq<seq<Op>>) {
    delayed.Some? ==>
      && l.dead && committed == l.done
      && (delayed.value.finish.Commit? ==> l.doubt.Some? && Carries(delayed.value, registry, l.doubt.value))
  }

  ghost predicate Carries(req: Request, registry: map<TxId, Tx>, bundle: seq<Op>) {
    Finds(registry, req.target) ==> Begun(registry, req.target, 0).ops + req.ops == bundle
  }

  /** The open transaction holds what was flushed, on the ledger's snapshot, as long as the node has it. */
  ghost predicate Follows(l: Ledger, tx: Option<TxId>, flushed: seq<Op>, registry: map<TxId, Tx>) {
    match tx
    case None => flushed == [] && l.base.None?
    case Some(id) =>
      l.base.Some? && (id in registry ==> registry[id].base == l.base.value && registry[id].ops == flushed)
  }

  function TargetOf(tx: Option<TxId>): Target {
    if tx.Some? then Existing(tx.value) else New
  }

  /** The request of a flush: the buffer, the tail appended, to the open transaction or a new one. */
  function RequestOf(tx: Option<TxId>, pending: seq<Op>, tail: Option<Op>, finish: Finish): Request {
    Request(TargetOf(tx), pending + Tail(tail), finish)
  }

  /** What a flush runs on: the snapshot of the open transaction, or, where there is none, the one just
      taken. */
  ghost predicate RunsOn(tx: Option<TxId>, l: Ledger, snapshot: Db, base: Db) {
    if tx.None? then base == snapshot else l.base == Some(base)
  }

  /** Everything accepted ran, and the answer is what the last of it gives there. */
  ghost predicate Told(run: Run, base: Db, ops: seq<Op>, tail: Option<Op>, last: Option<Response>) {
    Replay(run, base, ops).Some? && (tail.Some? ==> ops != [] && last == Some(AnswerOf(run, base, ops)))
  }

  /** How a round trip that goes out ends. */
  ghost predicate Ends<T>(out: Outcome<T>, fate: Fate, granted: bool) {
    match out
    case Ok(_) => fate.Delivered? && granted
    case Refused => fate.Delivered? && !granted
    case Unreachable => !fate.Delivered?
  }

  /** What a failed flush leaves unsettled: the whole bundle, if it was to be committed and no reply came. */
  function Doubt<T>(finish: Finish, out: Outcome<T>, bundle: seq<Op>): Option<seq<Op>> {
    if finish.Commit? && out.Unreachable? then Some(bundle) else None
  }

  /** The request of a flush carries exactly the operations accepted since the last commit, on the same
      snapshot as those before. */
  lemma RequestCarries(l: Ledger, tx: Option<TxId>, flushed: seq<Op>, pending: seq<Op>, tail: seq<Op>,
                       registry: map<TxId, Tx>,
                       snapshot: Db, req: Request)
    requires l.open == flushed + pending && Follows(l, tx, flushed, registry)
    requires req.target == TargetOf(tx) && req.ops == pending + tail
    ensures Carries(req, registry, l.open + tail)
    ensures Finds(registry, req.target) ==>
              SameBase(l, Begun(registry, req.target, snapshot).base)
                && Begun(registry, req.target, snapshot).ops + req.ops == l.open + tail
  {
  }

  lemma FailureKeeps(run: Run, h: seq<Event>, req: Request, out: Outcome<Reply>, bundle: seq<Op>, was: map<TxId, Tx>,
                     server: Server)
    requires Legal(run, h) && !LedgerOf(h).dead && LedgerOf(h).open <= bundle && Carries(req, was, bundle)
    requires out.Refused? ==> server.committed == LedgerOf(h).done
    requires out.Unreachable? ==> InDoubt(req, was, LedgerOf(h).done, server.committed)
    requires server.delayed.Some? ==>
             out.Unreachable? && server.delayed == Some(req) && server.registry == was
               && server.committed == LedgerOf(h).done
    requires !out.Ok?
    ensures var g := h + [Failed(Doubt(req.finish, out, bundle))];
            && Legal(run, g) && LedgerOf(g) == After(LedgerOf(h), Failed(Doubt(req.finish, out, bundle)))
            && Durable(LedgerOf(g), server.committed)
            && Due(LedgerOf(g), server.delayed, server.registry, server.committed)
  {
    Record(run, h, Failed(Doubt(req.finish, out, bundle)));
  }

  /** What the node now holds is what the ledger says. */
  lemma AnswerFollowed(run: Run, l: Ledger, req: Request, tail: Option<Op>, reply: Reply, snapshot: Db,
                       was: map<TxId, Tx>, now: map<TxId, Tx>, next: TxId, committed: seq<seq<Op>>)
    requires Answered(run, req, snapshot, was, now, next, l.done, committed, reply)
    requires Begun(was, req.target, snapshot).ops + req.ops == l.open + Tail(tail)
    ensures var to := Flushed(l, tail, req.finish, Begun(was, req.target, snapshot).base);
            committed == to.done && Follows(to, reply.tx, to.open, now)
  {
  }

  /** An answered flush told the truth, and the node now holds what the ledger says. */
  lemma SuccessKeeps(run: Run, h: seq<Event>, req: Request, tail: Option<Op>, reply: Reply, snapshot: Db,
                     was: map<TxId, Tx>, now: map<TxId, Tx>, next: TxId, committed: seq<seq<Op>>)
    requires Legal(run, h) && !LedgerOf(h).dead
    requires Answered(run, req, snapshot, was, now, next, LedgerOf(h).done, committed, reply)
    requires SameBase(LedgerOf(h), Begun(was, req.target, snapshot).base)
    requires Begun(was, req.target, snapshot).ops + req.ops == LedgerOf(h).open + Tail(tail)
    requires tail.Some? ==> req.ops != []
    ensures tail.Some? ==> reply.last.Some?
    ensures Told(run, Begun(was, req.target, snapshot).base, LedgerOf(h).open + Tail(tail), tail, reply.last)
    ensures var base := Begun(was, req.target, snapshot).base;
            var g := h + Reports(tail, req.finish, reply.last, base);
            && Legal(run, g) && LedgerOf(g) == Flushed(LedgerOf(h), tail, req.finish, base)
            && committed == LedgerOf(g).done
            && Follows(LedgerOf(g), reply.tx, LedgerOf(g).open, now)
  {
    AnswerFollowed(run, LedgerOf(h), req, tail, reply, snapshot, was, now, next, committed);
    ReportsTrue(run, h, tail, req.finish, reply.last, Begun(was, req.target, snapshot).base);
  }

  /** What may still happen behind an application nobody uses any more. */
  datatype Late = Delivery(snapshot: Db, admits: bool, commits: bool) | Expiry(id: TxId)

  /** A transaction being built up one operation at a time. */
  class Application {
    const server: Server
    var tx: Option<TxId>
    var pending: seq<Op>
    var poisoned: bool
    /** `Commit` and `Rollback` take the application away from its owner. */
    var spent: bool
    ghost var flushed: seq<Op>
    ghost var history: seq<Event>

    ghost function Book(): Ledger
      reads this
    {
      LedgerOf(history)
    }

    ghost predicate Alive()
      reads this, server
    {
      && Book().open == flushed + pending
      && Follows(Book(), tx, flushed, server.registry)
      && server.delayed.None? && server.committed == Book().done
    }

    ghost predicate Valid()
      reads this, server
    {
      && server.Valid() && Legal(server.run, history)
      && (poisoned ==> Book().dead && pending == [] && tx == None)
      && (Book().dead ==> poisoned || spent)
      && (!Book().dead ==> Alive())
      && Durable(Book(), server.committed)
      && Due(Book(), server.delayed, server.registry, server.committed)
    }

    constructor (server: Server)
      requires server.Valid() && server.committed == [] && server.delayed.None?
      ensures Valid() && this.server == server && history == [] && !poisoned && !spent && tx == None && pending == []
    {
      this.server := server;
      tx, pending, poisoned, spent, flushed, history := None, [], false, false, [], [];
    }

    predicate IsEmpty()
      reads this
    {
      tx.None? && pending == []
    }

    /** Whether the node would grant a flush that goes out now. */
    ghost predicate Granted(tail: Option<Op>, finish: Finish, snapshot: Db, admits: bool, commits: bool)
      reads this, server
    {
      Grants(server.run, RequestOf(tx, pending, tail, finish), snapshot, server.registry, admits, commits)
    }

    /** Buffers an operation, unless the application is poisoned. */
    method DeferOp(op: Op) returns (out: Outcome<()>)
      requires Valid() && !spent
      modifies this`pending, this`history
      ensures Valid()
      ensures old(poisoned) ==> out == Refused && history == old(history)
      ensures !old(poisoned) ==>
              out == Ok(()) && history == old(history) + [Deferred(op)] && pending == old(pending) + [op]
    {
      if poisoned {
        return Refused;
      }
      Record(server.run, history, Deferred(op));
      history := history + [Deferred(op)];
      pending := pending + [op];
      out := Ok(());
    }

    /** No reply, or a refusal: the application stays poisoned. */
    ghost method Abandon(e: Event)
      requires server.Valid() && poisoned && pending == [] && tx == None
      requires Legal(server.run, history + [e]) && LedgerOf(history + [e]).dead
               && Durable(LedgerOf(history + [e]), server.committed)
      requires Due(LedgerOf(history + [e]), server.delayed, server.registry, server.committed)
      modifies this`history
      ensures Valid() && history == old(history) + [e]
    {
      history := history + [e];
    }

    /** A reply in hand: the application is whole again. */
    method Resume(id: Option<TxId>, ghost told: seq<Event>)
      requires server.Valid() && pending == [] && server.delayed.None?
      requires Legal(server.run, history + told) && !LedgerOf(history + told).dead
               && server.committed == LedgerOf(history + told).done
      requires Follows(LedgerOf(history + told), id, LedgerOf(history + told).open, server.registry)
      modifies this`history, this`flushed, this`poisoned, this`tx
      ensures Valid() && history == old(history) + told && !poisoned && tx == id && pending == []
    {
      history := history + told;
      flushed := Book().open;
      poisoned, tx := false, id;
    }

    /** One round trip: the buffer, the tail appended, against the open transaction or a new one. The
        application is poisoned from before the request goes out until a reply is in hand. */
    method Flush(tail: Option<Op>, finish: Finish, fate: Fate, snapshot: Db, admits: bool, commits: bool)
      returns (out: Outcome<Reply>, ghost base: Db)
      requires Valid() && !spent
      modifies this`tx, this`pending, this`poisoned, this`flushed, this`history, server
      ensures Valid()
      ensures old(poisoned) ==> out == Refused && unchanged(this) && unchanged(server)
      ensures !old(poisoned) ==>
                Ends(out, fate, old(Granted(tail, finish, snapshot, admits, commits)))
      ensures !old(poisoned) && out.Ok? ==>
                && RunsOn(old(tx), old(Book()), snapshot, base)
                && Told(server.run, base, old(Book()).open + Tail(tail), tail, out.value.last)
      ensures !old(poisoned) ==>
                server.delayed == if fate.Delayed? then Some(old(RequestOf(tx, pending, tail, finish))) else None
      ensures !old(poisoned) ==>
                server.committed
                == if finish.Commit? && Arrives(fate) && old(Granted(tail, finish, snapshot, admits, commits))
                   then old(server.committed) + [old(Book()).open + Tail(tail)]
                   else old(server.committed)
      ensures !old(poisoned) && !out.Ok? ==>
                && poisoned && history == old(history) + [Failed(Doubt(finish, out, old(Book()).open + Tail(tail)))]
                && Book() == After(old(Book()), Failed(Doubt(finish, out, old(Book()).open + Tail(tail))))
      ensures !old(poisoned) && out.Ok? ==>
                && !poisoned && tx == out.value.tx && (tx.Some? <==> finish.KeepOpen?)
                  && (tail.Some? ==> out.value.last.Some?)
                && history == old(history) + Reports(tail, finish, out.value.last, base)
                && Book() == Flushed(old(Book()), tail, finish, base) && pending == []
    {
      base := 0;
      if poisoned {
        return Refused, base;
      }
      var req := RequestOf(tx, pending, tail, finish);
      ghost var was, l := server.registry, Book();
      RequestCarries(l, tx, flushed, pending, Tail(tail), was, snapshot, req);
      pending, poisoned, tx := [], true, None;
      out := server.Send(req, fate, snapshot, admits, commits);
      if !out.Ok? {
        FailureKeeps(server.run, history, req, out, l.open + Tail(tail), was, server);
        Abandon(Failed(Doubt(finish, out, l.open + Tail(tail))));
        return out, base;
      }
      base := Begun(was, req.target, snapshot).base;
      SuccessKeeps(server.run, history, req, tail, out.value, snapshot, was, server.registry, old(server.next),
        server.committed);
      Resume(out.value.tx, Reports(tail, finish, out.value.last, base));
    }

    /** The open transaction's id, opening one, and applying what was deferred, where there is none. */
    method NameTx(fate: Fate, snapshot: Db, admits: bool) returns (out: Outcome<TxId>)
      requires Valid() && !spent
      modifies this`tx, this`pending, this`poisoned, this`flushed, this`history, server
      ensures Valid()
      ensures old(poisoned) ==> out == Refused && unchanged(this) && unchanged(server)
      ensures !old(poisoned) && (old(tx).None? || old(pending) != []) ==>
                Ends(out, fate, old(Granted(None, KeepOpen, snapshot, admits, true)))
      ensures old(tx).Some? && old(pending) == [] ==> out.Ok? && unchanged(this) && unchanged(server)
      ensures out.Ok? ==>
                && !poisoned && pending == [] && tx == Some(out.value) && Book().open == old(Book()).open
                && server.committed == old(server.committed)
                && Book().base == if old(tx).None? then Some(snapshot) else old(Book()).base
      ensures !out.Ok? ==> poisoned && server.committed == old(server.committed)
    {
      if tx.Some? && pending == [] {
        return Ok(tx.value);
      }
      var reply, base := Flush(None, KeepOpen, fate, snapshot, admits, true);
      match reply
      case Refused => out := Refused;
      case Unreachable => out := Unreachable;
      case Ok(r) =>
        assert old(Book()).open + [] == old(Book()).open;
        out := Ok(r.tx.value);
    }

    /** Applies what was deferred and this operation last, and returns the operation's answer: the one it
        gives after everything accepted before it. */
    method ApplyOp(op: Op, fate: Fate, snapshot: Db, admits: bool) returns (out: Outcome<Response>, ghost base: Db)
      requires Valid() && !spent
      modifies this`tx, this`pending, this`poisoned, this`flushed, this`history, server
      ensures Valid() && server.committed == old(server.committed)
      ensures old(poisoned) ==> out == Refused && unchanged(this) && unchanged(server)
      ensures !old(poisoned) ==>
                Ends(out, fate, old(Granted(Some(op), KeepOpen, snapshot, admits, true)))
      ensures !old(poisoned) && out.Ok? ==> RunsOn(old(tx), old(Book()), snapshot, base)
      ensures !old(poisoned) && out.Ok? ==> history == old(history) + [Applied(op, out.value, base)]
      ensures !old(poisoned) && out.Ok? ==>
                Replay(server.run, base, old(Book()).open + [op]).Some?
                  && out.value == AnswerOf(server.run, base, old(Book()).open + [op])
      ensures !out.Ok? ==> poisoned
    {
      var reply;
      reply, base := Flush(Some(op), KeepOpen, fate, snapshot, admits, true);
      match reply
      case Refused => out := Refused;
      case Unreachable => out := Unreachable;
      case Ok(r) =>
        out := Ok(r.last.value);
    }

    /** The same in one round trip that commits: this ends the transaction, and the next operation starts
        another. */
    method ApplyAndCommit(op: Op, fate: Fate, snapshot: Db, admits: bool, commits: bool)
      returns (out: Outcome<Response>, ghost base: Db)
      requires Valid() && !spent
      modifies this`tx, this`pending, this`poisoned, this`flushed, this`history, server
      ensures Valid()
      ensures old(poisoned) ==> out == Refused && unchanged(this) && unchanged(server)
      ensures !old(poisoned) ==>
                Ends(out, fate, old(Granted(Some(op), Finish.Commit, snapshot, admits, commits)))
      ensures !old(poisoned) && out.Ok? ==> RunsOn(old(tx), old(Book()), snapshot, base)
      ensures !old(poisoned) && out.Ok? ==>
                Replay(server.run, base, old(Book()).open + [op]).Some?
                  && out.value == AnswerOf(server.run, base, old(Book()).open + [op])
      ensures out.Ok? ==>
                && history == old(history) + [Applied(op, out.value, base), Committed(base)]
                && tx.None? && pending == [] && !poisoned
      ensures !old(poisoned) ==>
                server.delayed == if fate.Delayed? then Some(old(RequestOf(tx, pending, Some(op), Finish.Commit)))
                  else None
      ensures !old(poisoned) ==>
                server.committed
                == if Arrives(fate) && old(Granted(Some(op), Finish.Commit, snapshot, admits, commits))
                   then old(server.committed) + [old(Book()).open + [op]]
                   else old(server.committed)
      ensures !out.Ok? ==> poisoned
      ensures !old(poisoned) && !out.Ok? ==>
                history == old(history) + [Failed(if out.Refused? then None else Some(old(Book()).open + [op]))]
    {
      var reply;
      reply, base := Flush(Some(op), Finish.Commit, fate, snapshot, admits, commits);
      match reply
      case Refused => out := Refused;
      case Unreachable => out := Unreachable;
      case Ok(r) =>
        out := Ok(r.last.value);
    }

    /** Applies whatever is left and commits: everything accepted since the last commit, or nothing. */
    method Commit(fate: Fate, snapshot: Db, admits: bool, commits: bool) returns (out: Outcome<()>)
      requires Valid() && !spent
      modifies this, server
      ensures Valid() && spent
      ensures old(poisoned) ==> out == Refused && unchanged(server)
      ensures !old(poisoned) && old(tx).None? && old(pending) == [] ==> out.Ok? && unchanged(server)
      ensures !old(poisoned) && (old(tx).Some? || old(pending) != []) ==>
                Ends(out, fate, old(Granted(None, Finish.Commit, snapshot, admits, commits)))
      ensures !old(poisoned) && (old(tx).Some? || old(pending) != []) ==>
                server.committed
                == if Arrives(fate) && old(Granted(None, Finish.Commit, snapshot, admits, commits))
                   then old(server.committed) + [old(Book()).open]
                   else old(server.committed)
      ensures !old(poisoned) && out.Ok? && old(Book()).open != [] ==>
                server.committed == old(server.committed) + [old(Book()).open]
      ensures !old(poisoned) && out.Unreachable? ==>
              Book().done == old(Book()).done && Book().doubt == Some(old(Book()).open)
    {
      if poisoned {
        spent := true;
        return Refused;
      }
      if IsEmpty() {
        spent := true;
        return Ok(());
      }
      assert Book().open + [] == Book().open;
      var reply, base := Flush(None, Finish.Commit, fate, snapshot, admits, commits);
      Spend();
      match reply
      case Refused => out := Refused;
      case Unreachable => out := Unreachable;
      case Ok(_) => out := Ok(());
    }

    /** The owner has let go of the application, with no transaction open. */
    method Spend()
      requires Valid() && tx == None
      modifies this`spent, this`tx
      ensures Valid() && spent && tx == None && Book() == old(Book())
    {
      spent, tx := true, None;
    }

    /** Abandons the application. Nothing open becomes durable, but an Ok says nothing about a bundle whose
        commit was never answered: what is durable is settled exactly when none is in doubt. */
    method Rollback(fate: Fate) returns (out: Outcome<()>)
      requires Valid() && !spent
      modifies this, server`registry
      ensures Valid() && spent && pending == [] && tx == None && server.committed == old(server.committed)
      ensures history == if old(poisoned) then old(history) else old(history) + [RolledBack]
      ensures !old(poisoned) ==> Book().doubt.None?
      ensures Book().doubt.None? ==> server.committed == Book().done
      ensures server.delayed == old(server.delayed)
      ensures old(poisoned) || old(tx).None? ==> out.Ok? && server.registry == old(server.registry)
      ensures !old(poisoned) && old(tx).Some? ==> Ends(out, fate, old(tx).value in old(server.registry))
      ensures !old(poisoned) && old(tx).Some? && out.Ok? ==> old(tx).value !in server.registry
    {
      spent := true;
      if poisoned {
        pending, tx := [], None;
        return Ok(());
      }
      LiveHasNoDoubt(server.run, history);
      Record(server.run, history, RolledBack);
      history := history + [RolledBack];
      var id := tx;
      pending, tx := [], None;
      if id.None? {
        return Ok(());
      }
      if fate == RequestLost || fate == Delayed {
        return Unreachable;
      }
      var ok := server.HandleRollback(id.value);
      if fate == ReplyLost {
        return Unreachable;
      }
      out := if ok then Ok(()) else Refused;
    }

    /** The network delivers the request it held up, to nobody's benefit: at most the bundle in doubt is
        committed, at most once. */
    method Deliver(snapshot: Db, admits: bool, commits: bool)
      requires Valid() && server.delayed.Some?
      modifies server
      ensures Valid() && server.delayed.None? && old(server.committed) == Book().done
      ensures old(server.delayed.value.finish.Commit?) ==> Book().doubt.Some?
      ensures server.committed
              == if old(server.delayed.value.finish.Commit?)
                    && Grants(server.run, old(server.delayed.value), snapshot, old(server.registry), admits, commits)
                 then Book().done + [Book().doubt.value]
                 else Book().done
    {
      var req := server.delayed.value;
      var reply := server.Handle(req, snapshot, admits, commits);
      server.delayed := None;
    }

    /** Whatever the network and the node still do, in any order: what is durable stays as it is, or gains
        the one bundle in doubt. With none in doubt it is what was reported committed, for good. */
    method Linger(lates: seq<Late>)
      requires Valid()
      modifies server
      ensures Valid()
      ensures Book().doubt.None? ==> server.committed == Book().done
      ensures server.committed == old(server.committed)
              || (Book().doubt.Some? && server.committed == Book().done + [Book().doubt.value])
    {
      for i := 0 to |lates|
        invariant Valid()
        invariant server.committed == old(server.committed)
                  || (Book().doubt.Some? && server.committed == Book().done + [Book().doubt.value])
      {
        match lates[i]
        case Expiry(id) => Expire(id);
        case Delivery(snapshot, admits, commits) =>
          if server.delayed.Some? {
            Deliver(snapshot, admits, commits);
          }
      }
    }

    /** The node gives up on an idle transaction. */
    method Expire(id: TxId)
      requires Valid()
      modifies server`registry
      ensures Valid() && server.registry == old(server.registry) - {id}
    {
      server.registry := server.registry - {id};
    }
  }

  /** What no caller can tell: of any live application whose committing flush would be granted, the record
      after an unreachable flush is the same whether the request was lost or only the reply, and the
      bundle is durable in the one case and not in the other. */
  method EitherOutcome(app: Application, tail: Option<Op>, snapshot: Db, arrives: bool)
    requires app.Valid() && !app.spent && !app.poisoned && app.Granted(tail, Commit, snapshot, true, true)
    modifies app, app.server
    ensures app.Valid() && app.poisoned
    ensures app.history == old(app.history) + [Failed(Some(old(app.Book()).open + Tail(tail)))]
    ensures app.Book().doubt == Some(old(app.Book()).open + Tail(tail)) && app.Book().done == old(app.Book()).done
    ensures app.server.committed
            == if arrives then app.Book().done + [old(app.Book()).open + Tail(tail)] else app.Book().done
  {
    var out, base := app.Flush(tail, Commit, if arrives then ReplyLost else RequestLost, snapshot, true, true);
  }

  lemma {:induction false} TotalReplays(run: Run, base: Db, ops: seq<Op>)
    requires forall db, op :: run(db, op).Some?
    ensures Replay(run, base, ops).Some?
  {
    if ops != [] {
      TotalReplays(run, base, ops[..|ops| - 1]);
    }
  }

  lemma LostCommitLedger(a: Op, b: Op)
    ensures LedgerOf([Deferred(a)]) == NOTHING.(open := [a])
    ensures LedgerOf([Deferred(a)] + [Failed(Some([a, b]))]) == NOTHING.(doubt := Some([a, b]), dead := true)
  {
    var h := [Deferred(a)] + [Failed(Some([a, b]))];
    assert h[..1] == [Deferred(a)] && h[..1][..0] == [];
  }

  lemma NewGranted(run: Run, a: Op, b: Op, registry: map<TxId, Tx>)
    requires forall db, op :: run(db, op).Some?
    ensures RequestOf(None, [a], Some(b), Commit) == Request(New, [a, b], Commit)
    ensures Grants(run, Request(New, [a, b], Commit), 0, registry, true, true)
  {
    assert [a] + [b] == [a, b];
    TotalReplays(run, 0, [] + [a, b]);
  }

  /** Defers one operation, then applies and commits another in a round trip that is never answered. */
  method LoseCommit(app: Application, a: Op, b: Op, fate: Fate)
    requires app.Valid() && app.history == [] && !app.poisoned && !app.spent && app.IsEmpty()
    requires Grants(app.server.run, Request(New, [a, b], Commit), 0, app.server.registry, true, true)
    requires fate.ReplyLost? || fate.Delayed?
    modifies app, app.server
    ensures app.Valid() && app.poisoned && !app.spent
    ensures app.Book() == NOTHING.(doubt := Some([a, b]), dead := true)
    ensures app.server.committed == if fate.Delayed? then [] else [[a, b]]
    ensures app.server.delayed == if fate.Delayed? then Some(Request(New, [a, b], Commit)) else None
  {
    LostCommitLedger(a, b);
    assert RequestOf(None, [a], Some(b), Commit) == Request(New, [a, b], Commit);
    var deferred := app.DeferOp(a);
    assert app.history == [Deferred(a)] && app.Book() == NOTHING.(open := [a]);
    var applied, base := app.ApplyAndCommit(b, fate, 0, true, true);
  }

  /** An Ok rollback with a commit in doubt: the bundle is durable all the same, already or once the request
      gets through. */
  method OkRollbackOfDurable(a: Op, b: Op, late: bool) returns (out: Outcome<()>, committed: seq<seq<Op>>)
    ensures out.Ok? && committed == [[a, b]]
  {
    var server := new Server((db: Db, op: Op) => Some((db, op)));
    var app := new Application(server);
    NewGranted(server.run, a, b, server.registry);
    LoseCommit(app, a, b, if late then Delayed else ReplyLost);
    out := app.Rollback(Delivered);
    if late {
      NewGranted(server.run, a, b, server.registry);
      app.Deliver(0, true, true);
    }
    committed := server.committed;
  }
}
