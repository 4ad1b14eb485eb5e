/** Which mailbox commands a read must not hand out again (swarm/cell-mailbox/src/command.rs). */
module Dispatching {
  import opened Basics

  type Id = nat

  /** Milliseconds of a monotonic clock. */
  type Instant = nat

  datatype Settlement = Consumed | Retry

  const OUTSTANDING_TIMEOUT: nat := 30_000
  const CONSUMED_MEMORY: nat := 30_000
  const CONSUMED_CAPACITY: nat := 8192

  /** The life of the bookkeeping: hand-outs, reported outcomes, and tombstones let go, each with the
      number of newer tombstones that stood behind it. */
  datatype Event =
    | Handed(id: Id, at: Instant)
    | Settled(id: Id, settlement: Settlement, at: Instant)
    | Evicted(id: Id, behind: nat, at: Instant)

  /** Where an id stands: not remembered, handed out at a time, or consumed since a time. */
  datatype Status = Free | Out(since: Instant) | Dead(since: Instant)

  function Next(s: Status, e: Event): Status {
    match e
    case Handed(_, at) => Out(at)
    case Settled(_, Retry, _) => if s.Dead? then s else Free
    case Settled(_, Consumed, at) => if s.Dead? then s else Dead(at)
    case Evicted(_, _, _) => Free
  }

  function StatusOf(h: seq<Event>, id: Id): Status {
    if h == [] then Free
    else if h[|h| - 1].id == id then Next(StatusOf(h[..|h| - 1], id), h[|h| - 1])
    else StatusOf(h[..|h| - 1], id)
  }

  /** What the bookkeeping allows: a hand-out of an id that is free or long abandoned, and the
      eviction of a tombstone that is old or has a full queue of newer ones behind it. */
  predicate Allowed(s: Status, e: Event) {
    match e
    case Handed(_, at) => s.Free? || (s.Out? && s.since + OUTSTANDING_TIMEOUT <= at)
    case Settled(_, _, _) => true
    case Evicted(_, behind, at) => s.Dead? && (behind >= CONSUMED_CAPACITY || s.since + CONSUMED_MEMORY <= at)
  }

  /** These other ids are all dead, and none has been so for longer than `id`. */
  ghost predicate NewerDead(h: seq<Event>, id: Id, others: set<Id>) {
    && StatusOf(h, id).Dead? && id !in others
    && forall k :: k in others ==> StatusOf(h, k).Dead? && StatusOf(h, k).since >= StatusOf(h, id).since
  }

  /** There are `n` tombstones of other ids that are no older than that of `id`. */
  ghost predicate Crowd(h: seq<Event>, id: Id, n: nat) {
    exists others :: |others| == n && NewerDead(h, id, others)
  }

  /** A history of the bookkeeping: time never goes back, every event was allowed when it came, and the
      number an eviction gives is the number of newer tombstones there were. */
  ghost predicate Legal(h: seq<Event>) {
    h == [] ||
    (var rest, e := h[..|h| - 1], h[|h| - 1];
     && Legal(rest) && (rest != [] ==> rest[|rest| - 1].at <= e.at) && Allowed(StatusOf(rest, e.id), e)
     && (e.Evicted? ==> Crowd(rest, e.id, e.behind)))
  }

  lemma {:induction false} LegalPrefix(h: seq<Event>, n: nat)
    requires Legal(h) && n <= |h|
    ensures Legal(h[..n])
    decreases |h|
  {
    if n < |h| {
      LegalPrefix(h[..|h| - 1], n);
      assert h[..|h| - 1][..n] == h[..n];
    } else {
      assert h[..n] == h;
    }
  }

  lemma AllowedAt(h: seq<Event>, n: nat)
    requires Legal(h) && n < |h|
    ensures Allowed(StatusOf(h[..n], h[n].id), h[n])
    ensures n > 0 ==> h[n - 1].at <= h[n].at
    ensures h[n].Evicted? ==> Crowd(h[..n], h[n].id, h[n].behind)
  {
    LegalPrefix(h, n + 1);
    assert h[..n + 1][..n] == h[..n];
  }

  lemma {:induction false} EarlierFirst(h: seq<Event>, i: nat, j: nat)
    requires Legal(h) && i <= j < |h|
    ensures h[i].at <= h[j].at
    decreases j
  {
    if i < j {
      EarlierFirst(h, i, j - 1);
      AllowedAt(h, j);
    }
  }

  /** Between two hand-outs at `i` and `j`: the command was reported for a retry, or it was reported
      consumed and its tombstone was pushed out with at least a full queue of newer ones standing. */
  ghost predicate Excused(h: seq<Event>, id: Id, i: nat, j: nat) {
    || (exists k :: i < k < j && k < |h| && h[k].Settled? && h[k].id == id && h[k].settlement == Retry)
    || PushedOut(h, id, i, j)
  }

  ghost predicate PushedOut(h: seq<Event>, id: Id, i: nat, j: nat) {
    exists k, m :: i < k < m < j && ConsumedAt(h, id, k) && CrowdedOut(h, id, m)
  }

  /** Position `m` evicts the tombstone of `id` while at least a full queue of 8192 newer ones stands. */
  ghost predicate CrowdedOut(h: seq<Event>, id: Id, m: nat) {
    && m < |h| && h[m].Evicted? && h[m].id == id
    && h[m].behind >= 8192 && Crowd(h[..m], id, h[m].behind)
  }

  ghost predicate ConsumedAt(h: seq<Event>, id: Id, k: nat) {
    k < |h| && h[k].Settled? && h[k].id == id && h[k].settlement == Consumed
  }

  /** The state an unexcused hand-out leaves an id in, as long as less than the timeout has passed. */
  ghost predicate Trailing(h: seq<Event>, id: Id, i: nat, n: nat)
    requires i < n <= |h|
  {
    var s := StatusOf(h[..n], id);
    || s == Out(h[i].at)
    || (s.Dead? && s.since >= h[i].at && exists k :: i < k < n && ConsumedAt(h, id, k))
  }

  lemma StatusStep(h: seq<Event>, id: Id, n: nat)
    requires n < |h|
    ensures StatusOf(h[..n + 1], id) == if h[n].id == id then Next(StatusOf(h[..n], id), h[n]) else StatusOf(h[..n], id)
  {
    assert h[..n + 1][..n] == h[..n];
  }

  lemma ExcuseLasts(h: seq<Event>, id: Id, i: nat, n: nat)
    ensures Excused(h, id, i, n) ==> Excused(h, id, i, n + 1)
  {
  }

  lemma TrailSkip(h: seq<Event>, id: Id, i: nat, n: nat)
    requires i < n < |h| && h[n].id != id && Trailing(h, id, i, n)
    ensures Trailing(h, id, i, n + 1)
  {
    StatusStep(h, id, n);
  }

  lemma {:induction false} Trail(h: seq<Event>, id: Id, i: nat, n: nat)
    requires Legal(h) && i < n <= |h| && h[i].Handed? && h[i].id == id
    requires h[n - 1].at < h[i].at + OUTSTANDING_TIMEOUT
    requires !Excused(h, id, i, n)
    ensures Trailing(h, id, i, n)
  {
    if n == i + 1 {
      StatusStep(h, id, i);
    } else {
      ExcuseLasts(h, id, i, n - 1);
      EarlierFirst(h, n - 2, n - 1);
      Trail(h, id, i, n - 1);
      if h[n - 1].id == id {
        TrailStep(h, id, i, n - 1);
      } else {
        TrailSkip(h, id, i, n - 1);
      }
    }
  }

  lemma TrailStep(h: seq<Event>, id: Id, i: nat, n: nat)
    requires Legal(h) && i < n < |h| && h[i].Handed? && h[i].id == id && h[n].id == id
    requires h[n].at < h[i].at + OUTSTANDING_TIMEOUT
    requires Trailing(h, id, i, n) && !Excused(h, id, i, n + 1)
    ensures Trailing(h, id, i, n + 1)
  {
    StatusStep(h, id, n);
    var s := StatusOf(h[..n], id);
    AllowedAt(h, n);
    EarlierFirst(h, i, n);
    match h[n] {
      case Handed(_, at) =>
      case Settled(_, settlement, at) =>
        if settlement == Consumed {
          assert ConsumedAt(h, id, n);
        }
      case Evicted(_, behind, at) =>
        var k :| i < k < n && ConsumedAt(h, id, k);
        assert CrowdedOut(h, id, n);
        assert PushedOut(h, id, i, n + 1);
    }
  }

  /** No early redelivery: two hand-outs of one id less than the timeout apart always have an excuse
      between them. */
  lemma NoEarlyRedelivery(h: seq<Event>, id: Id, i: nat, j: nat)
    requires Legal(h) && i < j < |h|
    requires h[i].Handed? && h[j].Handed? && h[i].id == h[j].id == id
    requires h[j].at < h[i].at + OUTSTANDING_TIMEOUT
    ensures Excused(h, id, i, j)
  {
    AllowedAt(h, j);
    if !Excused(h, id, i, j) {
      Trail(h, id, i, j);
    }
  }

  datatype Tombstone = Tombstone(id: Id, at: Instant)

  function IdsOf(queue: seq<Tombstone>): set<Id> {
    if queue == [] then {} else {queue[0].id} + IdsOf(queue[1..])
  }

  /** Oldest first, and no id twice. */
  ghost predicate Fifo(queue: seq<Tombstone>) {
    queue == [] ||
    (queue[0].id !in IdsOf(queue[1..]) && (|queue| > 1 ==> queue[0].at <= queue[1].at) && Fifo(queue[1..]))
  }

  /** Each tombstone of the queue is what the history says of its id. */
  ghost predicate Buried(queue: seq<Tombstone>, h: seq<Event>) {
    queue == [] || (StatusOf(h, queue[0].id) == Dead(queue[0].at) && Buried(queue[1..], h))
  }

  ghost predicate DeadKnown(ids: set<Id>, h: seq<Event>) {
    forall id :: StatusOf(h, id).Dead? ==> id in ids
  }

  /** The outstanding ids are the handed-out ids of the history, except some long abandoned ones. */
  ghost predicate OutLinked(outstanding: map<Id, Instant>, h: seq<Event>, clock: Instant) {
    && (forall id :: id in outstanding ==> StatusOf(h, id) == Out(outstanding[id]))
    && (forall id :: StatusOf(h, id).Out? && id !in outstanding ==>
      StatusOf(h, id).since + OUTSTANDING_TIMEOUT <= clock)
  }

  /** All the bookkeeping's invariants at once. */
  ghost predicate Book(outstanding: map<Id, Instant>, queue: seq<Tombstone>, ids: set<Id>, h: seq<Event>,
                       clock: Instant)
  {
    && Fifo(queue) && ids == IdsOf(queue) && Buried(queue, h) && DeadKnown(ids, h)
    && OutLinked(outstanding, h, clock) && Legal(h)
    && (h != [] ==> h[|h| - 1].at <= clock) && (queue != [] ==> queue[|queue| - 1].at <= clock)
  }

  lemma StatusAppend(h: seq<Event>, e: Event, id: Id)
    ensures StatusOf(h + [e], id) == if e.id == id then Next(StatusOf(h, id), e) else StatusOf(h, id)
  {
    assert (h + [e])[..|h|] == h;
  }

  lemma LegalAppend(h: seq<Event>, e: Event)
    requires Legal(h) && Allowed(StatusOf(h, e.id), e) && (h != [] ==> h[|h| - 1].at <= e.at)
    requires e.Evicted? ==> Crowd(h, e.id, e.behind)
    ensures Legal(h + [e])
  {
    assert (h + [e])[..|h|] == h;
  }

  lemma {:induction false} QueueAppend(queue: seq<Tombstone>, t: Tombstone, h: seq<Event>)
    requires Fifo(queue) && t.id !in IdsOf(queue) && (queue != [] ==> queue[|queue| - 1].at <= t.at)
    requires Buried(queue, h) && StatusOf(h, t.id) == Dead(t.at)
    ensures Fifo(queue + [t]) && Buried(queue + [t], h) && IdsOf(queue + [t]) == IdsOf(queue) + {t.id}
  {
    if queue != [] {
      QueueAppend(queue[1..], t, h);
      assert (queue + [t])[1..] == queue[1..] + [t];
    }
  }

  lemma {:induction false} BuriedKept(queue: seq<Tombstone>, h: seq<Event>, e: Event)
    requires Buried(queue, h) && forall id :: id in IdsOf(queue) ==> StatusOf(h + [e], id) == StatusOf(h, id)
    ensures Buried(queue, h + [e])
  {
    if queue != [] {
      BuriedKept(queue[1..], h, e);
    }
  }

  lemma {:induction false} BuriedSince(queue: seq<Tombstone>, h: seq<Event>, id: Id)
    requires Fifo(queue) && Buried(queue, h) && id in IdsOf(queue)
    ensures StatusOf(h, id).Dead? && StatusOf(h, id).since >= queue[0].at
  {
    if id != queue[0].id {
      BuriedSince(queue[1..], h, id);
    }
  }

  lemma {:induction false} IdsCount(queue: seq<Tombstone>)
    requires Fifo(queue)
    ensures |IdsOf(queue)| == |queue|
  {
    if queue != [] {
      IdsCount(queue[1..]);
    }
  }

  /** The tombstones behind the front one are as many as they are long, and newer. */
  lemma QueueCrowds(queue: seq<Tombstone>, h: seq<Event>)
    requires Fifo(queue) && Buried(queue, h) && queue != []
    ensures Crowd(h, queue[0].id, |queue| - 1)
  {
    var others := IdsOf(queue[1..]);
    IdsCount(queue[1..]);
    forall k | k in others
      ensures StatusOf(h, k).Dead? && StatusOf(h, k).since >= queue[0].at
    {
      BuriedSince(queue, h, k);
    }
    assert |others| == |queue| - 1 && NewerDead(h, queue[0].id, others);
  }

  predicate Withheld(outstanding: map<Id, Instant>, ids: set<Id>, id: Id, now: Instant) {
    id in ids || (id in outstanding && SatSub(now, outstanding[id]) < OUTSTANDING_TIMEOUT)
  }

  /** What is withheld, by the history: what was consumed and not let go since, and what was handed out less
      than half a minute ago. */
  lemma WithheldIff(outstanding: map<Id, Instant>, queue: seq<Tombstone>, ids: set<Id>, h: seq<Event>, clock: Instant,
                    id: Id, now: Instant)
    requires Book(outstanding, queue, ids, h, clock) && clock <= now
    ensures Withheld(outstanding, ids, id, now)
            <==> var s := StatusOf(h, id); s.Dead? || (s.Out? && now < s.since + 30_000)
  {
    if id in ids {
      BuriedSince(queue, h, id);
    }
  }

  lemma BookHandOut(outstanding: map<Id, Instant>, queue: seq<Tombstone>, ids: set<Id>, h: seq<Event>, clock: Instant,
                    id: Id, now: Instant)
    requires Book(outstanding, queue, ids, h, clock) && clock <= now && !Withheld(outstanding, ids, id, now)
    ensures Book(outstanding[id := now], queue, ids, h + [Handed(id, now)], now)
  {
    var e := Handed(id, now);
    LegalAppend(h, e);
    forall k ensures StatusOf(h + [e], k) == if k == id then Out(now) else StatusOf(h, k) {
      StatusAppend(h, e, k);
    }
    BuriedKept(queue, h, e);
  }

  /** A report for an id that is already dead, or a retry. */
  lemma BookRetry(outstanding: map<Id, Instant>, queue: seq<Tombstone>, ids: set<Id>, h: seq<Event>, clock: Instant,
                  e: Event)
    requires Book(outstanding, queue, ids, h, clock) && clock <= e.at
    requires e.Settled? && (e.settlement == Retry || e.id in ids)
    ensures Book(outstanding - {e.id}, queue, ids, h + [e], e.at)
  {
    LegalAppend(h, e);
    if e.id in ids {
      BuriedSince(queue, h, e.id);
    }
    forall k ensures StatusOf(h + [e], k) == if k == e.id && !StatusOf(h, k).Dead? then Free else StatusOf(h, k) {
      StatusAppend(h, e, k);
    }
    BuriedKept(queue, h, e);
  }

  lemma BookConsume(outstanding: map<Id, Instant>, queue: seq<Tombstone>, ids: set<Id>, h: seq<Event>, clock: Instant,
                    id: Id, now: Instant)
    requires Book(outstanding, queue, ids, h, clock) && clock <= now && id !in ids
    ensures Book(outstanding - {id}, queue + [Tombstone(id, now)], ids + {id}, h + [Settled(id, Consumed, now)], now)
  {
    var e := Settled(id, Consumed, now);
    LegalAppend(h, e);
    forall k ensures StatusOf(h + [e], k) == if k == id then Dead(now) else StatusOf(h, k) {
      StatusAppend(h, e, k);
    }
    BuriedKept(queue, h, e);
    QueueAppend(queue, Tombstone(id, now), h + [e]);
  }

  lemma BookEvict(outstanding: map<Id, Instant>, queue: seq<Tombstone>, ids: set<Id>, h: seq<Event>, clock: Instant,
                  now: Instant)
    requires Book(outstanding, queue, ids, h, clock) && clock <= now && queue != []
    requires |queue| > CONSUMED_CAPACITY || queue[0].at + CONSUMED_MEMORY <= now
    ensures Book(outstanding, queue[1..], ids - {queue[0].id}, h + [Evicted(queue[0].id, |queue| - 1, now)], now)
  {
    var e := Evicted(queue[0].id, |queue| - 1, now);
    QueueCrowds(queue, h);
    LegalAppend(h, e);
    forall k ensures StatusOf(h + [e], k) == if k == e.id then Free else StatusOf(h, k) {
      StatusAppend(h, e, k);
    }
    BuriedKept(queue[1..], h, e);
  }

  /** The outstanding ids not yet past the abandonment timeout. */
  function Retained(outstanding: map<Id, Instant>, now: Instant): map<Id, Instant> {
    map id | id in outstanding && SatSub(now, outstanding[id]) < OUTSTANDING_TIMEOUT :: outstanding[id]
  }

  lemma BookRetain(outstanding: map<Id, Instant>, queue: seq<Tombstone>, ids: set<Id>, h: seq<Event>, clock: Instant,
                   now: Instant)
    requires Book(outstanding, queue, ids, h, clock) && clock <= now
    ensures Book(Retained(outstanding, now), queue, ids, h, now)
  {
  }

  /** Whether an id is still young enough in its state to be withheld. */
  predicate Recent(s: Status, now: Instant) {
    (s.Out? && now < s.since + OUTSTANDING_TIMEOUT) || (s.Dead? && now < s.since + CONSUMED_MEMORY)
  }

  ghost predicate Quiet(h: seq<Event>, id: Id, now: Instant) {
    forall i :: 0 <= i < |h| && h[i].id == id ==>
      h[i].at + OUTSTANDING_TIMEOUT <= now && h[i].at + CONSUMED_MEMORY <= now
  }

  lemma {:induction false} QuietIsOld(h: seq<Event>, id: Id, now: Instant)
    requires Quiet(h, id, now)
    ensures !Recent(StatusOf(h, id), now)
  {
    if h != [] {
      QuietIsOld(h[..|h| - 1], id, now);
    }
  }

  ghost predicate NothingLingers(outstanding: map<Id, Instant>, ids: set<Id>, h: seq<Event>, now: Instant) {
    forall id :: Withheld(outstanding, ids, id, now) ==> Recent(StatusOf(h, id), now)
  }

  /** An id nothing has been said about for both timeouts is eligible again once a prune has run. */
  lemma QuietIsEligible(outstanding: map<Id, Instant>, ids: set<Id>, h: seq<Event>, id: Id, now: Instant)
    requires NothingLingers(outstanding, ids, h, now) && Quiet(h, id, now)
    ensures !Withheld(outstanding, ids, id, now)
  {
    QuietIsOld(h, id, now);
  }

  lemma PrunedIsRecent(outstanding: map<Id, Instant>, queue: seq<Tombstone>, ids: set<Id>, h: seq<Event>, now: Instant)
    requires Book(outstanding, queue, ids, h, now)
    requires queue != [] ==> now < queue[0].at + CONSUMED_MEMORY
    ensures NothingLingers(outstanding, ids, h, now)
  {
    forall id | Withheld(outstanding, ids, id, now) ensures Recent(StatusOf(h, id), now) {
      if id in ids {
        BuriedSince(queue, h, id);
      }
    }
  }

  ghost predicate OnlyEvictions(events: seq<Event>) {
    forall i :: 0 <= i < |events| ==> events[i].Evicted?
  }

  /** The record of letting the first `n` tombstones go, each with the number behind it. */
  function Evictions(queue: seq<Tombstone>, n: nat, now: Instant): seq<Event>
    requires n <= |queue|
  {
    seq(n, i requires 0 <= i < n => Evicted(queue[i].id, |queue| - 1 - i, now))
  }

  /** The first `n` tombstones of the queue have been let go, and the record says so. */
  ghost predicate Trimmed(queue: seq<Tombstone>, h: seq<Event>, n: nat, now: Instant, left: seq<Tombstone>,
                          g: seq<Event>)
  {
    n <= |queue| && left == queue[n..] && g == h + Evictions(queue, n, now)
  }

  lemma TrimStep(queue: seq<Tombstone>, h: seq<Event>, n: nat, now: Instant, left: seq<Tombstone>, g: seq<Event>)
    requires Trimmed(queue, h, n, now, left, g) && left != []
    ensures Trimmed(queue, h, n + 1, now, left[1..], g + [Evicted(left[0].id, |left| - 1, now)])
  {
    var e := Evicted(left[0].id, |left| - 1, now);
    assert Evictions(queue, n + 1, now) == Evictions(queue, n, now) + [e];
    assert g + [e] == h + (Evictions(queue, n, now) + [e]);
  }

  class Dispatched {
    var outstanding: map<Id, Instant>
    var consumed: seq<Tombstone>
    var consumedIds: set<Id>
    ghost var history: seq<Event>
    ghost var clock: Instant

    ghost predicate Valid()
      reads this
    {
      Book(outstanding, consumed, consumedIds, history, clock)
    }

    constructor ()
      ensures Valid() && history == [] && clock == 0
    {
      outstanding, consumed, consumedIds, history, clock := map[], [], {}, [], 0;
    }

    /** Whether `id` is out with someone, or consumed recently enough that a stale view may show it. */
    predicate Suppresses(id: Id, now: Instant)
      reads this
    {
      Withheld(outstanding, consumedIds, id, now)
    }

    method Dispatch(id: Id, now: Instant)
      requires Valid() && clock <= now && !Suppresses(id, now)
      modifies this
      ensures Valid() && clock == now && history == old(history) + [Handed(id, now)]
      ensures outstanding == old(outstanding)[id := now] && consumed == old(consumed) && consumedIds == old(consumedIds)
    {
      BookHandOut(outstanding, consumed, consumedIds, history, clock, id, now);
      outstanding := outstanding[id := now];
      history := history + [Handed(id, now)];
      clock := now;
    }

    method Settle(id: Id, settlement: Settlement, now: Instant)
      requires Valid() && clock <= now
      modifies this
      ensures Valid() && clock == now && history == old(history) + [Settled(id, settlement, now)]
      ensures outstanding == old(outstanding) - {id}
      ensures consumedIds == if settlement == Consumed then old(consumedIds) + {id} else old(consumedIds)
      ensures consumed == if settlement == Consumed && id !in old(consumedIds) then old(consumed) + [Tombstone(id, now)]
              else old(consumed)
    {
      ghost var e := Settled(id, settlement, now);
      if settlement == Consumed && id !in consumedIds {
        BookConsume(outstanding, consumed, consumedIds, history, clock, id, now);
        consumedIds := consumedIds + {id};
        consumed := consumed + [Tombstone(id, now)];
      } else {
        BookRetry(outstanding, consumed, consumedIds, history, clock, e);
      }
      outstanding := outstanding - {id};
      history := history + [e];
      clock := now;
    }

    /** Lets the oldest tombstone go. */
    method EvictFront(now: Instant)
      requires Valid() && clock == now && consumed != []
      requires |consumed| > CONSUMED_CAPACITY || SatSub(now, consumed[0].at) >= CONSUMED_MEMORY
      modifies this`consumed, this`consumedIds, this`history
      ensures Valid() && consumed == old(consumed)[1..]
      ensures history == old(history) + [Evicted(old(consumed)[0].id, |old(consumed)| - 1, now)]
    {
      BookEvict(outstanding, consumed, consumedIds, history, clock, now);
      consumedIds := consumedIds - {consumed[0].id};
      history := history + [Evicted(consumed[0].id, |consumed| - 1, now)];
      consumed := consumed[1..];
    }

    /** The same, as one more of a row of evictions. */
    method EvictNext(now: Instant, ghost queue: seq<Tombstone>, ghost h: seq<Event>, ghost n: nat)
      requires Valid() && clock == now && consumed != [] && Trimmed(queue, h, n, now, consumed, history)
      requires |consumed| > CONSUMED_CAPACITY || SatSub(now, consumed[0].at) >= CONSUMED_MEMORY
      modifies this`consumed, this`consumedIds, this`history
      ensures Valid() && Trimmed(queue, h, n + 1, now, consumed, history) && |consumed| < |old(consumed)|
    {
      TrimStep(queue, h, n, now, consumed, history);
      EvictFront(now);
    }

    /** Evicts tombstones, oldest first, while there are too many or the oldest is too old. */
    method EvictStale(now: Instant) returns (ghost n: nat)
      requires Valid() && clock == now
      modifies this`consumed, this`consumedIds, this`history
      ensures Valid() && |consumed| <= CONSUMED_CAPACITY
      ensures consumed != [] ==> now < consumed[0].at + CONSUMED_MEMORY
      ensures Trimmed(old(consumed), old(history), n, now, consumed, history)
    {
      n := 0;
      while consumed != [] && (|consumed| > CONSUMED_CAPACITY || SatSub(now, consumed[0].at) >= CONSUMED_MEMORY)
        invariant Valid()
        invariant Trimmed(old(consumed), old(history), n, now, consumed, history)
        decreases |consumed|
      {
        EvictNext(now, old(consumed), old(history), n);
        n := n + 1;
      }
    }

    /** Forgets tombstones too old or too many, oldest first, and abandoned hand-outs. Afterwards the
        queue is a suffix within capacity, and nothing is withheld past its timeout. The record names every
        tombstone let go with the number behind it, which `Valid()` ties to as many newer ones. */
    method Prune(now: Instant) returns (ghost n: nat)
      requires Valid() && clock <= now
      modifies this
      ensures Valid() && clock == now && outstanding == Retained(old(outstanding), now)
      ensures forall id ::
                id in outstanding <==> id in old(outstanding) && now < old(outstanding)[id] + OUTSTANDING_TIMEOUT
      ensures |consumed| <= 8192 && n <= |old(consumed)| && consumed == old(consumed)[n..]
      ensures history == old(history) + Evictions(old(consumed), n, now)
      ensures NothingLingers(outstanding, consumedIds, history, now)
    {
      BookRetain(outstanding, consumed, consumedIds, history, clock, now);
      outstanding := Retained(outstanding, now);
      clock := now;
      n := EvictStale(now);
      PrunedIsRecent(outstanding, consumed, consumedIds, history, now);
    }
  }
}
