/** The observer-local lease staleness tracker (swarm/cell-protocol/src/supervision.rs). */
module Leases {
  import opened Basics

  type RuntimeId = nat

  datatype Observed = Observed(id: RuntimeId, sequence: nat, advancedAt: nat, ttl: nat)

  datatype LeaseRead = Ok(sequence: nat, ttl: nat) | Absent | Failed

  /** What the observer has seen: one lease of a node at a tick of its own clock, or a node dropped. */
  datatype Event =
    | Saw(id: RuntimeId, sequence: nat, ttl: nat, now: nat)
    | Dropped(id: RuntimeId)

  predicate Resets(e: Event, id: RuntimeId) {
    e == Dropped(id)
  }

  predicate IsSight(e: Event, id: RuntimeId) {
    e.Saw? && e.id == id
  }

  function AsObserved(e: Event): Observed
    requires e.Saw?
  {
    Observed(e.id, e.sequence, e.now, e.ttl)
  }

  /** What the history says of a node: the sight that last advanced its sequence number. */
  function Latest(h: seq<Event>, id: RuntimeId): Option<Observed> {
    if h == [] then None
    else
      var e, before := h[|h| - 1], Latest(h[..|h| - 1], id);
      if Resets(e, id) then None
      else if IsSight(e, id) && (before.None? || before.value.sequence < e.sequence) then Some(AsObserved(e))
      else before
  }

  /** The history since the node was last dropped. */
  function Since(h: seq<Event>, id: RuntimeId): seq<Event> {
    if h == [] || Resets(h[|h| - 1], id) then [] else Since(h[..|h| - 1], id) + [h[|h| - 1]]
  }

  /** Position `i` is where the node's highest sequence number was first seen. */
  ghost predicate FirstOfHighest(h: seq<Event>, id: RuntimeId, i: nat) {
    && i < |h| && IsSight(h[i], id)
    && (forall j :: 0 <= j < i && IsSight(h[j], id) ==> h[j].sequence < h[i].sequence)
    && (forall j :: i < j < |h| && IsSight(h[j], id) ==> h[j].sequence <= h[i].sequence)
  }

  /** A node is unknown exactly when it has not been seen since it was last dropped. */
  lemma {:induction false} UnknownMeans(h: seq<Event>, id: RuntimeId)
    ensures Latest(h, id).None? <==> forall e :: e in Since(h, id) ==> !IsSight(e, id)
  {
    if h != [] {
      UnknownMeans(h[..|h| - 1], id);
    }
  }

  /** The tracked lease is the first sight of the highest sequence number since the last drop. */
  lemma {:induction false} LatestMeans(h: seq<Event>, id: RuntimeId) returns (i: nat)
    requires Latest(h, id).Some?
    ensures FirstOfHighest(Since(h, id), id, i)
    ensures Latest(h, id).value == AsObserved(Since(h, id)[i])
  {
    var rest, e := h[..|h| - 1], h[|h| - 1];
    var before := Latest(rest, id);
    if before.Some? {
      i := LatestMeans(rest, id);
      if IsSight(e, id) && before.value.sequence < e.sequence {
        i := |Since(rest, id)|;
      }
    } else {
      UnknownMeans(rest, id);
      i := |Since(rest, id)|;
    }
  }

  /** Whether the history makes a node's lease stale past the ttl that lease declared. */
  predicate Stale(h: seq<Event>, id: RuntimeId, now: nat) {
    Latest(h, id).Some? && SatSub(now, Latest(h, id).value.advancedAt) > Latest(h, id).value.ttl
  }

  /** A node has only one such sight. */
  lemma FirstIsOne(h: seq<Event>, id: RuntimeId, i: nat, j: nat)
    requires FirstOfHighest(h, id, i) && FirstOfHighest(h, id, j)
    ensures i == j
  {
  }

  /** By the sights themselves: a lease is stale exactly when its highest sequence number since the last drop
      was first seen more than that lease's own ttl ago. */
  lemma StaleIff(h: seq<Event>, id: RuntimeId, now: nat)
    ensures Stale(h, id, now)
            <==> exists i: nat :: FirstOfHighest(Since(h, id), id, i) && Since(h, id)[i].now + Since(h, id)[i].ttl < now
  {
    var since := Since(h, id);
    if Latest(h, id).Some? {
      var i := LatestMeans(h, id);
      forall j: nat | FirstOfHighest(since, id, j) ensures i == j {
        FirstIsOne(since, id, i, j);
      }
    } else {
      UnknownMeans(h, id);
      assert forall j :: 0 <= j < |since| ==> since[j] in since;
    }
  }

  /** Staleness errs late: if every lease was written no later than any sight of it, then a lease
      judged stale was written more than its ttl ago. */
  lemma StaleErrsLate(h: seq<Event>, id: RuntimeId, now: nat, written: nat -> nat)
    requires forall e :: e in Since(h, id) && IsSight(e, id) ==> written(e.sequence) <= e.now
    requires Stale(h, id, now)
    ensures exists i: nat ::
              FirstOfHighest(Since(h, id), id, i) && written(Since(h, id)[i].sequence) + Since(h, id)[i].ttl < now
  {
    var i := LatestMeans(h, id);
    assert Since(h, id)[i] in Since(h, id);
  }

  function Find(seen: seq<Observed>, id: RuntimeId): (o: Option<Observed>)
    ensures o.Some? ==> o.value in seen && o.value.id == id
    ensures o.None? ==> forall k :: k in seen ==> k.id != id
  {
    if seen == [] then None else if seen[0].id == id then Some(seen[0]) else Find(seen[1..], id)
  }

  function Without(seen: seq<Observed>, id: RuntimeId): seq<Observed> {
    if seen == [] then [] else if seen[0].id == id then Without(seen[1..], id) else [seen[0]] + Without(seen[1..], id)
  }

  ghost predicate Distinct(seen: seq<Observed>) {
    forall i, j :: 0 <= i < j < |seen| ==> seen[i].id != seen[j].id
  }

  ghost predicate Tracks(seen: seq<Observed>, h: seq<Event>) {
    Distinct(seen) && forall id :: Find(seen, id) == Latest(h, id)
  }

  lemma {:induction false} FindAt(seen: seq<Observed>, i: nat)
    requires Distinct(seen) && i < |seen|
    ensures Find(seen, seen[i].id) == Some(seen[i])
  {
    if i > 0 {
      FindAt(seen[1..], i - 1);
    }
  }

  lemma {:induction false} FindAppend(seen: seq<Observed>, o: Observed, id: RuntimeId)
    ensures Find(seen + [o], id) == if Find(seen, id).Some? then Find(seen, id) else if o.id == id then Some(o)
            else None
  {
    if seen != [] {
      FindAppend(seen[1..], o, id);
      assert (seen + [o])[1..] == seen[1..] + [o];
    }
  }

  lemma {:induction false} FindUpdate(seen: seq<Observed>, i: nat, o: Observed, id: RuntimeId)
    requires Distinct(seen) && i < |seen| && seen[i].id == o.id
    ensures Find(seen[i := o], id) == if id == o.id then Some(o) else Find(seen, id)
  {
    if i > 0 {
      FindUpdate(seen[1..], i - 1, o, id);
      assert seen[i := o][1..] == seen[1..][i - 1 := o];
    }
  }

  lemma {:induction false} FindWithout(seen: seq<Observed>, gone: RuntimeId, id: RuntimeId)
    ensures Find(Without(seen, gone), id) == if id == gone then None else Find(seen, id)
  {
    if seen != [] {
      FindWithout(seen[1..], gone, id);
    }
  }

  lemma {:induction false} WithoutDistinct(seen: seq<Observed>, gone: RuntimeId)
    requires Distinct(seen)
    ensures Distinct(Without(seen, gone)) && forall o :: o in Without(seen, gone) ==> o in seen
  {
    if seen != [] {
      WithoutDistinct(seen[1..], gone);
      forall o | o in Without(seen[1..], gone) ensures o.id != seen[0].id && o in seen {
        var k :| 0 <= k < |seen[1..]| && seen[1..][k] == o;
        assert seen[k + 1] == o;
      }
    }
  }

  lemma LatestStep(h: seq<Event>, e: Event, id: RuntimeId)
    ensures Latest(h + [e], id)
            == if Resets(e, id) then None
               else if IsSight(e, id) && (Latest(h, id).None? || Latest(h, id).value.sequence < e.sequence)
                 then Some(AsObserved(e))
               else Latest(h, id)
  {
  }

  class LeaseTracker {
    var seen: seq<Observed>
    ghost var history: seq<Event>

    ghost predicate Valid()
      reads this
    {
      Tracks(seen, history)
    }

    constructor ()
      ensures Valid() && history == []
    {
      seen, history := [], [];
    }

    /** Records one lease-scan result for a node. */
    method Observe(id: RuntimeId, sequence: nat, ttl: nat, now: nat)
      requires Valid()
      modifies this
      ensures Valid() && history == old(history) + [Saw(id, sequence, ttl, now)]
    {
      ghost var e := Saw(id, sequence, ttl, now);
      for i := 0 to |seen|
        invariant seen == old(seen) && history == old(history)
        invariant forall k :: 0 <= k < i ==> seen[k].id != id
      {
        if seen[i].id == id {
          FindAt(seen, i);
          if sequence > seen[i].sequence {
            seen := seen[i := Observed(id, sequence, now, ttl)];
          }
          forall n ensures Find(seen, n) == Latest(history + [e], n) {
            LatestStep(history, e, n);
            FindUpdate(old(seen), i, Observed(id, sequence, now, ttl), n);
          }
          history := history + [e];
          return;
        }
      }
      seen := seen + [Observed(id, sequence, now, ttl)];
      forall n ensures Find(seen, n) == Latest(history + [e], n) {
        LatestStep(history, e, n);
        FindAppend(old(seen), Observed(id, sequence, now, ttl), n);
      }
      history := history + [e];
    }

    /** An unknown node is never expired; a known one is when its last advance is older than its ttl. */
    method IsExpired(id: RuntimeId, now: nat) returns (expired: bool)
      requires Valid()
      ensures expired <==> Stale(history, id, now)
    {
      var o := Find(seen, id);
      expired := o.Some? && SatSub(now, o.value.advancedAt) > o.value.ttl;
    }

    method StaleFor(id: RuntimeId, now: nat) returns (age: Option<nat>)
      requires Valid()
      ensures age.Some? <==> Latest(history, id).Some?
      ensures age.Some? ==> age.value == SatSub(now, Latest(history, id).value.advancedAt)
    {
      var o := Find(seen, id);
      age := if o.Some? then Some(SatSub(now, o.value.advancedAt)) else None;
    }

    method TtlOf(id: RuntimeId) returns (ttl: Option<nat>)
      requires Valid()
      ensures ttl.Some? <==> Latest(history, id).Some?
      ensures ttl.Some? ==> ttl.value == Latest(history, id).value.ttl
    {
      var o := Find(seen, id);
      ttl := if o.Some? then Some(o.value.ttl) else None;
    }

    /** Folds one point read in and judges the node against the edge's grace, or its own ttl. */
    method JudgeRead(id: RuntimeId, read: LeaseRead, grace: Option<nat>, now: nat) returns (stale: Option<bool>)
      requires Valid()
      modifies this
      ensures Valid()
      ensures history == if read.Ok? then old(history) + [Saw(id, read.sequence, read.ttl, now)] else old(history)
      ensures stale.None? <==> read.Absent?
      ensures stale.Some? ==>
                (stale.value <==> Latest(history, id).Some?
                                  && SatSub(now, Latest(history, id).value.advancedAt)
                                     > grace.Or(Latest(history, id).value.ttl))
    {
      match read {
        case Ok(sequence, ttl) => Observe(id, sequence, ttl, now);
        case Absent => return None;
        case Failed =>
      }
      var ttl := TtlOf(id);
      var tolerance := grace.Or(ttl.Or(U64_MAX));
      var age := StaleFor(id, now);
      return Some(age.Some? && age.value > tolerance);
    }

    /** Every node whose lease has been silent past its declared ttl, each once. */
    method Expired(now: nat) returns (ids: seq<RuntimeId>)
      requires Valid()
      ensures forall id :: id in ids <==> Stale(history, id, now)
      ensures forall i, j :: 0 <= i < j < |ids| ==> ids[i] != ids[j]
    {
      ids := [];
      for i := 0 to |seen|
        invariant forall id :: id in ids <==> Stale(history, id, now) && exists k :: 0 <= k < i && seen[k].id == id
        invariant forall k, j :: 0 <= k < j < |ids| ==> ids[k] != ids[j]
      {
        FindAt(seen, i);
        assert seen[i].id !in ids;
        if SatSub(now, seen[i].advancedAt) > seen[i].ttl {
          ids := ids + [seen[i].id];
        }
      }
    }

    /** Stops tracking a node. */
    method Forget(id: RuntimeId)
      requires Valid()
      modifies this
      ensures Valid() && history == old(history) + [Dropped(id)]
    {
      ghost var e := Dropped(id);
      WithoutDistinct(seen, id);
      forall n ensures Find(Without(seen, id), n) == Latest(history + [e], n) {
        LatestStep(history, e, n);
        FindWithout(seen, id, n);
      }
      seen := Without(seen, id);
      history := history + [e];
    }
  }
}
