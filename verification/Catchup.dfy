/** Announces and the catch-up plan a receiver draws from one (swarm/db/src/replication.rs). */
module Catchup {
  import opened Basics
  import opened SyncPoints
  import opened Fingerprint

  /** One scope's announced inventory. Heads at or below the baseline, in both timestamp and epoch,
      are left out of `heads` and folded into `fingerprint`. */
  datatype ScopeAnnounce = ScopeAnnounce(baseline: Option<nat>, fingerprint: bv64, heads: Frontier)

  predicate Elides(cut: nat, ts: nat, h: Head) {
    ts <= cut && h.epoch <= cut
  }

  function Elided(f: Frontier, cut: nat): Frontier {
    map ts | ts in f && Elides(cut, ts, f[ts]) :: f[ts]
  }

  function Explicit(f: Frontier, cut: nat): Frontier {
    map ts | ts in f && !Elides(cut, ts, f[ts]) :: f[ts]
  }

  /** The announce of frontier `f` cut at `cut`, or its full announce. */
  ghost function Announced(fp: Digest, f: Frontier, cut: Option<nat>): ScopeAnnounce {
    match cut
    case None => ScopeAnnounce(None, 0, f)
    case Some(c) => ScopeAnnounce(cut, Fold(fp, Elided(f, c)), Explicit(f, c))
  }

  /** `cut` is the baseline `send_announce` settles on: the lag cut, capped at the newest head held,
      so that it never vouches for a version the sender has not seen. */
  ghost predicate CutFor(f: Frontier, lagCut: Option<nat>, cut: Option<nat>) {
    if lagCut.None? || f == map[] then cut.None?
    else exists newest :: IsGreatest(f.Keys, newest) && cut == Some(Min(newest, lagCut.value))
  }

  lemma FoldTail(fp: Digest, done: Frontier, ts: nat, h: Head, cut: nat)
    requires ts !in done
    ensures Elides(cut, ts, h) ==> Fold(fp, Elided(done[ts := h], cut)) == Xor(Fold(fp, Elided(done, cut)), fp(ts, h))
    ensures !Elides(cut, ts, h) ==> Elided(done[ts := h], cut) == Elided(done, cut)
    ensures !Elides(cut, ts, h) ==> Explicit(done[ts := h], cut) == Explicit(done, cut)[ts := h]
    ensures Elides(cut, ts, h) ==> Explicit(done[ts := h], cut) == Explicit(done, cut)
  {
    if Elides(cut, ts, h) {
      assert Elided(done[ts := h], cut) == Elided(done, cut)[ts := h];
      FoldExtend(fp, Elided(done, cut), ts, h);
    }
  }

  /** `rest` is what an ascending walk of `all` has yet to visit, `done` what it has. */
  ghost predicate Walk(all: Frontier, done: Frontier, rest: Frontier) {
    && all == done + rest
    && done.Keys !! rest.Keys
    && (forall a, b :: a in done && b in rest ==> a < b)
  }

  lemma WalkStep(all: Frontier, done: Frontier, rest: Frontier, ts: nat)
    requires Walk(all, done, rest) && IsLeast(rest.Keys, ts)
    ensures Walk(all, done[ts := rest[ts]], rest - {ts})
    ensures ts in all && all[ts] == rest[ts] && ts !in done
  {
  }

  /** Builds one scope's announce. */
  method BuildAnnounce(fp: Digest, f: Frontier, lagCut: Option<nat>) returns (sa: ScopeAnnounce)
    ensures CutFor(f, lagCut, sa.baseline)
    ensures sa == Announced(fp, f, sa.baseline)
  {
    if lagCut.None? || f == map[] {
      return ScopeAnnounce(None, 0, f);
    }
    assert f.Keys != {};
    GreatestExists(f.Keys);
    var newest :| newest in f.Keys && forall k :: k in f.Keys ==> k <= newest;
    assert IsGreatest(f.Keys, newest);
    var c := Min(newest, lagCut.value);
    var fingerprint: bv64 := 0;
    var heads: Frontier := map[];
    var rest := f;
    ghost var done: Frontier := map[];
    assert Elided(done, c) == map[] && Explicit(done, c) == map[];
    while rest.Keys != {}
      invariant Walk(f, done, rest)
      invariant fingerprint == Fold(fp, Elided(done, c))
      invariant heads == Explicit(done, c)
      decreases rest.Keys
    {
      LeastExists(rest.Keys);
      var ts :| ts in rest.Keys && forall k :: k in rest.Keys ==> ts <= k;
      var h := rest[ts];
      WalkStep(f, done, rest, ts);
      FoldTail(fp, done, ts, h, c);
      if Elides(c, ts, h) {
        fingerprint := Xor(fingerprint, fp(ts, h));
      } else {
        heads := heads[ts := h];
      }
      done := done[ts := h];
      rest := rest - {ts};
    }
    assert done == f;
    sa := ScopeAnnounce(Some(c), fingerprint, heads);
  }

  /** Folds the heads an announce cut at `cut` would leave out. */
  method FoldHeadsAtCut(fp: Digest, f: Frontier, cut: nat) returns (acc: bv64)
    ensures acc == Fold(fp, Elided(f, cut))
  {
    acc := 0;
    var rest := f;
    ghost var done: Frontier := map[];
    assert Elided(done, cut) == map[];
    while rest.Keys != {}
      invariant Walk(f, done, rest)
      invariant acc == Fold(fp, Elided(done, cut))
      decreases rest.Keys
    {
      LeastExists(rest.Keys);
      var ts :| ts in rest.Keys && forall k :: k in rest.Keys ==> ts <= k;
      WalkStep(f, done, rest, ts);
      FoldTail(fp, done, ts, rest[ts], cut);
      if Elides(cut, ts, rest[ts]) {
        acc := Xor(acc, fp(ts, rest[ts]));
      }
      done := done[ts := rest[ts]];
      rest := rest - {ts};
    }
    assert done == f;
  }

  datatype Plan =
    | CaughtUp
    | Diverged
    | Behind(sinceTs: Option<nat>, floors: map<nat, nat>)

  /** What a holder leaves out of its answer: a floored version up to its floor, any other version
      up to the cursor. */
  predicate Skips(sinceTs: Option<nat>, floors: map<nat, nat>, ts: nat, epoch: nat) {
    if ts in floors then epoch <= floors[ts] else sinceTs.Some? && ts <= sinceTs.value
  }

  predicate Above(baseline: Option<nat>, ts: nat) {
    baseline.Some? ==> baseline.value < ts
  }

  /** Every explicit head above the baseline, up to and including `ts`, is covered. */
  ghost predicate Intact(ours: Frontier, b: Option<nat>, heads: Frontier, ts: nat) {
    && ts in heads && Above(b, ts)
    && (forall t :: t in heads && Above(b, t) && t <= ts ==> Covers(ours, t, heads[t].epoch))
  }

  ghost predicate AllAboveCovered(ours: Frontier, b: Option<nat>, heads: Frontier) {
    forall t :: t in heads && Above(b, t) ==> Covers(ours, t, heads[t].epoch)
  }

  ghost predicate AllCovered(ours: Frontier, heads: Frontier) {
    forall t :: t in heads ==> Covers(ours, t, heads[t].epoch)
  }

  /** The cursor is the last head of the covered prefix, or the baseline if there is none. */
  ghost predicate IsCursor(ours: Frontier, b: Option<nat>, heads: Frontier, since: Option<nat>) {
    || (since == b && forall t :: t in heads ==> !Intact(ours, b, heads, t))
    || (since.Some? && Intact(ours, b, heads, since.value)
        && forall t :: t in heads && Intact(ours, b, heads, t) ==> t <= since.value)
  }

  /** Floors mark what the cursor gets wrong: a covered head past the first gap, and an uncovered
      epoch spike below the baseline. */
  ghost predicate Floored(ours: Frontier, b: Option<nat>, heads: Frontier, ts: nat)
    requires ts in heads
  {
    if Above(b, ts) then Covers(ours, ts, heads[ts].epoch) && !Intact(ours, b, heads, ts)
    else !Covers(ours, ts, heads[ts].epoch)
  }

  ghost function FloorsOf(ours: Frontier, b: Option<nat>, heads: Frontier): map<nat, nat> {
    map ts | ts in heads && Floored(ours, b, heads, ts) :: if ts in ours then ours[ts].epoch else 0
  }

  /** `plan` is the plan for a receiver holding `ours` against announce `sa`. */
  ghost predicate Planned(fp: Digest, ours: Frontier, sa: ScopeAnnounce, plan: Plan) {
    var b := sa.baseline;
    if b.Some? && Fold(fp, Elided(ours, b.value)) != sa.fingerprint then plan.Diverged?
    else if AllCovered(ours, sa.heads) then plan.CaughtUp?
    else plan.Behind? && IsCursor(ours, b, sa.heads, plan.sinceTs) && plan.floors == FloorsOf(ours, b, sa.heads)
  }

  /** A head past everything seen so far does not change what was said of the earlier ones. */
  lemma IntactStable(ours: Frontier, b: Option<nat>, heads: Frontier, ts: nat, h: Head, t: nat)
    requires forall k :: k in heads ==> k < ts
    requires t in heads
    ensures Intact(ours, b, heads[ts := h], t) <==> Intact(ours, b, heads, t)
  {
  }

  lemma IntactNew(ours: Frontier, b: Option<nat>, heads: Frontier, ts: nat, h: Head)
    requires forall k :: k in heads ==> k < ts
    ensures Intact(ours, b, heads[ts := h], ts)
            <==> Above(b, ts) && Covers(ours, ts, h.epoch) && AllAboveCovered(ours, b, heads)
  {
  }

  lemma FloorsStep(ours: Frontier, b: Option<nat>, heads: Frontier, ts: nat, h: Head)
    requires forall k :: k in heads ==> k < ts
    ensures var more := heads[ts := h];
            FloorsOf(ours, b, more)
            == if Floored(ours, b, more, ts)
               then FloorsOf(ours, b, heads)[ts := if ts in ours then ours[ts].epoch else 0]
               else FloorsOf(ours, b, heads)
  {
    var more := heads[ts := h];
    forall t | t in heads
      ensures Floored(ours, b, more, t) <==> Floored(ours, b, heads, t)
    {
      IntactStable(ours, b, heads, ts, h, t);
    }
  }

  lemma CursorKept(ours: Frontier, b: Option<nat>, heads: Frontier, ts: nat, h: Head, since: Option<nat>)
    requires forall k :: k in heads ==> k < ts
    requires IsCursor(ours, b, heads, since)
    requires !Intact(ours, b, heads[ts := h], ts)
    ensures IsCursor(ours, b, heads[ts := h], since)
  {
    forall t | t in heads
      ensures Intact(ours, b, heads[ts := h], t) <==> Intact(ours, b, heads, t)
    {
      IntactStable(ours, b, heads, ts, h, t);
    }
  }

  lemma CursorMoved(ours: Frontier, b: Option<nat>, heads: Frontier, ts: nat, h: Head)
    requires forall k :: k in heads ==> k < ts
    requires Intact(ours, b, heads[ts := h], ts)
    ensures IsCursor(ours, b, heads[ts := h], Some(ts))
  {
  }

  lemma CoverageStep(ours: Frontier, b: Option<nat>, heads: Frontier, ts: nat, h: Head)
    requires ts !in heads
    ensures AllCovered(ours, heads[ts := h]) <==> AllCovered(ours, heads) && Covers(ours, ts, h.epoch)
    ensures AllAboveCovered(ours, b, heads[ts := h])
            <==> AllAboveCovered(ours, b, heads) && (Above(b, ts) ==> Covers(ours, ts, h.epoch))
  {
    var more := heads[ts := h];
    assert forall t :: t in heads ==> t in more && more[t] == heads[t];
    assert ts in more && more[ts] == h;
  }

  /** What the walk knows after visiting `heads`. */
  ghost predicate Progress(ours: Frontier, b: Option<nat>, heads: Frontier, behind: bool, prefixIntact: bool,
                           since: Option<nat>, floors: map<nat, nat>)
  {
    && (behind <==> !AllCovered(ours, heads))
    && (prefixIntact <==> AllAboveCovered(ours, b, heads))
    && IsCursor(ours, b, heads, since)
    && floors == FloorsOf(ours, b, heads)
  }

  lemma ProgressStep(ours: Frontier, b: Option<nat>, heads: Frontier, behind: bool, prefixIntact: bool,
                     since: Option<nat>, floors: map<nat, nat>, ts: nat, h: Head)
    requires Progress(ours, b, heads, behind, prefixIntact, since, floors)
    requires forall k :: k in heads ==> k < ts
    ensures var fine := Covers(ours, ts, h.epoch);
            var floor := if ts in ours then ours[ts].epoch else 0;
            var floored := if Above(b, ts) then fine && !prefixIntact else !fine;
            Progress(ours, b, heads[ts := h],
                     behind || !fine,
                     prefixIntact && (Above(b, ts) ==> fine),
                     if Above(b, ts) && fine && prefixIntact then Some(ts) else since,
                     if floored then floors[ts := floor] else floors)
  {
    IntactNew(ours, b, heads, ts, h);
    FloorsStep(ours, b, heads, ts, h);
    CoverageStep(ours, b, heads, ts, h);
    if Above(b, ts) && Covers(ours, ts, h.epoch) && prefixIntact {
      CursorMoved(ours, b, heads, ts, h);
    } else {
      CursorKept(ours, b, heads, ts, h, since);
    }
  }

  /** Turns an announce into a plan: walks the explicit heads oldest first, moving the cursor along
      the covered prefix and recording floors where the cursor would mislead the holder. */
  method PlanCatchup(fp: Digest, ours: Option<Frontier>, theirs: ScopeAnnounce) returns (plan: Plan)
    ensures Planned(fp, ours.Or(map[]), theirs, plan)
  {
    var mine := ours.Or(map[]);
    var b := theirs.baseline;
    if b.Some? {
      var fold: bv64 := 0;
      if ours.Some? {
        fold := FoldHeadsAtCut(fp, ours.value, b.value);
      } else {
        assert Elided(mine, b.value) == map[];
      }
      if fold != theirs.fingerprint {
        return Diverged;
      }
    }
    var behind := false;
    var sinceTs := b;
    var floors: map<nat, nat> := map[];
    var prefixIntact := true;
    var rest := theirs.heads;
    ghost var done: Frontier := map[];
    while rest.Keys != {}
      invariant Walk(theirs.heads, done, rest)
      invariant Progress(mine, b, done, behind, prefixIntact, sinceTs, floors)
      decreases rest.Keys
    {
      LeastExists(rest.Keys);
      var ts :| ts in rest.Keys && forall k :: k in rest.Keys ==> ts <= k;
      var theirEpoch := rest[ts].epoch;
      WalkStep(theirs.heads, done, rest, ts);
      ProgressStep(mine, b, done, behind, prefixIntact, sinceTs, floors, ts, rest[ts]);
      var sufficient := ts in mine && mine[ts].epoch >= theirEpoch;
      if b.Some? && ts <= b.value {
        if !sufficient {
          floors := floors[ts := if ts in mine then mine[ts].epoch else 0];
          behind := true;
        }
      } else if sufficient {
        if prefixIntact {
          sinceTs := Some(ts);
        } else {
          floors := floors[ts := mine[ts].epoch];
        }
      } else {
        prefixIntact := false;
        behind := true;
      }
      done := done[ts := rest[ts]];
      rest := rest - {ts};
    }
    assert done == theirs.heads;
    plan := if behind then Behind(sinceTs, floors) else CaughtUp;
  }
}
