/** The child-side fencing decision table (swarm/cell-protocol/src/supervision.rs). The state kept
    between passes is a list of absence streaks; its meaning is a statement about all the evidence
    the passes have seen. */
module Fencing {
  import opened Basics

  type Sri = nat
  type RuntimeId = nat
  type Gen = nat

  datatype RowRead = Ok(exec: RuntimeId, gen: Gen) | Absent | Failed

  datatype Lineage = Lineage(parent: Option<Sri>, parentGen: Option<Gen>, detached: bool)

  datatype WatchedCell = WatchedCell(sri: Sri, gen: Gen, lineage: Lineage)

  datatype Evidence = Evidence(selfRow: RowRead, parentRow: RowRead, parentLeaseExpired: Option<bool>)

  datatype KillWhy = SelfSuperseded | ParentAbsent | ParentSuperseded | ParentNodeDead

  datatype Verdict = Keep | Kill(why: KillWhy)

  datatype WhichRow = SelfRow | ParentRow

  /** What has happened so far: passes over cells with the verdicts they led to, and cells forgotten. */
  datatype Event =
    | Pass(cell: WatchedCell, ev: Evidence, verdict: Verdict)
    | Forgot(sri: Sri)

  function Concerns(e: Event): Sri {
    match e
    case Pass(cell, _, _) => cell.sri
    case Forgot(sri) => sri
  }

  predicate ParentWatched(cell: WatchedCell) {
    cell.lineage.parent.Some? && !cell.lineage.detached
  }

  /** The read of one row a pass took into account; a parent that is not watched gives none. */
  function ReadOf(cell: WatchedCell, ev: Evidence, row: WhichRow): RowRead {
    if row.SelfRow? then ev.selfRow
    else if ParentWatched(cell) then ev.parentRow
    else Failed
  }

  /** An event that ends a streak or starts one for this row of this cell. */
  predicate Settles(e: Event, sri: Sri, row: WhichRow) {
    Concerns(e) == sri && (e.Forgot? || e.verdict.Kill? || !ReadOf(e.cell, e.ev, row).Failed?)
  }

  predicate StartsStreak(e: Event, row: WhichRow) {
    e.Pass? && e.verdict.Keep? && ReadOf(e.cell, e.ev, row).Absent?
  }

  /** The latest read of the row that was evidence, since the last kill or forget, found it absent. */
  function Streak(h: seq<Event>, sri: Sri, row: WhichRow): bool {
    if h == [] then false
    else if Settles(h[|h| - 1], sri, row) then StartsStreak(h[|h| - 1], row)
    else Streak(h[..|h| - 1], sri, row)
  }

  /** Position `i` found the row absent, and nothing since has been evidence about it. */
  ghost predicate StreakFrom(h: seq<Event>, sri: Sri, row: WhichRow, i: nat) {
    && i < |h| && Concerns(h[i]) == sri && StartsStreak(h[i], row)
    && forall j :: i < j < |h| ==> !Settles(h[j], sri, row)
  }

  lemma {:induction false} StreakHasStart(h: seq<Event>, sri: Sri, row: WhichRow) returns (i: nat)
    requires Streak(h, sri, row)
    ensures StreakFrom(h, sri, row, i)
  {
    if Settles(h[|h| - 1], sri, row) {
      i := |h| - 1;
    } else {
      i := StreakHasStart(h[..|h| - 1], sri, row);
    }
  }

  lemma {:induction false} StartMakesStreak(h: seq<Event>, sri: Sri, row: WhichRow, i: nat)
    requires StreakFrom(h, sri, row, i)
    ensures Streak(h, sri, row)
  {
    if i < |h| - 1 {
      StartMakesStreak(h[..|h| - 1], sri, row, i);
    }
  }

  function Only(h: seq<Event>, sri: Sri): seq<Event> {
    if h == [] then []
    else if Concerns(h[|h| - 1]) == sri then Only(h[..|h| - 1], sri) + [h[|h| - 1]]
    else Only(h[..|h| - 1], sri)
  }

  /** A cell's streaks depend on its own events alone. */
  lemma {:induction false} StreaksIndependent(h: seq<Event>, sri: Sri, row: WhichRow)
    ensures Streak(h, sri, row) == Streak(Only(h, sri), sri, row)
  {
    if h != [] {
      StreaksIndependent(h[..|h| - 1], sri, row);
      var mine := Only(h, sri);
      if Concerns(h[|h| - 1]) == sri {
        assert mine[..|mine| - 1] == Only(h[..|h| - 1], sri);
      }
    }
  }

  /** The decision for one pass, from the evidence of this pass and the history before it. */
  function Decide(h: seq<Event>, myExec: RuntimeId, cell: WatchedCell, ev: Evidence): Verdict {
    if ev.selfRow.Ok? && (ev.selfRow.exec != myExec || ev.selfRow.gen != cell.gen) then Kill(SelfSuperseded)
    else if ev.selfRow.Absent? && Streak(h, cell.sri, SelfRow) then Kill(SelfSuperseded)
    else if !ParentWatched(cell) then Keep
    else if ev.parentRow.Ok? && cell.lineage.parentGen.Some? && cell.lineage.parentGen.value != ev.parentRow.gen
      then Kill(ParentSuperseded)
    else if ev.parentRow.Ok? && ev.parentLeaseExpired == Some(true) then Kill(ParentNodeDead)
    else if ev.parentRow.Absent? && Streak(h, cell.sri, ParentRow) then Kill(ParentAbsent)
    else Keep
  }

  /** Cells do not affect each other: the verdict on a cell depends on its own events alone. */
  lemma CellsIndependent(h: seq<Event>, myExec: RuntimeId, cell: WatchedCell, ev: Evidence)
    ensures Decide(h, myExec, cell, ev) == Decide(Only(h, cell.sri), myExec, cell, ev)
  {
    StreaksIndependent(h, cell.sri, SelfRow);
    StreaksIndependent(h, cell.sri, ParentRow);
  }

  /** What a read of one row that fails cannot do: as long as the cell is kept, the row's streak stays as it
      was, and so do all streaks of other cells; and no verdict is about that row. */
  lemma FailedReadsChangeNothing(h: seq<Event>, myExec: RuntimeId, cell: WatchedCell, ev: Evidence, row: WhichRow)
    requires ReadOf(cell, ev, row).Failed?
    ensures var v := Decide(h, myExec, cell, ev);
            && (v.Keep? ==> Streak(h + [Pass(cell, ev, v)], cell.sri, row) == Streak(h, cell.sri, row))
            && (row.SelfRow? ==> v != Kill(SelfSuperseded))
            && (row.ParentRow? ==> v == Keep || v == Kill(SelfSuperseded))
    ensures var v := Decide(h, myExec, cell, ev);
            forall sri, other :: sri != cell.sri ==>
              Streak(h + [Pass(cell, ev, v)], sri, other) == Streak(h, sri, other)
  {
    var e := Pass(cell, ev, Decide(h, myExec, cell, ev));
    assert (h + [e])[..|h|] == h;
  }

  /** Neither does it matter what else is read: the verdict is the one without that row's streak. */
  lemma FailedReadIgnoresStreak(h: seq<Event>, g: seq<Event>, myExec: RuntimeId, cell: WatchedCell, ev: Evidence,
                                row: WhichRow)
    requires ReadOf(cell, ev, row).Failed?
    requires forall other :: other != row ==> Streak(h, cell.sri, other) == Streak(g, cell.sri, other)
    ensures Decide(h, myExec, cell, ev) == Decide(g, myExec, cell, ev)
  {
    if row.SelfRow? {
      assert Streak(h, cell.sri, ParentRow) == Streak(g, cell.sri, ParentRow);
    } else {
      assert Streak(h, cell.sri, SelfRow) == Streak(g, cell.sri, SelfRow);
    }
  }

  lemma StreakIff(h: seq<Event>, sri: Sri, row: WhichRow)
    ensures Streak(h, sri, row) <==> exists i :: StreakFrom(h, sri, row, i)
  {
    if Streak(h, sri, row) {
      var i := StreakHasStart(h, sri, row);
    }
    forall i | StreakFrom(h, sri, row, i) ensures Streak(h, sri, row) {
      StartMakesStreak(h, sri, row, i);
    }
  }

  /** The cell's own row refutes it: another runtime or another life holds it, or it is absent again. */
  ghost predicate SelfRefuted(h: seq<Event>, myExec: RuntimeId, cell: WatchedCell, ev: Evidence) {
    || (ev.selfRow.Ok? && !(ev.selfRow.exec == myExec && ev.selfRow.gen == cell.gen))
    || (ev.selfRow.Absent? && exists i :: StreakFrom(h, cell.sri, SelfRow, i))
  }

  /** The parent's row carries another life than the one the cell was anchored to. */
  predicate AnchorDiffers(lineage: Lineage, read: RowRead) {
    read.Ok? && lineage.parentGen.Some? && lineage.parentGen.value != read.gen
  }

  /** A root or a detached cell answers for its own row only, whatever is read of a parent. */
  lemma UnattachedIgnoresParent(h: seq<Event>, myExec: RuntimeId, cell: WatchedCell, ev: Evidence)
    requires cell.lineage.parent.None? || cell.lineage.detached
    ensures Decide(h, myExec, cell, ev) == if SelfRefuted(h, myExec, cell, ev) then Kill(SelfSuperseded) else Keep
  {
    StreakIff(h, cell.sri, SelfRow);
  }

  /** An attached cell whose own row stands: which of the three ways its parent can fail kills it, if any. */
  lemma AttachedFollowsParent(h: seq<Event>, myExec: RuntimeId, cell: WatchedCell, ev: Evidence)
    requires cell.lineage.parent.Some? && !cell.lineage.detached && !SelfRefuted(h, myExec, cell, ev)
    ensures var v, row := Decide(h, myExec, cell, ev), ev.parentRow;
            && (v == Kill(ParentSuperseded) <==> AnchorDiffers(cell.lineage, row))
            && (v == Kill(ParentNodeDead)
                <==> row.Ok? && !AnchorDiffers(cell.lineage, row) && ev.parentLeaseExpired == Some(true))
            && (v == Kill(ParentAbsent) <==> row.Absent? && exists i :: StreakFrom(h, cell.sri, ParentRow, i))
            && v != Kill(SelfSuperseded)
  {
    StreakIff(h, cell.sri, SelfRow);
    StreakIff(h, cell.sri, ParentRow);
  }

  /** The cell's own row comes first, whatever the parent's says. */
  lemma SelfRefutedKills(h: seq<Event>, myExec: RuntimeId, cell: WatchedCell, ev: Evidence)
    ensures Decide(h, myExec, cell, ev) == Kill(SelfSuperseded) <==> SelfRefuted(h, myExec, cell, ev)
  {
    StreakIff(h, cell.sri, SelfRow);
  }

  /** One absence of the parent's row never kills; the second in a row, whatever failed reads and other
      cells came in between, does, unless the cell's own row kills it first. */
  lemma AbsenceKillsIffConfirmed(h: seq<Event>, myExec: RuntimeId, cell: WatchedCell, ev: Evidence)
    requires cell.lineage.parent.Some? && !cell.lineage.detached && ev.parentRow.Absent?
    ensures Decide(h, myExec, cell, ev) == Kill(ParentAbsent)
            <==> (Decide(h, myExec, cell, ev) != Kill(SelfSuperseded)
                  && exists i :: StreakFrom(h, cell.sri, ParentRow, i))
    ensures Decide(h, myExec, cell, ev) in {Keep, Kill(ParentAbsent), Kill(SelfSuperseded)}
  {
    StreakIff(h, cell.sri, ParentRow);
  }

  /** The same for a cell's own row. */
  lemma SelfAbsenceKillsIffConfirmed(h: seq<Event>, myExec: RuntimeId, cell: WatchedCell, ev: Evidence)
    requires ev.selfRow.Absent?
    ensures Decide(h, myExec, cell, ev) == Kill(SelfSuperseded) <==> exists i :: StreakFrom(h, cell.sri, SelfRow, i)
  {
    StreakIff(h, cell.sri, SelfRow);
  }

  datatype Count = Count(sri: Sri, row: WhichRow, count: nat)

  const CONFIRM_ABSENT_AFTER: nat := 2
  const U8_MAX: nat := 255

  predicate Matches(c: Count, sri: Sri, row: WhichRow) {
    c.sri == sri && c.row == row
  }

  ghost predicate Counted(counts: seq<Count>, sri: Sri, row: WhichRow) {
    exists c :: c in counts && Matches(c, sri, row)
  }

  /** Between passes every streak on record is exactly one absence long. */
  ghost predicate Tidy(counts: seq<Count>) {
    forall c :: c in counts ==> c.count == 1
  }

  /** The streaks on record are exactly the streaks the history has. */
  ghost predicate Records(counts: seq<Count>, h: seq<Event>) {
    forall sri, row :: Counted(counts, sri, row) <==> Streak(h, sri, row)
  }

  ghost predicate OthersSame(before: seq<Count>, after: seq<Count>, sri: Sri) {
    forall c: Count :: c.sri != sri ==> (c in before <==> c in after)
  }

  function DropCell(counts: seq<Count>, sri: Sri): seq<Count> {
    if counts == [] then []
    else if counts[0].sri == sri then DropCell(counts[1..], sri)
    else [counts[0]] + DropCell(counts[1..], sri)
  }

  function DropRow(counts: seq<Count>, sri: Sri, row: WhichRow): seq<Count> {
    if counts == [] then []
    else if Matches(counts[0], sri, row) then DropRow(counts[1..], sri, row)
    else [counts[0]] + DropRow(counts[1..], sri, row)
  }

  lemma {:induction false} DropCellKeeps(counts: seq<Count>, sri: Sri)
    ensures forall c :: c in DropCell(counts, sri) <==> c in counts && c.sri != sri
  {
    if counts != [] {
      DropCellKeeps(counts[1..], sri);
    }
  }

  lemma {:induction false} DropRowKeeps(counts: seq<Count>, sri: Sri, row: WhichRow)
    ensures forall c :: c in DropRow(counts, sri, row) <==> c in counts && !Matches(c, sri, row)
  {
    if counts != [] {
      DropRowKeeps(counts[1..], sri, row);
    }
  }

  /** What one read leaves on record for its row; every other streak stays. */
  ghost predicate Recorded(before: seq<Count>, after: seq<Count>, sri: Sri, row: WhichRow, read: RowRead) {
    && (forall c :: c in after && !Matches(c, sri, row) ==> c in before)
    && (forall c :: c in before && !Matches(c, sri, row) ==> c in after)
    && (Counted(after, sri, row) <==> if read.Failed? then Counted(before, sri, row) else read.Absent?)
  }

  lemma BumpOthers(counts: seq<Count>, i: nat, c: Count)
    requires i < |counts| && counts[i].sri == c.sri
    ensures OthersSame(counts, counts[i := c], c.sri)
  {
    var after := counts[i := c];
    forall d: Count | d.sri != c.sri ensures d in counts <==> d in after {
      if d in counts {
        var k :| 0 <= k < |counts| && counts[k] == d;
        assert after[k] == d;
      }
    }
  }

  lemma CountedElsewhere(before: seq<Count>, after: seq<Count>, sri: Sri, row: WhichRow, read: RowRead, s: Sri,
                         r: WhichRow)
    requires Recorded(before, after, sri, row, read) && !(s == sri && r == row)
    ensures Counted(after, s, r) <==> Counted(before, s, r)
  {
  }

  lemma LastStreak(h: seq<Event>, e: Event, sri: Sri, row: WhichRow)
    ensures Streak(h + [e], sri, row) == if Settles(e, sri, row) then StartsStreak(e, row) else Streak(h, sri, row)
  {
  }

  /** After a pass that keeps the cell, the record is that of the longer history. */
  lemma KeepRecords(c0: seq<Count>, c1: seq<Count>, c2: seq<Count>, h: seq<Event>, cell: WatchedCell, ev: Evidence)
    requires Records(c0, h)
    requires Recorded(c0, c1, cell.sri, SelfRow, ReadOf(cell, ev, SelfRow))
    requires Recorded(c1, c2, cell.sri, ParentRow, ReadOf(cell, ev, ParentRow))
    ensures Records(c2, h + [Pass(cell, ev, Keep)])
  {
    forall sri, row
      ensures Counted(c2, sri, row) <==> Streak(h + [Pass(cell, ev, Keep)], sri, row)
    {
      LastStreak(h, Pass(cell, ev, Keep), sri, row);
      if !(sri == cell.sri && row == SelfRow) {
        CountedElsewhere(c0, c1, cell.sri, SelfRow, ReadOf(cell, ev, SelfRow), sri, row);
      }
      if !(sri == cell.sri && row == ParentRow) {
        CountedElsewhere(c1, c2, cell.sri, ParentRow, ReadOf(cell, ev, ParentRow), sri, row);
      }
    }
  }

  /** After a kill or a forget, the cell has no streak and no other cell is affected. */
  lemma EndRecords(before: seq<Count>, after: seq<Count>, h: seq<Event>, e: Event)
    requires Records(before, h) && (e.Forgot? || e.verdict.Kill?)
    requires OthersSame(before, after, Concerns(e)) && forall c :: c in after ==> c.sri != Concerns(e)
    ensures Records(after, h + [e])
  {
    forall sri, row ensures Counted(after, sri, row) <==> Streak(h + [e], sri, row) {
      LastStreak(h, e, sri, row);
    }
  }

  class FencingState {
    var absentCounts: seq<Count>
    ghost var history: seq<Event>

    ghost predicate Valid()
      reads this
    {
      Tidy(absentCounts) && Records(absentCounts, history)
    }

    constructor ()
      ensures Valid() && history == []
    {
      absentCounts, history := [], [];
    }

    /** One more pass. The verdict is the decision the whole history calls for. */
    method Evaluate(myExec: RuntimeId, cell: WatchedCell, ev: Evidence) returns (v: Verdict)
      requires Valid()
      modifies this
      ensures Valid() && history == old(history) + [Pass(cell, ev, v)]
      ensures v == Decide(old(history), myExec, cell, ev)
    {
      var why := CheckSelf(myExec, cell, ev);
      if why.Some? {
        DropStreaks(cell.sri);
        v := Kill(why.value);
        EndRecords(old(absentCounts), absentCounts, history, Pass(cell, ev, v));
        history := history + [Pass(cell, ev, v)];
        return;
      }
      ghost var c1 := absentCounts;
      if ParentWatched(cell) {
        why := CheckParent(cell, ev);
        if why.Some? {
          DropStreaks(cell.sri);
          v := Kill(why.value);
          EndRecords(old(absentCounts), absentCounts, history, Pass(cell, ev, v));
          history := history + [Pass(cell, ev, v)];
          return;
        }
      }
      v := Keep;
      KeepRecords(old(absentCounts), c1, absentCounts, history, cell, ev);
      history := history + [Pass(cell, ev, v)];
    }

    method CheckSelf(myExec: RuntimeId, cell: WatchedCell, ev: Evidence) returns (why: Option<KillWhy>)
      requires Tidy(absentCounts)
      modifies this`absentCounts
      ensures why == if (ev.selfRow.Ok? && (ev.selfRow.exec != myExec || ev.selfRow.gen != cell.gen))
                        || (ev.selfRow.Absent? && Counted(old(absentCounts), cell.sri, SelfRow))
                     then Some(SelfSuperseded) else None
      ensures OthersSame(old(absentCounts), absentCounts, cell.sri)
      ensures why.None? ==>
              Tidy(absentCounts) && Recorded(old(absentCounts), absentCounts, cell.sri, SelfRow, ev.selfRow)
    {
      match ev.selfRow {
        case Ok(exec, gen) =>
          Reset(cell.sri, SelfRow);
          return if exec != myExec || gen != cell.gen then Some(SelfSuperseded) else None;
        case Absent =>
          var confirmed := ConfirmedAbsent(cell.sri, SelfRow);
          return if confirmed then Some(SelfSuperseded) else None;
        case Failed =>
          return None;
      }
    }

    method CheckParent(cell: WatchedCell, ev: Evidence) returns (why: Option<KillWhy>)
      requires Tidy(absentCounts)
      modifies this`absentCounts
      ensures why == match ev.parentRow
                     case Ok(_, gen) =>
                       if cell.lineage.parentGen.Some? && cell.lineage.parentGen.value != gen
                         then Some(ParentSuperseded)
                       else if ev.parentLeaseExpired == Some(true) then Some(ParentNodeDead)
                       else None
                     case Absent => if Counted(old(absentCounts), cell.sri, ParentRow) then Some(ParentAbsent) else None
                     case Failed => None
      ensures OthersSame(old(absentCounts), absentCounts, cell.sri)
      ensures why.None? ==>
              Tidy(absentCounts) && Recorded(old(absentCounts), absentCounts, cell.sri, ParentRow, ev.parentRow)
    {
      match ev.parentRow {
        case Ok(_, gen) =>
          Reset(cell.sri, ParentRow);
          if cell.lineage.parentGen.Some? && cell.lineage.parentGen.value != gen {
            return Some(ParentSuperseded);
          }
          if ev.parentLeaseExpired == Some(true) {
            return Some(ParentNodeDead);
          }
          return None;
        case Absent =>
          var confirmed := ConfirmedAbsent(cell.sri, ParentRow);
          return if confirmed then Some(ParentAbsent) else None;
        case Failed =>
          return None;
      }
    }

    /** Counts one absent read, in a counter that never overflows its byte. */
    method ConfirmedAbsent(sri: Sri, row: WhichRow) returns (confirmed: bool)
      requires Tidy(absentCounts)
      modifies this`absentCounts
      ensures confirmed <==> Counted(old(absentCounts), sri, row)
      ensures OthersSame(old(absentCounts), absentCounts, sri)
      ensures !confirmed ==> Tidy(absentCounts) && Recorded(old(absentCounts), absentCounts, sri, row, Absent)
      ensures forall c :: c in absentCounts ==> c.count <= U8_MAX
    {
      for i := 0 to |absentCounts|
        invariant absentCounts == old(absentCounts)
        invariant forall k :: 0 <= k < i ==> !Matches(absentCounts[k], sri, row)
      {
        if Matches(absentCounts[i], sri, row) {
          var c := absentCounts[i];
          assert c in old(absentCounts);
          BumpOthers(absentCounts, i, c.(count := c.count + 1));
          absentCounts := absentCounts[i := c.(count := c.count + 1)];
          return c.count + 1 >= CONFIRM_ABSENT_AFTER;
        }
      }
      absentCounts := absentCounts + [Count(sri, row, 1)];
      assert Count(sri, row, 1) in absentCounts;
      return 1 >= CONFIRM_ABSENT_AFTER;
    }

    method Reset(sri: Sri, row: WhichRow)
      modifies this`absentCounts
      ensures absentCounts == DropRow(old(absentCounts), sri, row)
      ensures forall c :: c in absentCounts <==> c in old(absentCounts) && !Matches(c, sri, row)
    {
      DropRowKeeps(absentCounts, sri, row);
      absentCounts := DropRow(absentCounts, sri, row);
    }

    method DropStreaks(sri: Sri)
      modifies this`absentCounts
      ensures forall c :: c in absentCounts <==> c in old(absentCounts) && c.sri != sri
    {
      DropCellKeeps(absentCounts, sri);
      absentCounts := DropCell(absentCounts, sri);
    }

    /** Forgets a cell that was killed or undeployed. */
    method Forget(sri: Sri)
      requires Valid()
      modifies this
      ensures Valid() && history == old(history) + [Forgot(sri)]
    {
      DropStreaks(sri);
      EndRecords(old(absentCounts), absentCounts, history, Forgot(sri));
      history := history + [Forgot(sri)];
    }
  }
}
