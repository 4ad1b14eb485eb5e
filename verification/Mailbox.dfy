/** The receiving side of a cell's mailbox (swarm/cell-mailbox/src/command.rs): reads that remove
    nothing, walked window by window past the rows this reader must not hand out again. */
module Mailbox {
  import opened Basics
  import opened Dispatching

  /** One row of the mailbox table, and whether its bytes decode as a command. */
  datatype Row = Row(id: Id, decodable: bool)

  /** A replica's view of the table, in key order; `None` is a read that failed. */
  type View = Option<seq<Row>>

  datatype Batch = Queued | Repeated | Empty

  const SUPPRESSED_WINDOWS: nat := 4

  ghost predicate Ascending(table: seq<Row>) {
    forall i, j :: 0 <= i < j < |table| ==> table[i].id < table[j].id
  }

  predicate Beyond(cursor: Option<Id>, id: Id) {
    cursor.None? || cursor.value < id
  }

  /** The index of the first row past the cursor. */
  function FirstPast(table: seq<Row>, cursor: Option<Id>, i: nat): (k: nat)
    requires i <= |table|
    ensures i <= k <= |table|
    decreases |table| - i
  {
    if i == |table| || Beyond(cursor, table[i].id) then i else FirstPast(table, cursor, i + 1)
  }

  lemma {:induction false} FirstPastMeans(table: seq<Row>, cursor: Option<Id>, i: nat)
    requires i <= |table|
    ensures forall j :: i <= j < FirstPast(table, cursor, i) ==> !Beyond(cursor, table[j].id)
    ensures FirstPast(table, cursor, i) < |table| ==> Beyond(cursor, table[FirstPast(table, cursor, i)].id)
    decreases |table| - i
  {
    if i < |table| && !Beyond(cursor, table[i].id) {
      FirstPastMeans(table, cursor, i + 1);
    }
  }

  function Window(table: seq<Row>, at: nat, size: nat): seq<Row>
    requires at <= |table|
  {
    table[at..Min(at + size, |table|)]
  }

  /** One read: at most `size` rows past the cursor, in table order. */
  function ReadHead(table: seq<Row>, cursor: Option<Id>, size: nat): seq<Row> {
    Window(table, FirstPast(table, cursor, 0), size)
  }

  /** The decodable rows not withheld, in table order. */
  ghost function Eligible(rows: seq<Row>, withheld: iset<Id>): seq<Id> {
    if rows == [] then []
    else
      var last := rows[|rows| - 1];
      Eligible(rows[..|rows| - 1], withheld) + (if last.decodable && last.id !in withheld then [last.id] else [])
  }

  /** Which rows of a window are handed out. */
  type Pick = seq<Row> -> seq<Id>

  ghost function Picks(withheld: iset<Id>): Pick {
    rows => Eligible(rows, withheld)
  }

  /** How reading one window ends: the read failed; the walk is over, with these rows handed out; or it
      goes on past the last row read. */
  datatype Step = Failed | Done(found: seq<Id>) | Onward(cursor: Id)

  ghost function WindowStep(view: View, cursor: Option<Id>, size: nat, pick: Pick): Step {
    if view.None? then Failed
    else
      var rows := ReadHead(view.value, cursor, size);
      var found := pick(rows);
      if found != [] || |rows| < size || rows == [] then Done(found) else Onward(rows[|rows| - 1].id)
  }

  type Stepper = (View, Option<Id>) -> Step

  ghost function Stepping(size: nat, pick: Pick): Stepper {
    (view, cursor) => WindowStep(view, cursor, size, pick)
  }

  /** What the windows from `w` on hand out: what the first window picks that picks any. Every window is
      read from a view of its own. `None` when a read the walk needed failed. */
  ghost function Walk(views: seq<View>, w: nat, cursor: Option<Id>, step: Stepper): Option<seq<Id>>
    requires w <= |views|
    decreases |views| - w
  {
    if w == |views| then Some([])
    else match step(views[w], cursor)
      case Failed => None
      case Done(found) => Some(found)
      case Onward(last) => Walk(views, w + 1, Some(last), step)
  }

  /** An id is eligible exactly when a decodable row carries it and nothing withholds it. */
  lemma {:induction false} EligibleMeans(rows: seq<Row>, withheld: iset<Id>)
    ensures forall id ::
              id in Eligible(rows, withheld) <==> id !in withheld && exists r :: r in rows && r.id == id && r.decodable
  {
    if rows != [] {
      var init, last := rows[..|rows| - 1], rows[|rows| - 1];
      EligibleMeans(init, withheld);
      assert forall r :: r in rows <==> r in init || r == last;
    }
  }

  /** A batch holds every id once, in table order. */
  lemma {:induction false} EligibleAscends(rows: seq<Row>, withheld: iset<Id>, i: nat, j: nat)
    requires Ascending(rows) && i < j < |Eligible(rows, withheld)|
    ensures Eligible(rows, withheld)[i] < Eligible(rows, withheld)[j]
  {
    var init, last := rows[..|rows| - 1], rows[|rows| - 1];
    var got := Eligible(init, withheld);
    if j < |got| {
      EligibleAscends(init, withheld, i, j);
    } else {
      EligibleMeans(init, withheld);
      assert got[i] in got;
    }
  }

  /** Ids the rows do not carry make no difference. */
  lemma {:induction false} EligibleLocal(rows: seq<Row>, withheld: iset<Id>, other: iset<Id>)
    requires forall i :: 0 <= i < |rows| ==> (rows[i].id in withheld <==> rows[i].id in other)
    ensures Eligible(rows, withheld) == Eligible(rows, other)
  {
    if rows != [] {
      EligibleLocal(rows[..|rows| - 1], withheld, other);
    }
  }

  lemma ReadAt(table: seq<Row>, at: nat, size: nat)
    requires Ascending(table) && 0 < at <= |table|
    ensures ReadHead(table, Some(table[at - 1].id), size) == Window(table, at, size)
  {
    var k := FirstPast(table, Some(table[at - 1].id), 0);
    FirstPastMeans(table, Some(table[at - 1].id), 0);
    assert k >= at;
    if at < k {
      assert Beyond(Some(table[at - 1].id), table[at].id);
    }
  }

  /** The cursor that resumes at index `at`. */
  function CursorAt(table: seq<Row>, at: nat): Option<Id>
    requires at <= |table|
  {
    if at == 0 then None else Some(table[at - 1].id)
  }

  function NextStart(table: seq<Row>, at: nat, size: nat): nat {
    Min(at + size, |table|)
  }

  /** Where the `w`-th window after index `at` starts. */
  function Start(table: seq<Row>, at: nat, size: nat, w: nat): (k: nat)
    requires at <= |table|
    ensures k <= |table| && (at == |table| ==> k == at)
    decreases w
  {
    if w == 0 then at else Start(table, NextStart(table, at, size), size, w - 1)
  }

  lemma {:induction false} StartIs(table: seq<Row>, at: nat, size: nat, w: nat)
    requires at <= |table|
    ensures Start(table, at, size, w) == Min(at + w * size, |table|)
    decreases w
  {
    if w > 0 {
      StartIs(table, NextStart(table, at, size), size, w - 1);
      assert size + (w - 1) * size == w * size;
      assert (w - 1) * size >= 0;
    }
  }

  /** None of the `w` windows from index `at` on has an eligible row. */
  ghost predicate Barren(table: seq<Row>, at: nat, size: nat, w: nat, pick: Pick)
    requires at <= |table|
    decreases w
  {
    w == 0 || (pick(Window(table, at, size)) == [] && Barren(table, NextStart(table, at, size), size, w - 1, pick))
  }

  lemma StepAt(table: seq<Row>, at: nat, size: nat, pick: Pick)
    requires Ascending(table) && size > 0 && at <= |table|
    ensures WindowStep(Some(table), CursorAt(table, at), size, pick) == StepOf(table, at, size, pick)
  {
    if at > 0 { ReadAt(table, at, size); }
    var rows := Window(table, at, size);
    assert ReadHead(table, CursorAt(table, at), size) == rows;
    if at + size <= |table| {
      assert rows[|rows| - 1] == table[at + size - 1];
    }
  }

  /** The same walk over one unchanging table, by index. */
  ghost function Reach(table: seq<Row>, at: nat, size: nat, n: nat, pick: Pick): seq<Id>
    requires at <= |table|
    decreases n
  {
    if n == 0 then []
    else if pick(Window(table, at, size)) != [] || at + size > |table| then pick(Window(table, at, size))
    else Reach(table, at + size, size, n - 1, pick)
  }

  ghost predicate Unchanging(views: seq<View>, table: seq<Row>) {
    forall i :: 0 <= i < |views| ==> views[i] == Some(table)
  }

  /** How a walk that has come to index `at` goes on. */
  function StepOf(table: seq<Row>, at: nat, size: nat, pick: Pick): Step
    requires at <= |table| && size > 0
  {
    var found := pick(Window(table, at, size));
    if found != [] || at + size > |table| then Done(found) else Onward(table[at + size - 1].id)
  }

  ghost predicate Steady(table: seq<Row>, size: nat, pick: Pick, step: Stepper)
    requires size > 0
  {
    forall at: nat :: at <= |table| ==> step(Some(table), CursorAt(table, at)) == StepOf(table, at, size, pick)
  }

  lemma {:induction false} WalkIsReach(views: seq<View>, table: seq<Row>, v: nat, at: nat, size: nat, pick: Pick,
                                       step: Stepper, n: nat)
    requires size > 0 && Steady(table, size, pick, step) && at <= |table| && v + n == |views|
             && Unchanging(views, table)
    ensures Walk(views, v, CursorAt(table, at), step) == Some(Reach(table, at, size, n, pick))
    decreases n
  {
    if n > 0 {
      assert views[v] == Some(table);
      if at + size <= |table| {
        WalkIsReach(views, table, v + 1, at + size, size, pick, step, n - 1);
        assert CursorAt(table, at + size) == Some(table[at + size - 1].id);
      }
    }
  }

  lemma AscendingSteady(table: seq<Row>, size: nat, pick: Pick)
    requires Ascending(table) && size > 0
    ensures Steady(table, size, pick, Stepping(size, pick))
  {
    forall at: nat | at <= |table|
      ensures Stepping(size, pick)(Some(table), CursorAt(table, at)) == StepOf(table, at, size, pick)
    {
      StepAt(table, at, size, pick);
    }
  }

  lemma {:induction false} ReachFinds(table: seq<Row>, at: nat, size: nat, n: nat, pick: Pick, w: nat)
    requires at <= |table| && w < n && Barren(table, at, size, w, pick) && pick([]) == []
    ensures var found := pick(Window(table, Start(table, at, size, w), size));
            found != [] ==> Reach(table, at, size, n, pick) == found
    decreases w
  {
    if w > 0 && at + size <= |table| {
      ReachFinds(table, at + size, size, n - 1, pick, w - 1);
    }
  }

  lemma {:induction false} ReachEmpty(table: seq<Row>, at: nat, size: nat, n: nat, pick: Pick)
    requires at <= |table| && Barren(table, at, size, n, pick)
    ensures Reach(table, at, size, n, pick) == []
    decreases n
  {
    if n > 0 && at + size <= |table| {
      ReachEmpty(table, at + size, size, n - 1, pick);
    }
  }

  /** The `w`-th run of `size` rows, counted from the head of the table. */
  function Stretch(table: seq<Row>, size: nat, w: nat): seq<Row> {
    Window(table, Min(w * size, |table|), size)
  }

  lemma {:induction false} BarrenFrom(table: seq<Row>, size: nat, v: nat, n: nat, pick: Pick)
    requires v <= n && forall u: nat :: v <= u < n ==> pick(Stretch(table, size, u)) == []
    ensures Barren(table, Min(v * size, |table|), size, n - v, pick)
    decreases n - v
  {
    if v < n {
      BarrenFrom(table, size, v + 1, n, pick);
      assert pick(Stretch(table, size, v)) == [];
      assert (v + 1) * size == v * size + size;
    }
  }

  lemma BarrenHead(table: seq<Row>, size: nat, n: nat, pick: Pick)
    requires forall u: nat :: u < n ==> pick(Stretch(table, size, u)) == []
    ensures Barren(table, 0, size, n, pick)
  {
    BarrenFrom(table, size, 0, n, pick);
  }

  lemma StretchAt(table: seq<Row>, size: nat, w: nat)
    ensures Stretch(table, size, w) == Window(table, Start(table, 0, size, w), size)
  {
    StartIs(table, 0, size, w);
  }

  /** On one unchanging view, a walk of `|views|` windows hands out the eligible rows of the first of
      that many stretches that has any. */
  lemma WalkReaches(views: seq<View>, table: seq<Row>, size: nat, pick: Pick, w: nat)
    requires Ascending(table) && size > 0 && w < |views| && Unchanging(views, table) && pick([]) == []
    requires forall u: nat :: u < w ==> pick(Stretch(table, size, u)) == []
    requires pick(Stretch(table, size, w)) != []
    ensures Walk(views, 0, None, Stepping(size, pick)) == Some(pick(Stretch(table, size, w)))
  {
    BarrenHead(table, size, w, pick);
    StretchAt(table, size, w);
    AscendingSteady(table, size, pick);
    WalkIsReach(views, table, 0, 0, size, pick, Stepping(size, pick), |views|);
    ReachFinds(table, 0, size, |views|, pick, w);
  }

  /** And it hands out nothing when none of them has: commands further back wait. */
  lemma WalkGivesUp(views: seq<View>, table: seq<Row>, size: nat, pick: Pick)
    requires Ascending(table) && size > 0 && Unchanging(views, table)
    requires forall u: nat :: u < |views| ==> pick(Stretch(table, size, u)) == []
    ensures Walk(views, 0, None, Stepping(size, pick)) == Some([])
  {
    BarrenHead(table, size, |views|, pick);
    AscendingSteady(table, size, pick);
    WalkIsReach(views, table, 0, 0, size, pick, Stepping(size, pick), |views|);
    ReachEmpty(table, 0, size, |views|, pick);
  }

  lemma StretchIs(table: seq<Row>, size: nat, w: nat)
    ensures Stretch(table, size, w) == table[Min(w * size, |table|)..Min((w + 1) * size, |table|)]
  {
    assert (w + 1) * size == w * size + size;
  }

  /** A row some stream may be given: its bytes decode and its id is not withheld. */
  predicate Ready(row: Row, withheld: iset<Id>) {
    row.decodable && row.id !in withheld
  }

  lemma {:induction false} NoneReady(rows: seq<Row>, withheld: iset<Id>)
    ensures Eligible(rows, withheld) == [] <==> forall k :: 0 <= k < |rows| ==> !Ready(rows[k], withheld)
  {
    if rows != [] {
      NoneReady(rows[..|rows| - 1], withheld);
    }
  }

  /** No row of the table in front of index `end` is ready. */
  ghost predicate NoneBefore(table: seq<Row>, end: nat, withheld: iset<Id>) {
    forall k :: 0 <= k < Min(end, |table|) ==> !Ready(table[k], withheld)
  }

  /** What `n` windows over one table hand out: nothing when none of the first `n * size` rows is ready, else
      the ready rows of the first window that has one. */
  ghost predicate HandsOut(table: seq<Row>, size: nat, n: nat, withheld: iset<Id>, ids: seq<Id>) {
    if NoneBefore(table, n * size, withheld) then ids == []
    else exists w: nat :: HandsOutAt(table, size, n, withheld, ids, w)
  }

  ghost predicate HandsOutAt(table: seq<Row>, size: nat, n: nat, withheld: iset<Id>, ids: seq<Id>, w: nat) {
    && w < n && NoneBefore(table, w * size, withheld) && !NoneBefore(table, (w + 1) * size, withheld)
    && ids == Eligible(table[Min(w * size, |table|)..Min((w + 1) * size, |table|)], withheld) && ids != []
  }

  lemma StretchReady(table: seq<Row>, size: nat, w: nat, withheld: iset<Id>)
    requires NoneBefore(table, w * size, withheld)
    ensures Eligible(Stretch(table, size, w), withheld) == [] <==> NoneBefore(table, (w + 1) * size, withheld)
  {
    assert (w + 1) * size == w * size + size;
    StretchIs(table, size, w);
    RowsReady(table, w * size, (w + 1) * size, withheld);
  }

  lemma RowsReady(table: seq<Row>, from: nat, to: nat, withheld: iset<Id>)
    requires from <= to && NoneBefore(table, from, withheld)
    ensures Eligible(table[Min(from, |table|)..Min(to, |table|)], withheld) == [] <==> NoneBefore(table, to, withheld)
  {
    var a, b := Min(from, |table|), Min(to, |table|);
    var rows := table[a..b];
    NoneReady(rows, withheld);
    assert forall k :: a <= k < b ==> table[k] == rows[k - a];
    assert forall k :: 0 <= k < |rows| ==> rows[k] == table[a + k];
  }

  lemma {:induction false} FirstWindow(table: seq<Row>, size: nat, n: nat, withheld: iset<Id>) returns (w: nat)
    ensures w <= n && NoneBefore(table, w * size, withheld)
    ensures w < n ==> !NoneBefore(table, (w + 1) * size, withheld)
    ensures forall u: nat :: u < w ==> Eligible(Stretch(table, size, u), withheld) == []
  {
    if n == 0 {
      w := 0;
    } else {
      w := FirstWindow(table, size, n - 1, withheld);
      if w == n - 1 && NoneBefore(table, n * size, withheld) {
        StretchReady(table, size, w, withheld);
        w := n;
      }
    }
  }

  lemma NoneBeforeLess(table: seq<Row>, size: nat, w: nat, n: nat, withheld: iset<Id>)
    requires w <= n
    ensures NoneBefore(table, n * size, withheld) ==> NoneBefore(table, w * size, withheld)
  {
    assert w * size <= n * size;
  }

  /** By the table's indices: what a walk over one unchanging table hands out. */
  lemma WalkByIndex(views: seq<View>, table: seq<Row>, size: nat, withheld: iset<Id>)
    requires Ascending(table) && size > 0 && Unchanging(views, table)
    ensures var found := Walk(views, 0, None, Stepping(size, Picks(withheld)));
            found.Some? && HandsOut(table, size, |views|, withheld, found.value)
  {
    var w := FirstWindow(table, size, |views|, withheld);
    if w == |views| {
      WalkGivesUp(views, table, size, Picks(withheld));
    } else {
      FirstHandsOut(table, size, |views|, withheld, w);
      WalkReaches(views, table, size, Picks(withheld), w);
    }
  }

  lemma FirstHandsOut(table: seq<Row>, size: nat, n: nat, withheld: iset<Id>, w: nat)
    requires w < n && NoneBefore(table, w * size, withheld) && !NoneBefore(table, (w + 1) * size, withheld)
    ensures Eligible(Stretch(table, size, w), withheld) != []
    ensures HandsOut(table, size, n, withheld, Eligible(Stretch(table, size, w), withheld))
  {
    StretchReady(table, size, w, withheld);
    StretchIs(table, size, w);
    NoneBeforeLess(table, size, w + 1, n, withheld);
    assert HandsOutAt(table, size, n, withheld, Eligible(Stretch(table, size, w), withheld), w);
  }

  lemma FirstIsOne(table: seq<Row>, size: nat, v: nat, w: nat, withheld: iset<Id>)
    requires NoneBefore(table, w * size, withheld) && !NoneBefore(table, (v + 1) * size, withheld)
    ensures w <= v
  {
    if v < w {
      NoneBeforeLess(table, size, v + 1, w, withheld);
    }
  }

  /** Where every read shows the same table, what is found is what the table's indices say. */
  ghost predicate OnOneTable(views: seq<View>, size: nat, withheld: iset<Id>, found: Option<seq<Id>>) {
    forall table :: views != [] && Unchanging(views, table) ==>
      found.Some? && HandsOut(table, size, |views|, withheld, found.value)
  }

  ghost predicate AllAscending(views: seq<View>) {
    forall w :: 0 <= w < |views| && views[w].Some? ==> Ascending(views[w].value)
  }

  lemma OneTable(views: seq<View>, size: nat, withheld: iset<Id>)
    requires AllAscending(views) && size > 0
    ensures OnOneTable(views, size, withheld, Walk(views, 0, None, Stepping(size, Picks(withheld))))
  {
    forall table | views != [] && Unchanging(views, table)
      ensures var found := Walk(views, 0, None, Stepping(size, Picks(withheld)));
              found.Some? && HandsOut(table, size, |views|, withheld, found.value)
    {
      assert views[0] == Some(table);
      WalkByIndex(views, table, size, withheld);
    }
  }

  /** Only one window comes first, so this settles what is handed out. */
  lemma SameWindow(table: seq<Row>, size: nat, n: nat, withheld: iset<Id>, a: seq<Id>, b: seq<Id>, v: nat, w: nat)
    requires HandsOutAt(table, size, n, withheld, a, v) && HandsOutAt(table, size, n, withheld, b, w)
    ensures v == w && a == b
  {
    FirstIsOne(table, size, v, w, withheld);
    FirstIsOne(table, size, w, v, withheld);
  }

  /** One read, by index: the rows past the cursor, from the first of them on, as many as fit. */
  lemma ReadMeans(table: seq<Row>, cursor: Option<Id>, size: nat) returns (k: nat)
    requires Ascending(table)
    ensures k <= |table| && ReadHead(table, cursor, size) == table[k..Min(k + size, |table|)]
    ensures forall j :: 0 <= j < |table| ==> (k <= j <==> cursor.None? || cursor.value < table[j].id)
  {
    FirstPastMeans(table, cursor, 0);
    k := FirstPast(table, cursor, 0);
  }

  /** The ids handed out, in order. */
  ghost function HandedIds(h: seq<Event>): seq<Id> {
    if h == [] then []
    else
      var e := h[|h| - 1];
      HandedIds(h[..|h| - 1]) + (if e.Handed? then [e.id] else [])
  }

  lemma HandedAppend(h: seq<Event>, e: Event)
    ensures HandedIds(h + [e]) == HandedIds(h) + if e.Handed? then [e.id] else []
  {
  }

  lemma {:induction false} HandedSame(h: seq<Event>, evicted: seq<Event>)
    requires OnlyEvictions(evicted)
    ensures HandedIds(h + evicted) == HandedIds(h)
  {
    if evicted == [] {
      assert h + evicted == h;
    } else {
      var init, e := evicted[..|evicted| - 1], evicted[|evicted| - 1];
      HandedSame(h, init);
      HandedAppend(h + init, e);
      assert h + evicted == h + init + [e];
    }
  }

  ghost function RowIds(rows: seq<Row>): set<Id> {
    if rows == [] then {} else RowIds(rows[..|rows| - 1]) + {rows[|rows| - 1].id}
  }

  lemma {:induction false} RowIdsBelow(rows: seq<Row>, i: nat, k: nat)
    requires Ascending(rows) && i <= k < |rows|
    ensures forall id :: id in RowIds(rows[..i]) ==> id < rows[k].id
  {
    if i > 0 {
      RowIdsBelow(rows, i - 1, k);
      assert rows[..i][..i - 1] == rows[..i - 1];
    }
  }

  function IdSet(ids: seq<Id>): set<Id> {
    set id | id in ids
  }

  lemma EligibleGrows(rows: seq<Row>, i: nat, withheld: iset<Id>)
    requires i < |rows|
    ensures var got := rows[i].decodable && rows[i].id !in withheld;
            && Eligible(rows[..i + 1], withheld) == Eligible(rows[..i], withheld) + (if got then [rows[i].id] else [])
            && IdSet(Eligible(rows[..i + 1], withheld))
              == IdSet(Eligible(rows[..i], withheld)) + (if got then {rows[i].id} else {})
    ensures RowIds(rows[..i + 1]) == RowIds(rows[..i]) + {rows[i].id}
  {
    assert rows[..i + 1][..i] == rows[..i];
  }

  lemma ReadBeyond(table: seq<Row>, cursor: Option<Id>, size: nat)
    requires Ascending(table)
    ensures Ascending(ReadHead(table, cursor, size))
    ensures forall i :: 0 <= i < |ReadHead(table, cursor, size)| ==> Beyond(cursor, ReadHead(table, cursor, size)[i].id)
  {
    var k := FirstPast(table, cursor, 0);
    FirstPastMeans(table, cursor, 0);
    var rows := ReadHead(table, cursor, size);
    assert forall i :: 0 <= i < |rows| ==> rows[i] == table[k + i];
  }

  /** The two withhold the same ids past the cursor. */
  ghost predicate Agree(withheld: iset<Id>, other: iset<Id>, cursor: Option<Id>) {
    forall id :: Beyond(cursor, id) ==> (id in withheld <==> id in other)
  }

  lemma GrownIffFound(ids: seq<Id>)
    ensures IdSet(ids) == {} <==> ids == []
  {
    if ids != [] {
      assert ids[0] in IdSet(ids);
    }
  }

  /** What lies past the last row read lies past the old cursor, and outside the rows. */
  lemma RowIdsUpTo(rows: seq<Row>, cursor: Option<Id>)
    requires Ascending(rows) && rows != [] && Beyond(cursor, rows[|rows| - 1].id)
    ensures forall id :: rows[|rows| - 1].id < id ==> id !in RowIds(rows) && Beyond(cursor, id)
  {
    RowIdsBelow(rows, |rows| - 1, |rows| - 1);
    assert RowIds(rows) == RowIds(rows[..|rows| - 1]) + {rows[|rows| - 1].id};
  }

  /** The two withhold the same ids, apart from these. */
  ghost predicate SameBut(withheld: iset<Id>, other: iset<Id>, ids: set<Id>) {
    forall id :: id !in ids ==> (id in withheld <==> id in other)
  }

  lemma SameButTrans(a: iset<Id>, b: iset<Id>, c: iset<Id>, ids: set<Id>, id: Id)
    requires SameBut(a, b, {id}) && SameBut(b, c, ids)
    ensures SameBut(a, c, ids + {id})
  {
  }

  /** How far a window has got: the queue, the batch, and what is withheld. */
  datatype Progress = Progress(queued: seq<Id>, batch: set<Id>, withheld: iset<Id>)

  /** The first `i` rows of a window have been gone through. */
  ghost predicate UpTo(rows: seq<Row>, i: nat, was: Progress, now: Progress)
    requires i <= |rows|
  {
    && now.queued == was.queued + Eligible(rows[..i], was.withheld)
    && now.batch == was.batch + IdSet(Eligible(rows[..i], was.withheld))
    && SameBut(now.withheld, was.withheld, RowIds(rows[..i]))
  }

  lemma UpToNext(rows: seq<Row>, i: nat, was: Progress, until: Progress, now: Progress)
    requires i < |rows| && rows[i].id !in RowIds(rows[..i]) && UpTo(rows, i, was, until)
    requires var got := rows[i].decodable && rows[i].id !in until.withheld;
             && now.queued == until.queued + (if got then [rows[i].id] else [])
             && now.batch == until.batch + (if got then {rows[i].id} else {})
    requires SameBut(now.withheld, until.withheld, {rows[i].id})
    ensures UpTo(rows, i + 1, was, now)
  {
    EligibleGrows(rows, i, was.withheld);
    SameButTrans(now.withheld, until.withheld, was.withheld, RowIds(rows[..i]), rows[i].id);
  }

  /** Past the last row read, the two still agree. */
  lemma AgreeOnward(was: iset<Id>, withheld: iset<Id>, before: iset<Id>, cursor: Option<Id>, rows: seq<Row>)
    requires Agree(was, before, cursor) && SameBut(withheld, was, RowIds(rows))
    requires Ascending(rows) && rows != [] && Beyond(cursor, rows[|rows| - 1].id)
    ensures Agree(withheld, before, Some(rows[|rows| - 1].id))
  {
    RowIdsUpTo(rows, cursor);
  }

  lemma EligibleAgrees(withheld: iset<Id>, before: iset<Id>, cursor: Option<Id>, rows: seq<Row>)
    requires Agree(withheld, before, cursor) && forall i :: 0 <= i < |rows| ==> Beyond(cursor, rows[i].id)
    ensures Eligible(rows, withheld) == Eligible(rows, before)
  {
    EligibleLocal(rows, withheld, before);
  }

  /** Everything withheld was handed out or consumed within the last half minute. */
  ghost predicate AllRecent(withheld: iset<Id>, h: seq<Event>, now: Instant) {
    forall id :: id in withheld ==> Recent(StatusOf(h, id), now)
  }

  /** Whether a batch holds anything the last one did not. */
  method Classify(ids: set<Id>, last: set<Id>) returns (batch: Batch)
    ensures batch == if ids == {} then Empty else if ids <= last then Repeated else Queued
  {
    if ids == {} {
      batch := Empty;
    } else if exists id :: id in ids && id !in last {
      batch := Queued;
    } else {
      batch := Repeated;
    }
  }

  /** How a poll ends: a failed read changes nothing; otherwise what was found is queued behind what
      waited and becomes the last batch, `Repeated` when the previous batch already held all of it. */
  ghost predicate Polled(found: Option<seq<Id>>, batch: Option<Batch>, queued: seq<Id>, now: seq<Id>, last: set<Id>,
                         latest: set<Id>)
  {
    match found
    case None => batch == None && now == queued && latest == last
    case Some(ids) =>
      && now == queued + ids && latest == IdSet(ids)
      && batch == Some(if ids == [] then Empty else if latest <= last then Repeated else Queued)
  }

  /** The same over one table, in full view: Empty when none of the rows the walk may see is ready, else the
      ready rows of the first window that has one, Repeated or Queued as the last batch has them all or not. */
  ghost predicate PolledOver(table: seq<Row>, size: nat, withheld: iset<Id>, batch: Option<Batch>, queued: seq<Id>,
                             now: seq<Id>, last: set<Id>, latest: set<Id>)
  {
    exists ids :: HandsOut(table, size, 5, withheld, ids)
                  && Polled(Some(ids), batch, queued, now, last, latest)
  }

  /** The history of one round of settlements. */
  function Outcomes(settled: seq<(Id, Settlement)>, now: Instant): seq<Event> {
    if settled == [] then [] else [Settled(settled[0].0, settled[0].1, now)] + Outcomes(settled[1..], now)
  }

  lemma OutcomesStep(h: seq<Event>, settled: seq<(Id, Settlement)>, now: Instant)
    requires settled != []
    ensures h + [Settled(settled[0].0, settled[0].1, now)] + Outcomes(settled[1..], now) == h + Outcomes(settled, now)
  {
  }

  /** A stream of commands for a single cell. */
  class CommandStream {
    const batchSize: nat
    const dispatched: Dispatched
    var settled: seq<(Id, Settlement)>
    var queued: seq<Id>
    var lastBatch: set<Id>
    /** What `Next` has given the reader so far. */
    ghost var delivered: seq<Id>

    /** Besides the book: what was recorded as handed out is exactly what the reader got and what waits. */
    ghost predicate Valid()
      reads this, dispatched
    {
      batchSize > 0 && dispatched.Valid() && HandedIds(dispatched.history) == delivered + queued
    }

    constructor (batchSize: nat)
      ensures Valid() && fresh(dispatched) && this.batchSize == Max(batchSize, 1) && queued == [] && lastBatch == {}
    {
      var book := new Dispatched();
      this.batchSize, dispatched := Max(batchSize, 1), book;
      settled, queued, lastBatch, delivered := [], [], {}, [];
    }

    ghost function Withholds(now: Instant): iset<Id>
      reads dispatched
    {
      iset id | dispatched.Suppresses(id, now)
    }

    /** The next queued command, if there is one. */
    method Next() returns (id: Option<Id>)
      requires Valid()
      modifies this`queued, this`delivered
      ensures Valid()
      ensures old(queued) == [] ==> id == None && queued == [] && delivered == old(delivered)
      ensures old(queued) != [] ==>
              id == Some(old(queued)[0]) && queued == old(queued)[1..] && delivered == old(delivered) + [old(queued)[0]]
    {
      if queued == [] {
        return None;
      }
      id := Some(queued[0]);
      delivered := delivered + [queued[0]];
      queued := queued[1..];
    }

    /** Applies the first reported outcome. */
    method SettleNext(now: Instant)
      requires Valid() && dispatched.clock <= now && settled != []
      modifies this`settled, dispatched
      ensures Valid() && dispatched.clock <= now && settled == old(settled)[1..]
      ensures dispatched.history + Outcomes(settled, now) == old(dispatched.history) + Outcomes(old(settled), now)
    {
      OutcomesStep(dispatched.history, settled, now);
      HandedAppend(dispatched.history, Settled(settled[0].0, settled[0].1, now));
      dispatched.Settle(settled[0].0, settled[0].1, now);
      settled := settled[1..];
    }

    /** Applies every reported outcome, in order. */
    method Drain(now: Instant)
      requires Valid() && dispatched.clock <= now
      modifies this`settled, dispatched
      ensures Valid() && dispatched.clock <= now && settled == []
      ensures dispatched.history == old(dispatched.history) + Outcomes(old(settled), now)
    {
      while settled != []
        invariant Valid() && dispatched.clock <= now
        invariant dispatched.history + Outcomes(settled, now) == old(dispatched.history) + Outcomes(old(settled), now)
        decreases |settled|
      {
        SettleNext(now);
      }
      assert dispatched.history + [] == dispatched.history;
    }

    /** Applies every reported outcome in order, then prunes. */
    method TakeSettlements(now: Instant) returns (ghost evicted: seq<Event>)
      requires Valid() && dispatched.clock <= now
      modifies this`settled, dispatched
      ensures Valid() && dispatched.clock == now && settled == []
      ensures dispatched.history == old(dispatched.history) + Outcomes(old(settled), now) + evicted
              && OnlyEvictions(evicted)
      ensures AllRecent(Withholds(now), dispatched.history, now)
    {
      Drain(now);
      ghost var before, queue := dispatched.history, dispatched.consumed;
      ghost var n := dispatched.Prune(now);
      evicted := Evictions(queue, n, now);
      HandedSame(before, evicted);
    }

    /** One row of a window: skipped, handed out, or moved to the dead letters. */
    method QueueRow(row: Row, now: Instant, buries: Id -> bool, batch: set<Id>) returns (grown: set<Id>)
      requires Valid() && dispatched.clock <= now
      modifies this`queued, dispatched
      ensures Valid() && dispatched.clock <= now
      ensures var got := row.decodable && row.id !in old(Withholds(now));
              && queued == old(queued) + (if got then [row.id] else [])
              && grown == batch + (if got then {row.id} else {})
      ensures SameBut(Withholds(now), old(Withholds(now)), {row.id})
      ensures !row.decodable && buries(row.id) ==> row.id in Withholds(now)
      ensures !row.decodable && !buries(row.id) ==> Withholds(now) == old(Withholds(now))
    {
      grown := batch;
      if !dispatched.Suppresses(row.id, now) {
        if row.decodable {
          HandedAppend(dispatched.history, Handed(row.id, now));
          dispatched.Dispatch(row.id, now);
          grown := grown + {row.id};
          queued := queued + [row.id];
        } else if buries(row.id) {
          HandedAppend(dispatched.history, Settled(row.id, Consumed, now));
          dispatched.Settle(row.id, Consumed, now);
        }
      }
    }

    /** The next row of a window. What the rows before it did does not touch it: no id comes twice. */
    method QueueNext(rows: seq<Row>, i: nat, now: Instant, buries: Id -> bool, batch: set<Id>, ghost was: Progress)
      returns (grown: set<Id>)
      requires Valid() && dispatched.clock <= now && i < |rows| && rows[i].id !in RowIds(rows[..i])
      requires UpTo(rows, i, was, Progress(queued, batch, Withholds(now)))
      modifies this`queued, dispatched
      ensures Valid() && dispatched.clock <= now
      ensures UpTo(rows, i + 1, was, Progress(queued, grown, Withholds(now)))
    {
      ghost var until := Progress(queued, batch, Withholds(now));
      grown := QueueRow(rows[i], now, buries, batch);
      UpToNext(rows, i, was, until, Progress(queued, grown, Withholds(now)));
    }

    /** Queues the eligible rows of one window, in order. */
    method QueueWindow(rows: seq<Row>, now: Instant, buries: Id -> bool, batch: set<Id>) returns (grown: set<Id>)
      requires Valid() && dispatched.clock <= now && Ascending(rows)
      modifies this`queued, dispatched
      ensures Valid() && dispatched.clock <= now
      ensures queued == old(queued) + Eligible(rows, old(Withholds(now)))
      ensures grown == batch + IdSet(Eligible(rows, old(Withholds(now))))
      ensures SameBut(Withholds(now), old(Withholds(now)), RowIds(rows))
    {
      grown := batch;
      ghost var was := Progress(queued, batch, Withholds(now));
      for i := 0 to |rows|
        invariant Valid() && dispatched.clock <= now
        invariant UpTo(rows, i, was, Progress(queued, grown, Withholds(now)))
      {
        RowIdsBelow(rows, i, i);
        grown := QueueNext(rows, i, now, buries, grown, was);
      }
      assert rows[..|rows|] == rows;
    }

    /** Reads one window and hands out what is eligible in it. Rows past the cursor are withheld exactly
        as they were when the walk began, and stay so past the row it moves on to. */
    method ReadWindow(view: View, cursor: Option<Id>, now: Instant, buries: Id -> bool, ghost before: iset<Id>)
      returns (over: bool, batch: Option<set<Id>>, next: Option<Id>)
      requires Valid() && dispatched.clock <= now && (view.Some? ==> Ascending(view.value))
      requires Agree(Withholds(now), before, cursor)
      modifies this`queued, dispatched
      ensures Valid() && dispatched.clock <= now
      ensures var step := WindowStep(view, cursor, batchSize, Picks(before));
              match step
              case Failed => over && batch == None && queued == old(queued)
              case Done(found) => over && batch == Some(IdSet(found)) && queued == old(queued) + found
              case Onward(last) =>
                !over && next == Some(last) && queued == old(queued) && Agree(Withholds(now), before, next)
    {
      if view.None? {
        return true, None, None;
      }
      var rows := ReadHead(view.value, cursor, batchSize);
      ReadBeyond(view.value, cursor, batchSize);
      ghost var was := Withholds(now);
      EligibleAgrees(was, before, cursor, rows);
      var grown := QueueWindow(rows, now, buries, {});
      GrownIffFound(Eligible(rows, before));
      assert grown == IdSet(Eligible(rows, before));
      if grown != {} || |rows| < batchSize || rows == [] {
        return true, Some(grown), None;
      }
      AgreeOnward(was, Withholds(now), before, cursor, rows);
      return false, None, Some(rows[|rows| - 1].id);
    }

    /** Walks the windows until one hands something out, comes back short, or the walk is over. A failed
        read leaves the queue as it was. */
    method WalkWindows(views: seq<View>, now: Instant, buries: Id -> bool) returns (batch: Option<set<Id>>)
      requires Valid() && dispatched.clock <= now && AllAscending(views)
      modifies this`queued, dispatched
      ensures Valid() && dispatched.clock <= now
      ensures var found := Walk(views, 0, None, Stepping(batchSize, Picks(old(Withholds(now)))));
              && (found.None? ==> batch == None && queued == old(queued))
              && (found.Some? ==> batch == Some(IdSet(found.value)) && queued == old(queued) + found.value)
      ensures var found := Walk(views, 0, None, Stepping(batchSize, Picks(old(Withholds(now)))));
              OnOneTable(views, batchSize, old(Withholds(now)), found)
    {
      OneTable(views, batchSize, Withholds(now));
      var cursor: Option<Id>, w := None, 0;
      ghost var before := Withholds(now);
      while w < |views|
        invariant Valid() && dispatched.clock <= now && w <= |views| && queued == old(queued)
        invariant Walk(views, 0, None, Stepping(batchSize, Picks(before)))
                  == Walk(views, w, cursor, Stepping(batchSize, Picks(before)))
        invariant Agree(Withholds(now), before, cursor)
      {
        var over, got, next := ReadWindow(views[w], cursor, now, buries, before);
        if over {
          return got;
        }
        cursor, w := next, w + 1;
      }
      GrownIffFound([]);
      batch := Some({});
    }

    /** Says whether a batch holds anything the last one did not, and becomes the last one. */
    method Report(ids: set<Id>) returns (batch: Batch)
      requires Valid()
      modifies this`lastBatch
      ensures Valid() && lastBatch == ids
      ensures batch == if ids == {} then Empty else if ids <= old(lastBatch) then Repeated else Queued
    {
      batch := Classify(ids, lastBatch);
      lastBatch := ids;
    }

    /** A whole poll: settle, prune, walk, and say whether anything queued is new since the last batch.
        What the walk leaves out as withheld was handed out or consumed within the last half minute. */
    method PollBatch(views: seq<View>, now: Instant, buries: Id -> bool)
      returns (batch: Option<Batch>, ghost evicted: seq<Event>, ghost withheld: iset<Id>)
      requires Valid() && dispatched.clock <= now && |views| == SUPPRESSED_WINDOWS + 1
      requires AllAscending(views)
      modifies this`settled, this`queued, this`lastBatch, dispatched
      ensures Valid() && dispatched.clock <= now && settled == [] && OnlyEvictions(evicted)
      ensures AllRecent(withheld, old(dispatched.history) + Outcomes(old(settled), now) + evicted, now)
      ensures Polled(Walk(views, 0, None, Stepping(batchSize, Picks(withheld))), batch, old(queued), queued,
              old(lastBatch), lastBatch)
      ensures forall table :: Unchanging(views, table) ==>
                PolledOver(table, batchSize, withheld, batch, old(queued), queued, old(lastBatch), lastBatch)
    {
      evicted := TakeSettlements(now);
      withheld := Withholds(now);
      ghost var found := Walk(views, 0, None, Stepping(batchSize, Picks(withheld)));
      var got := WalkWindows(views, now, buries);
      if got.None? {
        return None, evicted, withheld;
      }
      GrownIffFound(found.value);
      var kind := Report(got.value);
      batch := Some(kind);
    }
  }
}
