/** Serving a catch-up: the one-shot changeset, the paged pull that refines it, and the coverage
    check a draining holder runs before it retires (swarm/db/src/replication.rs). */
module Pull {
  import opened Basics
  import opened SyncPoints
  import opened Catchup

  type Bytes = seq<bv8>

  datatype Entry = Entry(key: Bytes, value: Option<Bytes>)

  /** One row of the sync point table, with the changes written under it. */
  datatype Row = Row(id: Point, deletion: bool, changes: seq<Entry>)

  datatype Chunk = Chunk(id: Point, deletion: bool, entries: seq<Entry>)

  const PER_ENTRY_OVERHEAD: nat := 16
  const PER_CHUNK_OVERHEAD: nat := 32
  const CHUNK_WIRE_OVERHEAD: nat := 48

  function EntryBytes(entries: seq<Entry>): nat {
    if entries == [] then 0
    else EntryBytes(entries[..|entries| - 1])
         + |entries[|entries| - 1].key| + |entries[|entries| - 1].value.Or([])| + PER_ENTRY_OVERHEAD
  }

  function ChunkSize(entries: seq<Entry>): nat {
    PER_CHUNK_OVERHEAD + EntryBytes(entries)
  }

  function SatAdd(a: nat, b: nat): nat {
    Min(a + b, U64_MAX)
  }

  /** The bytes of the entries, keys and values and 16 more for each. */
  function DataOf(entries: seq<Entry>): nat {
    if entries == [] then 0
    else
      var e := entries[|entries| - 1];
      DataOf(entries[..|entries| - 1]) + |e.key| + (if e.value.Some? then |e.value.value| else 0) + 16
  }

  function WireBytes(chunks: seq<Chunk>): nat {
    if chunks == [] then 0 else WireBytes(chunks[..|chunks| - 1]) + DataOf(chunks[|chunks| - 1].entries) + 80
  }

  lemma {:induction false} EntryBytesAre(entries: seq<Entry>)
    ensures EntryBytes(entries) == DataOf(entries)
  {
    if entries != [] {
      EntryBytesAre(entries[..|entries| - 1]);
    }
  }

  /** What a page holding `chunks` counts as its size: the data and 80 bytes for every chunk, in a word that
      saturates. */
  function Counted(chunks: seq<Chunk>): nat {
    Min(WireBytes(chunks), 0xFFFF_FFFF_FFFF_FFFF)
  }

  /** A deletion marker travels without data. */
  function ToChunk(row: Row): Chunk {
    Chunk(row.id, row.deletion, if row.deletion then [] else row.changes)
  }

  /** Rows in ascending key order. */
  ghost predicate Sorted(rows: seq<Row>) {
    var n := |rows|;
    n < 2 || (Before(rows[n - 2].id, rows[n - 1].id) && Sorted(rows[..n - 1]))
  }

  lemma {:induction false} SortedMeans(rows: seq<Row>)
    requires Sorted(rows)
    ensures forall i, j :: 0 <= i < j < |rows| ==> Before(rows[i].id, rows[j].id)
  {
    if |rows| > 1 {
      SortedMeans(rows[..|rows| - 1]);
    }
  }

  datatype Request = Request(sinceTs: Option<nat>, floors: map<nat, nat>)

  predicate Wanted(req: Request, id: Point) {
    !Skips(req.sinceTs, req.floors, id.ts, id.epoch)
  }

  /** The chunks of the rows from index `i` on that the request does not exclude, in key order. */
  function Served(req: Request, rows: seq<Row>, i: nat): seq<Chunk>
    requires i <= |rows|
    decreases |rows| - i
  {
    if i == |rows| then []
    else if Wanted(req, rows[i].id) then [ToChunk(rows[i])] + Served(req, rows, i + 1)
    else Served(req, rows, i + 1)
  }

  /** What a chunk carries of a row: its point and its marker, and its changes unless it is a deletion. */
  ghost predicate StandsFor(c: Chunk, row: Row) {
    c.id == row.id && c.deletion == row.deletion && c.entries == if c.deletion then [] else row.changes
  }

  /** The rows a request is after: those past the cursor, up to the end of the page, that it does not exclude. */
  predicate Asked(req: Request, after: Option<Point>, end: Option<Point>, row: Row) {
    && Wanted(req, row.id) && (after.None? || Before(after.value, row.id)) && (end.None? || !Before(end.value, row.id))
  }

  /** Every chunk stands for a row asked for, and every row asked for has a chunk. */
  ghost predicate Answers(chunks: seq<Chunk>, rows: seq<Row>, req: Request, after: Option<Point>, end: Option<Point>) {
    && (forall c :: c in chunks ==>
          exists k :: 0 <= k < |rows| && Asked(req, after, end, rows[k]) && StandsFor(c, rows[k]))
    && (forall k :: 0 <= k < |rows| && Asked(req, after, end, rows[k]) ==>
          exists c :: c in chunks && StandsFor(c, rows[k]))
  }

  lemma {:induction false} ServedFor(req: Request, rows: seq<Row>, i: nat, c: Chunk) returns (k: nat)
    requires i <= |rows| && c in Served(req, rows, i)
    ensures i <= k < |rows| && Wanted(req, rows[k].id) && StandsFor(c, rows[k])
    decreases |rows| - i
  {
    if Wanted(req, rows[i].id) && c == Served(req, rows, i)[0] {
      k := i;
    } else {
      k := ServedFor(req, rows, i + 1, c);
    }
  }

  lemma {:induction false} RowServed(req: Request, rows: seq<Row>, i: nat, k: nat)
    requires i <= k < |rows| && Wanted(req, rows[k].id)
    ensures exists c :: c in Served(req, rows, i) && StandsFor(c, rows[k])
    decreases |rows| - i
  {
    if i == k {
      assert StandsFor(Served(req, rows, i)[0], rows[k]);
    } else {
      RowServed(req, rows, i + 1, k);
      var c :| c in Served(req, rows, i + 1) && StandsFor(c, rows[k]);
      assert c in Served(req, rows, i);
    }
  }

  /** The whole answer: the rows the request does not exclude, their changes with them, and nothing else. */
  lemma ServedAnswers(req: Request, rows: seq<Row>)
    ensures Answers(Served(req, rows, 0), rows, req, None, None)
  {
    forall c | c in Served(req, rows, 0)
      ensures exists k :: 0 <= k < |rows| && Asked(req, None, None, rows[k]) && StandsFor(c, rows[k])
    {
      var k := ServedFor(req, rows, 0, c);
    }
    forall k | 0 <= k < |rows| && Asked(req, None, None, rows[k])
      ensures exists c :: c in Served(req, rows, 0) && StandsFor(c, rows[k])
    {
      RowServed(req, rows, 0, k);
    }
  }

  /** The rows of the requested scope, if the holder's subject contains it, answered in one go. */
  method HandleChangeSetReq(inSubject: bool, rows: seq<Row>, req: Request) returns (chunks: seq<Chunk>)
    ensures chunks == if inSubject then Served(req, rows, 0) else []
    ensures inSubject ==> Answers(chunks, rows, req, None, None)
  {
    chunks := [];
    if !inSubject {
      return;
    }
    var i := 0;
    while i < |rows|
      invariant 0 <= i <= |rows|
      invariant chunks + Served(req, rows, i) == Served(req, rows, 0)
    {
      if Wanted(req, rows[i].id) {
        chunks := chunks + [ToChunk(rows[i])];
      }
      i := i + 1;
    }
    ServedAnswers(req, rows);
  }

  /** The index of the first row past the cursor. */
  function Past(rows: seq<Row>, after: Option<Point>, i: nat): (k: nat)
    requires i <= |rows|
    ensures i <= k <= |rows|
    decreases |rows| - i
  {
    if after.None? || i == |rows| || Before(after.value, rows[i].id) then i else Past(rows, after, i + 1)
  }

  datatype Page = Page(chunks: seq<Chunk>, next: Option<Point>)

  /** Up to its last chunk, a page stays under its budget. */
  ghost predicate Fits(chunks: seq<Chunk>, budget: nat) {
    |chunks| > 1 ==> Counted(chunks[..|chunks| - 1]) < budget
  }

  /** A page of the answer that remains, `rest`: all of it, or a proper non-empty part of it that
      reached the budget with its last chunk and says where to resume. */
  ghost predicate IsPage(rest: seq<Chunk>, budget: nat, page: Page) {
    && |page.chunks| <= |rest| && page.chunks == rest[..|page.chunks|]
    && Fits(page.chunks, budget)
    && (page.next.None? ==> page.chunks == rest)
    && (page.next.Some? ==> 0 < |page.chunks| < |rest| && page.next.value == page.chunks[|page.chunks| - 1].id
                            && Counted(page.chunks) >= budget)
  }

  lemma {:induction false} PastSkips(rows: seq<Row>, after: Option<Point>, j: nat, i: nat)
    requires j <= i <= |rows| && after.Some?
    requires forall k :: j <= k < i ==> !Before(after.value, rows[k].id)
    ensures Past(rows, after, j) == Past(rows, after, i)
    decreases i - j
  {
    if j < i {
      PastSkips(rows, after, j + 1, i);
    }
  }

  /** Finds where the cursor's range starts, and steps over the cursor's own key. */
  method Seek(rows: seq<Row>, after: Option<Point>) returns (i: nat)
    requires Sorted(rows)
    ensures i == Past(rows, after, 0)
  {
    SortedMeans(rows);
    i := 0;
    if after.None? {
      return;
    }
    while i < |rows| && Before(rows[i].id, after.value)
      invariant 0 <= i <= |rows|
      invariant forall k :: 0 <= k < i ==> Before(rows[k].id, after.value)
    {
      i := i + 1;
    }
    if i < |rows| && rows[i].id == after.value {
      i := i + 1;
      assert i < |rows| ==> Before(rows[i - 1].id, rows[i].id);
    }
    PastSkips(rows, after, 0, i);
  }

  function Weigh(bytes: nat, chunk: Chunk): nat {
    SatAdd(SatAdd(bytes, ChunkSize(chunk.entries)), CHUNK_WIRE_OVERHEAD)
  }

  lemma PageGrows(chunks: seq<Chunk>, chunk: Chunk, tail: seq<Chunk>, budget: nat)
    requires chunks != [] ==> Counted(chunks) < budget
    ensures Counted(chunks + [chunk]) == Weigh(Counted(chunks), chunk)
    ensures Fits(chunks + [chunk], budget)
    ensures chunks + ([chunk] + tail) == (chunks + [chunk]) + tail
  {
    EntryBytesAre(chunk.entries);
    assert (chunks + [chunk])[..|chunks|] == chunks;
  }

  lemma PageFull(chunks: seq<Chunk>, tail: seq<Chunk>, budget: nat)
    requires chunks != [] && tail != [] && Fits(chunks, budget) && Counted(chunks) >= budget
    ensures IsPage(chunks + tail, budget, Page(chunks, Some(chunks[|chunks| - 1].id)))
  {
  }

  lemma PageLast(chunks: seq<Chunk>, budget: nat)
    requires Fits(chunks, budget)
    ensures IsPage(chunks, budget, Page(chunks, None))
  {
  }

  /** Serves one bounded page past the cursor. Outside the holder's subject there is no answer. */
  method ServePull(inSubject: bool, rows: seq<Row>, req: Request, after: Option<Point>, budget: nat)
    returns (page: Option<Page>)
    requires Sorted(rows)
    ensures page.Some? <==> inSubject
    ensures inSubject ==> IsPage(Served(req, rows, Past(rows, after, 0)), budget, page.value)
    ensures inSubject ==> Answers(page.value.chunks, rows, req, after, page.value.next)
  {
    if !inSubject {
      return None;
    }
    PagesAnswer(req, rows, after, budget);
    var i := Seek(rows, after);
    var chunks: seq<Chunk> := [];
    var bytes := 0;
    ghost var rest := Served(req, rows, i);
    while i < |rows|
      invariant i <= |rows|
      invariant rest == chunks + Served(req, rows, i)
      invariant bytes == Counted(chunks)
      invariant Fits(chunks, budget)
    {
      if Wanted(req, rows[i].id) {
        if |chunks| > 0 && bytes >= budget {
          PageFull(chunks, Served(req, rows, i), budget);
          return Some(Page(chunks, Some(chunks[|chunks| - 1].id)));
        }
        var chunk := ToChunk(rows[i]);
        PageGrows(chunks, chunk, Served(req, rows, i + 1), budget);
        bytes := Weigh(bytes, chunk);
        chunks := chunks + [chunk];
      }
      i := i + 1;
    }
    assert rest == chunks;
    PageLast(chunks, budget);
    page := Some(Page(chunks, None));
  }

  /** Cutting an answer after its n-th chunk is resuming past that chunk's row. */
  lemma {:induction false} ServedSplit(req: Request, rows: seq<Row>, i: nat, n: nat) returns (r: nat)
    requires i <= |rows| && 0 < n <= |Served(req, rows, i)|
    ensures i <= r < |rows|
    ensures Served(req, rows, i)[n - 1].id == rows[r].id
    ensures Served(req, rows, i)[n..] == Served(req, rows, r + 1)
    decreases |rows| - i
  {
    if !Wanted(req, rows[i].id) {
      r := ServedSplit(req, rows, i + 1, n);
    } else if n == 1 {
      r := i;
    } else {
      r := ServedSplit(req, rows, i + 1, n - 1);
      assert Served(req, rows, i)[n..] == Served(req, rows, i + 1)[n - 1..];
    }
  }

  lemma PastRow(rows: seq<Row>, r: nat)
    requires Sorted(rows) && r < |rows|
    ensures Past(rows, Some(rows[r].id), 0) == r + 1
  {
    SortedMeans(rows);
    PastSkips(rows, Some(rows[r].id), 0, r + 1);
    assert r + 1 < |rows| ==> Before(rows[r].id, rows[r + 1].id);
  }

  /** Following a page's resume cursor serves exactly what the page left out. */
  lemma ResumeExact(req: Request, rows: seq<Row>, after: Option<Point>, budget: nat, page: Page)
    requires Sorted(rows)
    requires IsPage(Served(req, rows, Past(rows, after, 0)), budget, page) && page.next.Some?
    ensures Served(req, rows, Past(rows, page.next, 0)) == Served(req, rows, Past(rows, after, 0))[|page.chunks|..]
  {
    var r := ServedSplit(req, rows, Past(rows, after, 0), |page.chunks|);
    PastRow(rows, r);
  }

  lemma PastMeans(rows: seq<Row>, after: Option<Point>)
    requires Sorted(rows)
    ensures forall k :: 0 <= k < |rows| ==>
              (Past(rows, after, 0) <= k <==> after.None? || Before(after.value, rows[k].id))
  {
    SortedMeans(rows);
    PastFirst(rows, after, 0);
  }

  lemma {:induction false} PastFirst(rows: seq<Row>, after: Option<Point>, i: nat)
    requires i <= |rows|
    ensures forall k :: i <= k < Past(rows, after, i) ==> after.Some? && !Before(after.value, rows[k].id)
    ensures Past(rows, after, i) < |rows| ==> after.None? || Before(after.value, rows[Past(rows, after, i)].id)
    decreases |rows| - i
  {
    if after.Some? && i < |rows| && !Before(after.value, rows[i].id) {
      PastFirst(rows, after, i + 1);
    } else {
      assert Past(rows, after, i) == i;
    }
  }

  /** The beginning of an answer is served for its own stretch of rows: from the cursor to its last chunk. */
  lemma PrefixAnswers(req: Request, rows: seq<Row>, after: Option<Point>, chunks: seq<Chunk>, end: Option<Point>)
    requires Sorted(rows) && chunks <= Served(req, rows, Past(rows, after, 0))
    requires if end.None? then chunks == Served(req, rows, Past(rows, after, 0))
             else chunks != [] && end.value == chunks[|chunks| - 1].id
    ensures Answers(chunks, rows, req, after, end)
  {
    var from := Past(rows, after, 0);
    var rest, n := Served(req, rows, from), |chunks|;
    PastMeans(rows, after);
    ServedInOrder(req, rows, from);
    forall c | c in chunks
      ensures exists k :: 0 <= k < |rows| && Asked(req, after, end, rows[k]) && StandsFor(c, rows[k])
    {
      var j :| 0 <= j < n && chunks[j] == c;
      assert rest[j] == c && (j < n - 1 ==> Before(rest[j].id, rest[n - 1].id));
      var k := ServedFor(req, rows, from, c);
    }
    forall k | 0 <= k < |rows| && Asked(req, after, end, rows[k])
      ensures exists c :: c in chunks && StandsFor(c, rows[k])
    {
      RowServed(req, rows, from, k);
      var c :| c in rest && StandsFor(c, rows[k]);
      var j :| 0 <= j < |rest| && rest[j] == c;
      assert chunks[j] == c;
    }
  }

  lemma PullAnswers(req: Request, rows: seq<Row>)
    requires Sorted(rows)
    ensures Answers(Served(req, rows, 0), rows, req, None, None)
    ensures forall chunks :: chunks != [] && chunks <= Served(req, rows, 0) ==>
              Answers(chunks, rows, req, None, Some(chunks[|chunks| - 1].id))
  {
    ServedAnswers(req, rows);
    forall chunks | chunks != [] && chunks <= Served(req, rows, 0)
      ensures Answers(chunks, rows, req, None, Some(chunks[|chunks| - 1].id))
    {
      assert Past(rows, None, 0) == 0;
      PrefixAnswers(req, rows, None, chunks, Some(chunks[|chunks| - 1].id));
    }
  }

  lemma PagesAnswer(req: Request, rows: seq<Row>, after: Option<Point>, budget: nat)
    requires Sorted(rows)
    ensures forall page :: IsPage(Served(req, rows, Past(rows, after, 0)), budget, page) ==>
              Answers(page.chunks, rows, req, after, page.next)
  {
    forall page | IsPage(Served(req, rows, Past(rows, after, 0)), budget, page)
      ensures Answers(page.chunks, rows, req, after, page.next)
    {
      PrefixAnswers(req, rows, after, page.chunks, page.next);
    }
  }

  /** What becomes of one page on its way: applied, lost with the query, or refused by the store. */
  datatype Fate = Applied | Unreachable | Refused

  /** How a finished pull is vouched for. */
  datatype Vouch = Silent | Announce(floored: bool)

  ghost predicate ElidedAt(lagCut: nat, chunk: Chunk) {
    Elides(lagCut, chunk.id.ts, Head(chunk.id.epoch, chunk.id.node))
  }

  /** The oldest version among the chunks, as a floored announce would judge it. */
  function OldestOf(chunks: seq<Chunk>): nat {
    if chunks == [] then U64_MAX
    else
      var id := chunks[|chunks| - 1].id;
      Min(OldestOf(chunks[..|chunks| - 1]), Max(id.ts, id.epoch))
  }

  /** Takes a page's chunks into account. */
  method Oldest(chunks: seq<Chunk>, oldest: nat, ghost before: seq<Chunk>) returns (o: nat)
    requires oldest == OldestOf(before)
    ensures o == OldestOf(before + chunks)
  {
    o := oldest;
    assert before + chunks[..0] == before;
    for i := 0 to |chunks|
      invariant o == OldestOf(before + chunks[..i])
    {
      assert (before + chunks[..i + 1])[..|before| + i] == before + chunks[..i];
      o := Min(o, Max(chunks[i].id.ts, chunks[i].id.epoch));
    }
    assert before + chunks[..|chunks|] == before + chunks;
  }

  /** Some chunk is history that an announce cut there would leave out. */
  ghost predicate BringsHistory(chunks: seq<Chunk>, lagCut: nat) {
    exists c :: c in chunks && ElidedAt(lagCut, c)
  }

  lemma {:induction false} OldestIsHistory(chunks: seq<Chunk>, lagCut: nat)
    requires lagCut < U64_MAX
    ensures OldestOf(chunks) <= lagCut <==> BringsHistory(chunks, lagCut)
  {
    if chunks != [] {
      var init, last := chunks[..|chunks| - 1], chunks[|chunks| - 1];
      OldestIsHistory(init, lagCut);
      if BringsHistory(init, lagCut) {
        var c :| c in init && ElidedAt(lagCut, c);
        assert c in chunks;
      } else if ElidedAt(lagCut, last) {
        assert last in chunks;
      } else {
        assert forall c :: c in chunks ==> c in init || c == last;
      }
    }
  }

  /** The answer does not fit one page. */
  ghost predicate ManyPages(all: seq<Chunk>, budget: nat) {
    |all| > 1 && Counted(all[..|all| - 1]) >= budget
  }

  lemma {:induction false} CountedGrows(chunks: seq<Chunk>, n: nat)
    requires n <= |chunks|
    ensures WireBytes(chunks[..n]) <= WireBytes(chunks)
    ensures Counted(chunks[..n]) <= Counted(chunks) <= U64_MAX
  {
    if n < |chunks| {
      CountedGrows(chunks[..|chunks| - 1], n);
      assert chunks[..|chunks| - 1][..n] == chunks[..n];
    } else {
      assert chunks[..n] == chunks;
      if n > 0 {
        CountedGrows(chunks[..n - 1], n - 1);
      }
    }
  }

  /** A page that leaves something out shows that the answer takes several. */
  lemma FirstOfMany(all: seq<Chunk>, budget: nat, page: Page)
    requires IsPage(all, budget, page) && page.next.Some?
    ensures ManyPages(all, budget)
  {
    var n := |page.chunks|;
    CountedGrows(all[..|all| - 1], n);
    assert all[..|all| - 1][..n] == page.chunks;
  }

  /** Part way through a pull: what was applied and what the holder would still serve, something once a page
      has been taken, which shows that the answer takes several. */
  ghost predicate PartWay(all: seq<Chunk>, applied: seq<Chunk>, rest: seq<Chunk>, pages: nat, budget: nat) {
    all == applied + rest && if pages == 0 then applied == [] else ManyPages(all, budget) && rest != []
  }

  lemma TakePage(all: seq<Chunk>, applied: seq<Chunk>, rest: seq<Chunk>, pages: nat, budget: nat, page: Page)
    requires PartWay(all, applied, rest, pages, budget) && IsPage(rest, budget, page)
    ensures page.next.Some? ==> PartWay(all, applied + page.chunks, rest[|page.chunks|..], pages + 1, budget)
    ensures page.next.None? ==> applied + page.chunks == all && (pages == 0 <==> !ManyPages(all, budget))
  {
    var n := |page.chunks|;
    assert all == (applied + rest[..n]) + rest[n..];
    if pages == 0 {
      assert all == rest;
      if page.next.Some? {
        FirstOfMany(all, budget, page);
      }
    }
  }

  /** History is vouched for in full, more than a page at once with the usual announce, and a trickle of
      fresh rows waits for the next one. */
  ghost function VouchFor(all: seq<Chunk>, budget: nat, lagCut: nat): Vouch {
    if BringsHistory(all, lagCut) then Announce(false) else if ManyPages(all, budget) then Announce(true) else Silent
  }

  /** The last page has been taken, and with it the whole answer. */
  ghost predicate Complete(all: seq<Chunk>, applied: seq<Chunk>, pages: nat) {
    pages > 0 && applied == all
  }

  /** The first `n` pages arrived and were applied. */
  ghost predicate AllApplied(fate: nat -> Fate, n: nat) {
    n == 0 || (fate(n - 1).Applied? && AllApplied(fate, n - 1))
  }

  lemma PartWayOnly(all: seq<Chunk>, applied: seq<Chunk>, rest: seq<Chunk>, pages: nat, budget: nat)
    requires PartWay(all, applied, rest, pages, budget)
    ensures applied <= all && !Complete(all, applied, pages)
  {
    assert all[..|applied|] == applied;
    assert rest != [] ==> |all| > |applied|;
  }

  /** What the holder would still serve past the cursor. */
  function Remaining(req: Request, rows: seq<Row>, after: Option<Point>): seq<Chunk> {
    Served(req, rows, Past(rows, after, 0))
  }

  lemma PartWayStart(req: Request, rows: seq<Row>, budget: nat)
    ensures PartWay(Served(req, rows, 0), [], Remaining(req, rows, None), 0, budget)
  {
    assert Past(rows, None, 0) == 0;
    assert [] + Served(req, rows, 0) == Served(req, rows, 0);
  }

  /** A pull that has taken `pages` pages, all applied, and stands at the cursor. */
  ghost predicate Pulling(rows: seq<Row>, req: Request, budget: nat, fate: nat -> Fate, after: Option<Point>,
                          applied: seq<Chunk>, oldest: nat, pages: nat) {
    && PartWay(Served(req, rows, 0), applied, Remaining(req, rows, after), pages, budget)
    && oldest == OldestOf(applied) && AllApplied(fate, pages)
  }

  /** A pull that has taken the last page. */
  ghost predicate Pulled(rows: seq<Row>, req: Request, budget: nat, fate: nat -> Fate, applied: seq<Chunk>, oldest: nat,
                         pages: nat) {
    && Complete(Served(req, rows, 0), applied, pages) && oldest == OldestOf(applied) && AllApplied(fate, pages)
    && (pages == 1 <==> !ManyPages(applied, budget))
  }

  /** One page of a pull: the last one, or one that leaves the rest to be served past its cursor. */
  method TakeNext(rows: seq<Row>, req: Request, budget: nat, fate: nat -> Fate, after: Option<Point>,
                  applied: seq<Chunk>, oldest: nat, pages: nat)
    returns (next: Option<Point>, more: seq<Chunk>, older: nat)
    requires Sorted(rows) && Pulling(rows, req, budget, fate, after, applied, oldest, pages) && fate(pages).Applied?
    ensures next.None? ==> Pulled(rows, req, budget, fate, more, older, pages + 1)
    ensures next.Some? ==>
              && Pulling(rows, req, budget, fate, next, more, older, pages + 1)
              && |Remaining(req, rows, next)| < |Remaining(req, rows, after)|
  {
    var reply := ServePull(true, rows, req, after, budget);
    var page := reply.value;
    TakePage(Served(req, rows, 0), applied, Remaining(req, rows, after), pages, budget, page);
    if page.next.Some? {
      ResumeExact(req, rows, after, budget, page);
    }
    older := Oldest(page.chunks, oldest, applied);
    next, more := page.next, applied + page.chunks;
  }

  lemma PullingStart(rows: seq<Row>, req: Request, budget: nat, fate: nat -> Fate)
    ensures Pulling(rows, req, budget, fate, None, [], U64_MAX, 0)
  {
    PartWayStart(req, rows, budget);
  }

  /** Pulls page by page until the holder has nothing more, a page is lost, or the store refuses one. */
  method PullPages(rows: seq<Row>, req: Request, budget: nat, fate: nat -> Fate)
    returns (end: Fate, applied: seq<Chunk>, oldest: nat, pages: nat, ghost after: Option<Point>)
    requires Sorted(rows)
    ensures end.Applied? ==> Pulled(rows, req, budget, fate, applied, oldest, pages)
    ensures !end.Applied? ==> fate(pages) == end && Pulling(rows, req, budget, fate, after, applied, oldest, pages)
  {
    var cursor: Option<Point> := None;
    applied, oldest, pages := [], U64_MAX, 0;
    PullingStart(rows, req, budget, fate);
    while fate(pages).Applied?
      invariant Pulling(rows, req, budget, fate, cursor, applied, oldest, pages)
      decreases |Remaining(req, rows, cursor)|
    {
      var next, more, older := TakeNext(rows, req, budget, fate, cursor, applied, oldest, pages);
      applied, oldest, pages := more, older, pages + 1;
      if next.None? {
        return Applied, applied, oldest, pages, None;
      }
      cursor := next;
    }
    return fate(pages), applied, oldest, pages, cursor;
  }

  /** A whole pull over a holder whose table stays as it is: everything the one-shot answer holds, or a
      prefix of it when the page behind those applied was lost or refused. Only a complete pull is vouched
      for. */
  method PullFrom(rows: seq<Row>, req: Request, budget: nat, fate: nat -> Fate, lagCut: nat)
    returns (ok: bool, applied: seq<Chunk>, vouch: Vouch, pages: nat)
    requires Sorted(rows)
    ensures applied <= Served(req, rows, 0) && AllApplied(fate, pages)
    ensures Complete(Served(req, rows, 0), applied, pages) ==>
              ok && (lagCut < U64_MAX ==> vouch == VouchFor(applied, budget, lagCut))
    ensures !Complete(Served(req, rows, 0), applied, pages) ==>
              !fate(pages).Applied? && (ok <==> fate(pages).Refused?) && vouch == Silent
    ensures Complete(Served(req, rows, 0), applied, pages) ==> Answers(applied, rows, req, None, None)
    ensures applied != [] ==> Answers(applied, rows, req, None, Some(applied[|applied| - 1].id))
  {
    PullAnswers(req, rows);
    var end, oldest;
    ghost var after;
    end, applied, oldest, pages, after := PullPages(rows, req, budget, fate);
    if !end.Applied? {
      PartWayOnly(Served(req, rows, 0), applied, Remaining(req, rows, after), pages, budget);
      return end.Refused?, applied, Silent, pages;
    }
    if lagCut < U64_MAX {
      OldestIsHistory(applied, lagCut);
    }
    var floored := oldest > lagCut;
    if floored && pages == 1 {
      return true, applied, Silent, pages;
    }
    return true, applied, Announce(floored), pages;
  }

  /** A served chunk is a row the request does not exclude, and every such row is served. */
  lemma {:induction false} ServedIds(req: Request, rows: seq<Row>, i: nat, p: Point)
    requires i <= |rows|
    ensures (exists c :: c in Served(req, rows, i) && c.id == p)
            <==> Wanted(req, p) && exists k :: i <= k < |rows| && rows[k].id == p
    decreases |rows| - i
  {
    if i < |rows| {
      ServedIds(req, rows, i + 1, p);
      if Wanted(req, rows[i].id) {
        assert Served(req, rows, i)[0] == ToChunk(rows[i]);
        assert forall c :: c in Served(req, rows, i + 1) ==> c in Served(req, rows, i);
        assert forall c :: c in Served(req, rows, i) ==> c == ToChunk(rows[i]) || c in Served(req, rows, i + 1);
      }
    }
  }

  /** The answer keeps the key order of the table, so no chunk repeats. */
  lemma {:induction false} ServedInOrder(req: Request, rows: seq<Row>, i: nat)
    requires Sorted(rows) && i <= |rows|
    ensures forall a, b :: 0 <= a < b < |Served(req, rows, i)| ==>
              Before(Served(req, rows, i)[a].id, Served(req, rows, i)[b].id)
    decreases |rows| - i
  {
    if i < |rows| {
      SortedMeans(rows);
      ServedInOrder(req, rows, i + 1);
      var tail := Served(req, rows, i + 1);
      forall b | 0 <= b < |tail| ensures Before(rows[i].id, tail[b].id) {
        var r := ServedSplit(req, rows, i + 1, b + 1);
      }
    }
  }
}
