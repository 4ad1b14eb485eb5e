/** Rows kept per generation of a cell (swarm/cell-protocol/src/generations.rs). */
module Generations {
  import opened Basics
  import opened Text

  /** One life of a cell: time-major, node id as tiebreak. */
  datatype Gen = Gen(time: nat, id: nat)

  predicate Fits(g: Gen) {
    g.time < Pow16(16) && g.id < Pow16(32)
  }

  predicate Older(a: Gen, b: Gen) {
    a.time < b.time || (a.time == b.time && a.id < b.id)
  }

  const GENERATIONS := "gen/"

  /** The key prefix covering every generation of a cell. */
  function GenerationsOf(sri: Uuid): string {
    GENERATIONS + UuidText(sri) + "/"
  }

  function GenerationKey(sri: Uuid, g: Gen): string {
    GenerationsOf(sri) + Hex(g.time, 16) + Hex(g.id, 32)
  }

  /** The cell and generation the two halves of a key spell. */
  function ParseLife(stem: string, life: string): Option<(Uuid, Gen)> {
    if |life| != 48 then None
    else
      var sri, time, id := ParseUuid(stem), FromRadix16(life[..16], 16), FromRadix16(life[16..], 32);
      if time.None? || id.None? || sri.None? then None else Some((sri.value, Gen(time.value, id.value)))
  }

  /** The cell and generation a key names; `None` for a key of another shape. */
  function ParseGenerationKey(key: string): Option<(Uuid, Gen)> {
    if !(GENERATIONS <= key) then None
    else
      var parts := SplitOnce(key[4..]);
      if parts.None? then None else ParseLife(parts.value.0, parts.value.1)
  }

  lemma TextSlashFree(sri: Uuid)
    ensures SlashFree(UuidText(sri))
  {
    forall i | 0 <= i < 36 ensures UuidText(sri)[i] != '/' {
      UuidClean(sri, i);
    }
  }

  lemma ParseHalves(stem: string, time: string, id: string, sri: Uuid, g: Gen)
    requires |time| == 16 && |id| == 32
    requires ParseUuid(stem) == Some(sri) && FromRadix16(time, 16) == Some(g.time) && FromRadix16(id, 32) == Some(g.id)
    ensures ParseLife(stem, time + id) == Some((sri, g))
  {
  }

  lemma LifeRoundTrip(sri: Uuid, g: Gen)
    requires Fits(g)
    ensures ParseLife(UuidText(sri), Hex(g.time, 16) + Hex(g.id, 32)) == Some((sri, g))
  {
    UuidRoundTrip(sri);
    FromRadixOfHex(g.time, 16);
    FromRadixOfHex(g.id, 32);
    ParseHalves(UuidText(sri), Hex(g.time, 16), Hex(g.id, 32), sri, g);
  }

  lemma ParseSplit(stem: string, life: string, key: string)
    requires SlashFree(stem) && key == GENERATIONS + stem + "/" + life
    ensures ParseGenerationKey(key) == ParseLife(stem, life)
  {
    assert key[4..] == stem + ['/'] + life;
    SplitAt(stem, life);
  }

  /** Every printed key parses back to its cell and generation. */
  lemma KeyRoundTrip(sri: Uuid, g: Gen)
    requires Fits(g)
    ensures ParseGenerationKey(GenerationKey(sri, g)) == Some((sri, g))
  {
    TextSlashFree(sri);
    LifeRoundTrip(sri, g);
    var stem, life := UuidText(sri), Hex(g.time, 16) + Hex(g.id, 32);
    KeyParts(stem, Hex(g.time, 16), Hex(g.id, 32));
    ParseSplit(stem, life, GenerationKey(sri, g));
  }

  lemma KeyParts(stem: string, time: string, id: string)
    ensures GENERATIONS + stem + "/" + time + id == GENERATIONS + stem + "/" + (time + id)
  {
  }

  /** Distinct lives have distinct keys. */
  lemma KeysDistinct(a: Uuid, g: Gen, b: Uuid, h: Gen)
    requires Fits(g) && Fits(h) && GenerationKey(a, g) == GenerationKey(b, h)
    ensures a == b && g == h
  {
    KeyRoundTrip(a, g);
    KeyRoundTrip(b, h);
  }

  lemma OlderSortsFirst(sri: Uuid, g: Gen, h: Gen)
    requires Fits(g) && Fits(h) && Older(g, h)
    ensures SortsBefore(GenerationKey(sri, g), GenerationKey(sri, h))
  {
    if g.time != h.time {
      var i := HexSorts(g.time, h.time, 16);
      SortsWithin(GenerationsOf(sri), Hex(g.time, 16), Hex(h.time, 16), Hex(g.id, 32), Hex(h.id, 32), i);
    } else {
      var i := HexSorts(g.id, h.id, 32);
      SortsLast(GenerationsOf(sri) + Hex(g.time, 16), Hex(g.id, 32), Hex(h.id, 32), i);
    }
  }

  /** A cell's keys sort as its lives follow each other: by time, and by node id within one time. */
  lemma KeysSortByAge(sri: Uuid, g: Gen, h: Gen)
    requires Fits(g) && Fits(h)
    ensures SortsBefore(GenerationKey(sri, g), GenerationKey(sri, h)) <==> Older(g, h)
    ensures Older(g, h) || Older(h, g) || g == h
  {
    SortsOneWay(GenerationKey(sri, g), GenerationKey(sri, h));
    if Older(g, h) {
      OlderSortsFirst(sri, g, h);
    } else if Older(h, g) {
      OlderSortsFirst(sri, h, g);
    }
  }

  /** The shape of a printed key, read off its text. */
  predicate Canonical(key: string) {
    && |key| == 89 && GENERATIONS <= key && LowerUuid(key[4..40]) && key[40] == '/' && LowerHex(key[41..])
  }

  lemma CanonicalFrom(stem: string, time: string, id: string)
    requires LowerUuid(stem) && |time| == 16 && |id| == 32 && LowerHex(time) && LowerHex(id)
    ensures Canonical(GENERATIONS + stem + "/" + time + id)
  {
    KeyParts(stem, time, id);
    KeyPlaces(stem, time + id);
  }

  lemma PrintedIsCanonical(sri: Uuid, g: Gen)
    ensures Canonical(GenerationKey(sri, g))
  {
    UuidRoundTrip(sri);
    UuidTextIff(UuidText(sri));
    HexIsLower(g.time, 16);
    HexIsLower(g.id, 32);
    CanonicalFrom(UuidText(sri), Hex(g.time, 16), Hex(g.id, 32));
  }

  lemma KeyPlaces(stem: string, life: string)
    requires |stem| == 36 && |life| == 48
    ensures var key := GENERATIONS + stem + "/" + life;
            |key| == 89 && GENERATIONS <= key && key[4..40] == stem && key[40] == '/' && key[41..] == life
  {
  }

  lemma CanonicalParts(key: string)
    requires Canonical(key)
    ensures key == GENERATIONS + key[4..40] + "/" + key[41..] && SlashFree(key[4..40])
  {
    var stem := key[4..40];
    HyphenatedJoined(stem);
    forall i | 0 <= i < 36 ensures stem[i] != '/' {
      HyphenatedFrom(Joined(stem), i);
    }
  }

  lemma LifePrints(life: string)
    requires |life| == 48 && LowerHex(life)
    ensures FromRadix16(life[..16], 16).Some? && FromRadix16(life[16..], 32).Some?
    ensures Hex(FromRadix16(life[..16], 16).value, 16) + Hex(FromRadix16(life[16..], 32).value, 32) == life
  {
    RadixPrints(life[..16]);
    RadixPrints(life[16..]);
    assert life == life[..16] + life[16..];
  }

  /** A canonical key prints as it was read. */
  lemma CanonicalPrints(key: string)
    requires Canonical(key)
    ensures ParseGenerationKey(key).Some?
    ensures GenerationKey(ParseGenerationKey(key).value.0, ParseGenerationKey(key).value.1) == key
  {
    var stem, life := key[4..40], key[41..];
    CanonicalParts(key);
    ParseSplit(stem, life, key);
    HexOfDigits(Joined(stem));
    UuidTextIff(stem);
    LifePrints(life);
    var (sri, g) := ParseLife(stem, life).value;
    KeyParts(stem, Hex(g.time, 16), Hex(g.id, 32));
  }

  /** More keys are read than printed: of those that name a generation, exactly the canonical one prints
      back as itself. */
  lemma PrintsBackIff(key: string)
    requires ParseGenerationKey(key).Some?
    ensures GenerationKey(ParseGenerationKey(key).value.0, ParseGenerationKey(key).value.1) == key <==> Canonical(key)
  {
    if Canonical(key) {
      CanonicalPrints(key);
    } else {
      PrintedIsCanonical(ParseGenerationKey(key).value.0, ParseGenerationKey(key).value.1);
    }
  }

  /** The text of a key in its four parts, and what each of the last three is read as. */
  ghost predicate Spelled(key: string, sri: Uuid, g: Gen, stem: string, time: string, id: string) {
    && key == "gen/" + stem + "/" + (time + id) && |time| == 16 && |id| == 32
    && ParseUuid(stem) == Some(sri) && FromRadix16(time, 16) == Some(g.time) && FromRadix16(id, 32) == Some(g.id)
  }

  /** A key names a generation exactly when it is spelled so: the prefix, a cell, a slash, 16 characters for
      the time and 32 for the id. */
  lemma KeyReadIff(key: string, sri: Uuid, g: Gen)
    ensures ParseGenerationKey(key) == Some((sri, g)) <==> exists stem, time, id :: Spelled(key, sri, g, stem, time, id)
  {
    if ParseGenerationKey(key) == Some((sri, g)) {
      ReadIsSpelled(key, sri, g);
    }
    forall stem, time, id | Spelled(key, sri, g, stem, time, id) ensures ParseGenerationKey(key) == Some((sri, g)) {
      UuidSlashFree(stem);
      ParseSplit(stem, time + id, key);
      ParseHalves(stem, time, id, sri, g);
    }
  }

  lemma ReadIsSpelled(key: string, sri: Uuid, g: Gen)
    requires ParseGenerationKey(key) == Some((sri, g))
    ensures exists stem, time, id :: Spelled(key, sri, g, stem, time, id)
  {
    SplitMeans(key[4..]);
    var stem, life := SplitOnce(key[4..]).value.0, SplitOnce(key[4..]).value.1;
    KeyFrom(key, stem, life);
    LifeIsSpelled(key, sri, g, stem, life);
  }

  lemma LifeIsSpelled(key: string, sri: Uuid, g: Gen, stem: string, life: string)
    requires ParseLife(stem, life) == Some((sri, g)) && key == "gen/" + stem + "/" + (life[..16] + life[16..])
    ensures Spelled(key, sri, g, stem, life[..16], life[16..])
  {
  }

  lemma KeyFrom(key: string, stem: string, life: string)
    requires GENERATIONS <= key && key[4..] == stem + ['/'] + life && |life| == 48
    ensures key == "gen/" + stem + "/" + (life[..16] + life[16..])
  {
    assert key[..4] == GENERATIONS && key == key[..4] + key[4..];
    assert life == life[..16] + life[16..];
    assert "gen/" + (stem + ['/'] + life) == "gen/" + stem + "/" + life;
  }

  /** A key with a plus sign for the time's leading zero. */
  function PlusKey(sri: Uuid, g: Gen): string {
    GenerationsOf(sri) + (['+'] + Hex(g.time, 15)) + Hex(g.id, 32)
  }

  lemma PlusKeyIsOdd(sri: Uuid, g: Gen)
    ensures !Canonical(PlusKey(sri, g))
  {
    var stem, time, id := UuidText(sri), ['+'] + Hex(g.time, 15), Hex(g.id, 32);
    KeyParts(stem, time, id);
    KeyPlaces(stem, time + id);
    assert (time + id)[0] == '+';
  }

  /** Two keys that name one generation. */
  lemma PlusKeyParses(sri: Uuid, g: Gen)
    requires Fits(g) && g.time < Pow16(15)
    ensures ParseGenerationKey(PlusKey(sri, g)) == Some((sri, g)) && PlusKey(sri, g) != GenerationKey(sri, g)
  {
    PlusKeyIsOdd(sri, g);
    PrintedIsCanonical(sri, g);
    PlusLife(sri, g);
    TextSlashFree(sri);
    var stem, time, id := UuidText(sri), ['+'] + Hex(g.time, 15), Hex(g.id, 32);
    KeyParts(stem, time, id);
    ParseSplit(stem, time + id, PlusKey(sri, g));
  }

  lemma PlusLife(sri: Uuid, g: Gen)
    requires Fits(g) && g.time < Pow16(15)
    ensures ParseLife(UuidText(sri), ['+'] + Hex(g.time, 15) + Hex(g.id, 32)) == Some((sri, g))
  {
    UuidRoundTrip(sri);
    PlusParses(g.time);
    FromRadixOfHex(g.id, 32);
    ParseHalves(UuidText(sri), ['+'] + Hex(g.time, 15), Hex(g.id, 32), sri, g);
  }

  lemma PlusParses(n: nat)
    requires n < Pow16(15)
    ensures FromRadix16(['+'] + Hex(n, 15), 16) == Some(n) && !LowerHex(['+'] + Hex(n, 15))
  {
    DigitsOfHex(n, 15);
    assert Pow16(16) == 16 * Pow16(15);
    PlusSigned(Hex(n, 15), n, 16);
  }

  lemma PrefixOf(a: string, b: string, rest: string)
    requires |a| == |b|
    ensures GENERATIONS + a + "/" <= GENERATIONS + b + "/" + rest <==> a == b
  {
    var key, prefix := GENERATIONS + b + "/" + rest, GENERATIONS + a + "/";
    assert key[4..4 + |b|] == b && prefix[4..4 + |a|] == a;
    if prefix <= key {
      assert key[..|prefix|] == prefix;
      assert prefix[4..4 + |a|] == key[..|prefix|][4..4 + |a|] == key[4..4 + |a|];
    }
  }

  /** A key lies under the prefix of exactly its own cell: what is addressed to one cell's generations can
      never reach another's. */
  lemma PrefixIsolates(sri: Uuid, g: Gen, other: Uuid)
    ensures GenerationsOf(other) <= GenerationKey(sri, g) <==> other == sri
  {
    KeyParts(UuidText(sri), Hex(g.time, 16), Hex(g.id, 32));
    PrefixOf(UuidText(other), UuidText(sri), Hex(g.time, 16) + Hex(g.id, 32));
    UuidRoundTrip(sri);
    UuidRoundTrip(other);
  }

  datatype Entry<V> = Entry(key: string, value: V)

  /** What a listed row comes back as. */
  datatype Item<R> = Row(sri: Uuid, gen: Gen, row: R) | BadValue(key: string) | BadKey(key: string)

  /** What a key names, if it has the right shape. */
  type Name = Option<(Uuid, Gen)>

  function NamesOf<V>(entries: seq<Entry<V>>): seq<Name> {
    seq(|entries|, i requires 0 <= i < |entries| => ParseGenerationKey(entries[i].key))
  }

  predicate Names(names: seq<Name>, k: nat, sri: Uuid) {
    k < |names| && names[k].Some? && names[k].value.0 == sri
  }

  /** Key `k` names the cell's newest generation among the first `n`, and is the first to name it. */
  ghost predicate IsNewest(names: seq<Name>, n: nat, sri: Uuid, k: nat) {
    && k < n <= |names| && Names(names, k, sri)
    && forall j: nat :: j < n && Names(names, j, sri) ==>
         !Older(names[k].value.1, names[j].value.1) && (j < k ==> Older(names[j].value.1, names[k].value.1))
  }

  /** The keys of another shape, in the order listed. */
  function BadKeys<V, R>(entries: seq<Entry<V>>): seq<Item<R>> {
    if entries == [] then []
    else
      var last := entries[|entries| - 1];
      BadKeys<V, R>(entries[..|entries| - 1]) + if ParseGenerationKey(last.key).None? then [BadKey(last.key)] else []
  }

  /** For every cell named so far, the entry of its newest generation. */
  ghost predicate Collected(names: seq<Name>, n: nat, newest: map<Uuid, nat>) {
    && n <= |names|
    && (forall sri :: sri in newest ==> IsNewest(names, n, sri, newest[sri]))
    && (forall j: nat :: j < n && names[j].Some? ==> names[j].value.0 in newest)
  }

  lemma CollectStep(names: seq<Name>, n: nat, newest: map<Uuid, nat>)
    requires n < |names| && Collected(names, n, newest) && names[n].Some?
    ensures var sri := names[n].value.0;
            Collected(names, n + 1,
                      if sri !in newest || Older(names[newest[sri]].value.1, names[n].value.1) then newest[sri := n]
                        else newest)
  {
    var sri, g := names[n].value.0, names[n].value.1;
    if sri !in newest {
      assert forall j: nat :: j < n ==> !Names(names, j, sri);
    }
  }

  lemma CollectSkip(names: seq<Name>, n: nat, newest: map<Uuid, nat>)
    requires n < |names| && Collected(names, n, newest) && names[n].None?
    ensures Collected(names, n + 1, newest)
  {
  }

  /** The newest entry of every cell named, and the keys that name none. */
  ghost predicate Gathered<V, R>(entries: seq<Entry<V>>, newest: map<Uuid, nat>, malformed: seq<Item<R>>) {
    Collected(NamesOf(entries), |entries|, newest) && malformed == BadKeys<V, R>(entries)
  }

  /** The same of the first `n` entries. */
  ghost predicate Gathering<V, R>(entries: seq<Entry<V>>, n: nat, newest: map<Uuid, nat>, malformed: seq<Item<R>>) {
    n <= |entries| && Collected(NamesOf(entries), n, newest) && malformed == BadKeys<V, R>(entries[..n])
  }

  lemma GatherStep<V, R>(entries: seq<Entry<V>>, n: nat, newest: map<Uuid, nat>, malformed: seq<Item<R>>)
    requires n < |entries| && Gathering(entries, n, newest, malformed)
    ensures var name := ParseGenerationKey(entries[n].key);
            if name.None? then Gathering(entries, n + 1, newest, malformed + [BadKey(entries[n].key)])
            else
              && (name.value.0 in newest ==>
                    newest[name.value.0] < n && ParseGenerationKey(entries[newest[name.value.0]].key).Some?)
              && Gathering(entries, n + 1, if name.value.0 !in newest
                             || Older(ParseGenerationKey(entries[newest[name.value.0]].key).value.1, name.value.1)
                           then newest[name.value.0 := n] else newest, malformed)
  {
    assert entries[..n + 1][..n] == entries[..n];
    var names := NamesOf(entries);
    if names[n].None? {
      CollectSkip(names, n, newest);
    } else {
      var sri := names[n].value.0;
      assert sri in newest ==> IsNewest(names, n, sri, newest[sri]);
      CollectStep(names, n, newest);
    }
  }

  /** The first pass tells the newest entries from the malformed keys. */
  method Collect<V, R>(entries: seq<Entry<V>>) returns (newest: map<Uuid, nat>, malformed: seq<Item<R>>)
    ensures Gathered(entries, newest, malformed)
  {
    newest, malformed := map[], [];
    for i := 0 to |entries|
      invariant Gathering(entries, i, newest, malformed)
    {
      GatherStep(entries, i, newest, malformed);
      var name := ParseGenerationKey(entries[i].key);
      if name.None? {
        malformed := malformed + [BadKey(entries[i].key)];
      } else {
        var (sri, g) := name.value;
        if sri !in newest || Older(ParseGenerationKey(entries[newest[sri]].key).value.1, g) {
          newest := newest[sri := i];
        }
      }
    }
    assert entries[..|entries|] == entries;
  }

  /** What entry `k` comes back as. */
  function ReadAt<V, R>(entries: seq<Entry<V>>, k: nat, decode: V -> Option<R>): Item<R>
    requires k < |entries|
  {
    var name, row := ParseGenerationKey(entries[k].key), decode(entries[k].value);
    if name.None? then BadKey(entries[k].key)
    else if row.None? then BadValue(entries[k].key)
    else Row(name.value.0, name.value.1, row.value)
  }

  /** The results are the picked entries, read. */
  ghost predicate Listed<V, R>(entries: seq<Entry<V>>, decode: V -> Option<R>, picks: seq<nat>, items: seq<Item<R>>) {
    && |items| == |picks|
    && forall i :: 0 <= i < |picks| ==> picks[i] < |entries| && items[i] == ReadAt(entries, picks[i], decode)
  }

  ghost predicate AscendingCells(cells: seq<Uuid>) {
    forall i, j :: 0 <= i < j < |cells| ==> cells[i] < cells[j]
  }

  /** The cells taken out so far come before those left. */
  ghost predicate Precede(cells: seq<Uuid>, left: set<Uuid>) {
    AscendingCells(cells) && forall i, k :: 0 <= i < |cells| && k in left ==> cells[i] < k
  }

  lemma PrecedeStep(cells: seq<Uuid>, left: set<Uuid>, m: Uuid)
    requires Precede(cells, left) && m in left && forall k :: k in left ==> m <= k
    ensures Precede(cells + [m], left - {m})
  {
  }

  /** A map's keys in ascending order, as an ordered map gives them. */
  method InOrder(keys: set<Uuid>) returns (cells: seq<Uuid>)
    ensures AscendingCells(cells) && forall c :: c in cells <==> c in keys
  {
    cells := [];
    var left := keys;
    while left != {}
      invariant Precede(cells, left) && left <= keys
      invariant forall c :: c in keys <==> c in left || c in cells
      decreases left
    {
      LeastExists(left);
      ghost var m :| IsLeast(left, m);
      assert m in left && forall k :: k in left ==> m <= k;
      var sri: Uuid :| sri in left && forall k :: k in left ==> sri <= k;
      PrecedeStep(cells, left, sri);
      cells, left := cells + [sri], left - {sri};
    }
  }

  /** The picks are the newest generations of these cells. */
  ghost predicate PicksNewest(names: seq<Name>, cells: seq<Uuid>, picks: seq<nat>) {
    |picks| == |cells| && forall i :: 0 <= i < |cells| ==> IsNewest(names, |names|, cells[i], picks[i])
  }

  ghost predicate AllNamed(names: seq<Name>, cells: seq<Uuid>) {
    forall k :: 0 <= k < |names| && names[k].Some? ==> names[k].value.0 in cells
  }

  ghost predicate Chosen(newest: map<Uuid, nat>, cells: seq<Uuid>, picks: seq<nat>) {
    |picks| == |cells| && forall i :: 0 <= i < |cells| ==> cells[i] in newest && picks[i] == newest[cells[i]]
  }

  lemma ChosenAreNewest(names: seq<Name>, newest: map<Uuid, nat>, cells: seq<Uuid>, picks: seq<nat>)
    requires Collected(names, |names|, newest) && Chosen(newest, cells, picks) && forall c :: c in newest ==> c in cells
    ensures PicksNewest(names, cells, picks) && AllNamed(names, cells)
  {
  }

  function PicksOf(newest: map<Uuid, nat>, cells: seq<Uuid>): seq<nat>
    requires forall i :: 0 <= i < |cells| ==> cells[i] in newest
  {
    seq(|cells|, i requires 0 <= i < |cells| => newest[cells[i]])
  }

  /** The second pass: reads the newest entry of every cell. */
  method ReadAll<V, R>(entries: seq<Entry<V>>, newest: map<Uuid, nat>, cells: seq<Uuid>, decode: V -> Option<R>)
    returns (items: seq<Item<R>>)
    requires forall i :: 0 <= i < |cells| ==> cells[i] in newest && newest[cells[i]] < |entries|
    ensures Listed(entries, decode, PicksOf(newest, cells), items)
  {
    items := [];
    for i := 0 to |cells|
      invariant Listed(entries, decode, PicksOf(newest, cells[..i]), items)
    {
      var item := ReadAt(entries, newest[cells[i]], decode);
      assert PicksOf(newest, cells[..i + 1]) == PicksOf(newest, cells[..i]) + [newest[cells[i]]];
      items := items + [item];
    }
    assert cells[..|cells|] == cells;
  }

  lemma NewestInRange(names: seq<Name>, newest: map<Uuid, nat>, cells: seq<Uuid>)
    requires Collected(names, |names|, newest) && forall c :: c in cells ==> c in newest
    ensures forall i :: 0 <= i < |cells| ==> cells[i] in newest && newest[cells[i]] < |names|
  {
    forall i | 0 <= i < |cells| ensures cells[i] in newest && newest[cells[i]] < |names| {
      assert IsNewest(names, |names|, cells[i], newest[cells[i]]);
    }
  }

  /** What comes back for a cell: the row its value decodes to, under that cell and the generation picked, or the
      key of a value that does not decode. */
  ghost predicate Returned<V, R>(entries: seq<Entry<V>>, decode: V -> Option<R>, cell: Uuid, k: nat, item: Item<R>) {
    && k < |entries| && ParseGenerationKey(entries[k].key).Some?
    && var gen, row := ParseGenerationKey(entries[k].key).value.1, decode(entries[k].value);
       match item
       case Row(sri, g, r) => sri == cell && g == gen && row == Some(r)
       case BadValue(key) => row == None && key == entries[k].key
       case BadKey(_) => false
  }

  ghost predicate AllReturned<V, R>(entries: seq<Entry<V>>, decode: V -> Option<R>, cells: seq<Uuid>, picks: seq<nat>,
                                    items: seq<Item<R>>)
  {
    && |cells| == |picks| && |picks| <= |items|
    && forall i :: 0 <= i < |picks| ==> Returned(entries, decode, cells[i], picks[i], items[i])
  }

  lemma ListedIsReturned<V, R>(entries: seq<Entry<V>>, decode: V -> Option<R>, cells: seq<Uuid>, picks: seq<nat>,
                               items: seq<Item<R>>)
    requires Listed(entries, decode, picks, items) && PicksNewest(NamesOf(entries), cells, picks)
    ensures AllReturned(entries, decode, cells, picks, items)
  {
    forall i | 0 <= i < |picks| ensures Returned(entries, decode, cells[i], picks[i], items[i]) {
      assert IsNewest(NamesOf(entries), |entries|, cells[i], picks[i]);
    }
  }

  /** One result per cell named, cells ascending, each read from its greatest generation; then every key
      of another shape, in the order listed. */
  ghost predicate IsListing<V, R>(entries: seq<Entry<V>>, decode: V -> Option<R>, cells: seq<Uuid>, picks: seq<nat>,
                                  items: seq<Item<R>>)
  {
    && AscendingCells(cells) && PicksNewest(NamesOf(entries), cells, picks) && AllNamed(NamesOf(entries), cells)
    && |picks| <= |items| && Listed(entries, decode, picks, items[..|picks|])
    && AllReturned(entries, decode, cells, picks, items[..|picks|])
    && items[|picks|..] == BadKeys<V, R>(entries)
  }

  method Newest<V, R>(entries: seq<Entry<V>>, decode: V -> Option<R>) returns (items: seq<Item<R>>)
    ensures exists cells, picks :: IsListing(entries, decode, cells, picks, items)
  {
    var newest, malformed := Collect<V, R>(entries);
    var order := InOrder(newest.Keys);
    NewestInRange(NamesOf(entries), newest, order);
    var readable := ReadAll(entries, newest, order, decode);
    ghost var picks := PicksOf(newest, order);
    ChosenAreNewest(NamesOf(entries), newest, order, picks);
    ListedIsReturned(entries, decode, order, picks, readable);
    items := readable + malformed;
    assert items[..|picks|] == readable && items[|picks|..] == malformed;
    assert IsListing(entries, decode, order, picks, items);
  }

  lemma {:induction false} NewestUnique(names: seq<Name>, n: nat, sri: Uuid, j: nat, k: nat)
    requires IsNewest(names, n, sri, j) && IsNewest(names, n, sri, k)
    ensures j == k
  {
  }

  /** The listing is settled by the entries: the cells named, in order, and with them everything else. */
  lemma ListingUnique<V, R>(entries: seq<Entry<V>>, decode: V -> Option<R>, cells: seq<Uuid>, picks: seq<nat>,
                            items: seq<Item<R>>,
                            others: seq<Uuid>, takes: seq<nat>, list: seq<Item<R>>)
    requires IsListing(entries, decode, cells, picks, items) && IsListing(entries, decode, others, takes, list)
    ensures cells == others && picks == takes && items == list
  {
    SameCells(NamesOf(entries), cells, picks, others, takes);
    forall i | 0 <= i < |picks| ensures picks[i] == takes[i] {
      NewestUnique(NamesOf(entries), |entries|, cells[i], picks[i], takes[i]);
    }
    assert items == items[..|picks|] + items[|picks|..];
    assert list == list[..|takes|] + list[|takes|..];
  }

  lemma SameCells(names: seq<Name>, cells: seq<Uuid>, picks: seq<nat>, others: seq<Uuid>, takes: seq<nat>)
    requires AscendingCells(cells) && PicksNewest(names, cells, picks) && AllNamed(names, cells)
    requires AscendingCells(others) && PicksNewest(names, others, takes) && AllNamed(names, others)
    ensures cells == others
  {
    forall c ensures c in cells <==> c in others {
      if c in cells {
        var i :| 0 <= i < |cells| && cells[i] == c;
        assert IsNewest(names, |names|, cells[i], picks[i]);
      }
      if c in others {
        var i :| 0 <= i < |others| && others[i] == c;
        assert IsNewest(names, |names|, others[i], takes[i]);
      }
    }
    AscendingUnique(cells, others);
  }

  lemma InitBelow(a: seq<Uuid>, p: seq<Uuid>, x: Uuid)
    requires AscendingCells(a) && a == p + [x]
    ensures AscendingCells(p)
    ensures forall c :: c in a <==> c in p || c == x
    ensures forall c :: c in p ==> c < x
  {
    assert forall i :: 0 <= i < |p| ==> p[i] == a[i];
    assert a[|p|] == x;
  }

  lemma {:induction false} AscendingUnique(a: seq<Uuid>, b: seq<Uuid>)
    requires AscendingCells(a) && AscendingCells(b) && forall c :: c in a <==> c in b
    ensures a == b
    decreases |a|
  {
    assert (a == [] || a[0] in a) && (b == [] || b[0] in b);
    if a != [] && b != [] {
      var p, x, q, y := a[..|a| - 1], a[|a| - 1], b[..|b| - 1], b[|b| - 1];
      InitBelow(a, p, x);
      InitBelow(b, q, y);
      assert x in b && y in a;
      assert x == y;
      AscendingUnique(p, q);
    }
  }
}
