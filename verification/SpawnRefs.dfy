/** Finding the spawn references embedded in a module (sdk/myrmic-common/src/cells/spawn_ref.rs). */
module SpawnRefs {
  import opened Basics

  type Byte = x: nat | x < 0x100

  type Bytes = seq<Byte>

  const MAGIC: Bytes := [0x00, 0x6d, 0x79, 0x72, 0x6d, 0x53, 0x50, 0x4e]
  const MAX_NAME: nat := 128
  const HASH_AT: nat := 8
  const NAME_LEN_AT: nat := 40
  const NAME_AT: nat := 44
  const HASH_LEN: nat := 32

  /** Whether some bytes are a string's encoding; class names are compared as bytes. */
  type Utf8 = Bytes -> bool

  datatype FoundRef = FoundRef(name: Bytes, offset: nat)

  predicate MagicAt(wasm: Bytes, pos: nat) {
    pos + |MAGIC| <= |wasm| && wasm[pos..pos + |MAGIC|] == MAGIC
  }

  function LittleEndian(wasm: Bytes, pos: nat): nat
    requires pos + 4 <= |wasm|
  {
    wasm[pos] as nat + 0x100 * wasm[pos + 1] as nat + 0x1_0000 * wasm[pos + 2] as nat
      + 0x100_0000 * wasm[pos + 3] as nat
  }

  /** The reference whose magic is at `pos`, unless the bytes after it are implausible. */
  function RefAt(utf8: Utf8, wasm: Bytes, pos: nat): Option<FoundRef>
    requires pos + NAME_AT <= |wasm|
  {
    var len := LittleEndian(wasm, pos + NAME_LEN_AT);
    if len == 0 || len > MAX_NAME || pos + NAME_AT + len > |wasm| then None
    else
      var name := wasm[pos + NAME_AT..pos + NAME_AT + len];
      if utf8(name) then Some(FoundRef(name, pos + HASH_AT)) else None
  }

  /** The references found from `search` on. */
  function RefsFrom(utf8: Utf8, wasm: Bytes, search: nat): seq<FoundRef>
    decreases |wasm| - search
  {
    if search >= |wasm| then []
    else if !MagicAt(wasm, search) then RefsFrom(utf8, wasm, search + 1)
    else if search + NAME_AT > |wasm| then []
    else
      match RefAt(utf8, wasm, search)
      case None => RefsFrom(utf8, wasm, search + 1)
      case Some(found) => [found] + RefsFrom(utf8, wasm, search + NAME_AT + |found.name|)
  }

  function Refs(utf8: Utf8, wasm: Bytes): seq<FoundRef> {
    RefsFrom(utf8, wasm, 0)
  }

  /** The first magic at or after `from`. */
  method FindMagic(wasm: Bytes, from: nat) returns (pos: Option<nat>)
    requires from <= |wasm|
    ensures pos.Some? ==> from <= pos.value && MagicAt(wasm, pos.value)
    ensures forall k :: from <= k < (if pos.Some? then pos.value else |wasm|) ==> !MagicAt(wasm, k)
  {
    var k := from;
    while k + |MAGIC| <= |wasm|
      invariant from <= k <= |wasm|
      invariant forall j :: from <= j < k ==> !MagicAt(wasm, j)
    {
      if wasm[k..k + |MAGIC|] == MAGIC {
        return Some(k);
      }
      k := k + 1;
    }
    return None;
  }

  lemma {:induction false} NoMagicBetween(utf8: Utf8, wasm: Bytes, from: nat, upto: nat)
    requires from <= upto <= |wasm|
    requires forall k :: from <= k < upto ==> !MagicAt(wasm, k)
    ensures RefsFrom(utf8, wasm, from) == RefsFrom(utf8, wasm, upto)
    decreases upto - from
  {
    if from < upto {
      NoMagicBetween(utf8, wasm, from + 1, upto);
    }
  }

  /** Scans for every plausible reference, stepping past each one found. */
  method ScanSpawnRefs(utf8: Utf8, wasm: Bytes) returns (out: seq<FoundRef>)
    ensures out == Refs(utf8, wasm) && FindsAll(utf8, wasm, out)
  {
    RefsFindAll(utf8, wasm);
    out := [];
    var search := 0;
    while true
      invariant search <= |wasm|
      invariant out + RefsFrom(utf8, wasm, search) == Refs(utf8, wasm)
      decreases |wasm| - search
    {
      var at := FindMagic(wasm, search);
      if at.None? {
        NoMagicBetween(utf8, wasm, search, |wasm|);
        break;
      }
      var pos := at.value;
      NoMagicBetween(utf8, wasm, search, pos);
      search := pos + 1;
      if pos + NAME_AT > |wasm| {
        break;
      }
      var found := RefAt(utf8, wasm, pos);
      if found.None? {
        continue;
      }
      out := out + [found.value];
      search := pos + NAME_AT + |found.value.name|;
    }
  }

  /** Slots lie inside the module, in order, and apart from each other. */
  ghost predicate SlotsApart(len: nat, refs: seq<FoundRef>, from: nat) {
    && (forall i :: 0 <= i < |refs| ==> from <= refs[i].offset && refs[i].offset + HASH_LEN <= len)
    && (forall i, j :: 0 <= i < j < |refs| ==> refs[i].offset + HASH_LEN <= refs[j].offset)
  }

  lemma SlotsFirst(len: nat, first: FoundRef, rest: seq<FoundRef>, from: nat, next: nat)
    requires SlotsApart(len, rest, next) && from <= first.offset && first.offset + HASH_LEN <= len
             && first.offset + HASH_LEN <= next
    ensures SlotsApart(len, [first] + rest, from)
  {
  }

  lemma SlotsLower(len: nat, refs: seq<FoundRef>, from: nat, next: nat)
    requires SlotsApart(len, refs, next) && from <= next
    ensures SlotsApart(len, refs, from)
  {
  }

  /** The scan never yields overlapping or out-of-range slots, whatever the bytes are. */
  lemma {:induction false} ScannedSlotsApart(utf8: Utf8, wasm: Bytes, search: nat)
    ensures SlotsApart(|wasm|, RefsFrom(utf8, wasm, search), search)
    decreases |wasm| - search
  {
    if search < |wasm| {
      if MagicAt(wasm, search) && search + NAME_AT <= |wasm| && RefAt(utf8, wasm, search).Some? {
        var found := RefAt(utf8, wasm, search).value;
        var next := search + NAME_AT + |found.name|;
        ScannedSlotsApart(utf8, wasm, next);
        SlotsFirst(|wasm|, found, RefsFrom(utf8, wasm, next), search, next);
        assert RefsFrom(utf8, wasm, search) == [found] + RefsFrom(utf8, wasm, next);
      } else if !MagicAt(wasm, search) || search + NAME_AT <= |wasm| {
        ScannedSlotsApart(utf8, wasm, search + 1);
        SlotsLower(|wasm|, RefsFrom(utf8, wasm, search + 1), search, search + 1);
        assert RefsFrom(utf8, wasm, search) == RefsFrom(utf8, wasm, search + 1);
      }
    }
  }

  ghost predicate SlotsBeyond(refs: seq<FoundRef>, from: nat) {
    forall i :: 0 <= i < |refs| ==> from <= refs[i].offset
  }

  lemma {:induction false} ScannedBeyond(utf8: Utf8, wasm: Bytes, search: nat)
    ensures SlotsBeyond(RefsFrom(utf8, wasm, search), search + HASH_AT)
    decreases |wasm| - search
  {
    if search < |wasm| {
      if MagicAt(wasm, search) && search + NAME_AT <= |wasm| && RefAt(utf8, wasm, search).Some? {
        var found := RefAt(utf8, wasm, search).value;
        ScannedBeyond(utf8, wasm, search + NAME_AT + |found.name|);
      } else if !MagicAt(wasm, search) || search + NAME_AT <= |wasm| {
        ScannedBeyond(utf8, wasm, search + 1);
      }
    }
  }

  /** A plausible reference stands at `pos`. */
  predicate Candidate(utf8: Utf8, wasm: Bytes, pos: nat) {
    pos + NAME_AT <= |wasm| && MagicAt(wasm, pos) && RefAt(utf8, wasm, pos).Some?
  }

  ghost predicate FoundAt(refs: seq<FoundRef>, pos: nat) {
    exists i :: 0 <= i < |refs| && refs[i].offset == pos + HASH_AT
  }

  /** The bytes of a found reference reach over `pos`. */
  ghost predicate Inside(refs: seq<FoundRef>, pos: nat) {
    exists i :: 0 <= i < |refs| && refs[i].offset < pos + HASH_AT < refs[i].offset + NAME_AT + |refs[i].name|
  }

  /** What the scan of the bytes from `search` on finds at `pos`. */
  ghost predicate Positioned(utf8: Utf8, wasm: Bytes, refs: seq<FoundRef>, pos: nat) {
    FoundAt(refs, pos) <==> Candidate(utf8, wasm, pos) && !Inside(refs, pos)
  }

  lemma FirstPositioned(utf8: Utf8, wasm: Bytes, found: FoundRef, rest: seq<FoundRef>, search: nat, pos: nat)
    requires Candidate(utf8, wasm, search) && RefAt(utf8, wasm, search) == Some(found) && search <= pos
    requires SlotsBeyond(rest, search + NAME_AT + |found.name| + HASH_AT)
    requires search + NAME_AT + |found.name| <= pos ==> Positioned(utf8, wasm, rest, pos)
    ensures Positioned(utf8, wasm, [found] + rest, pos)
  {
    var refs := [found] + rest;
    assert refs[0] == found && forall i :: 0 <= i < |rest| ==> refs[i + 1] == rest[i];
    if pos < search + NAME_AT + |found.name| {
      assert pos > search ==> Inside(refs, pos);
    } else {
      assert FoundAt(refs, pos) <==> FoundAt(rest, pos);
      assert Inside(refs, pos) <==> Inside(rest, pos);
    }
  }

  lemma {:induction false} PositionedFrom(utf8: Utf8, wasm: Bytes, search: nat, pos: nat)
    requires search <= pos
    ensures Positioned(utf8, wasm, RefsFrom(utf8, wasm, search), pos)
    decreases |wasm| - search
  {
    if search < |wasm| {
      if Candidate(utf8, wasm, search) {
        var found := RefAt(utf8, wasm, search).value;
        var next := search + NAME_AT + |found.name|;
        ScannedBeyond(utf8, wasm, next);
        if next <= pos {
          PositionedFrom(utf8, wasm, next, pos);
        }
        FirstPositioned(utf8, wasm, found, RefsFrom(utf8, wasm, next), search, pos);
      } else if !MagicAt(wasm, search) || search + NAME_AT <= |wasm| {
        if search < pos {
          PositionedFrom(utf8, wasm, search + 1, pos);
        } else {
          ScannedBeyond(utf8, wasm, search + 1);
        }
      }
    }
  }

  /** How a reference to `name` lies in the module, its magic at `pos`: the magic, a slot of 32 bytes, the
      length in four, and the name. */
  ghost predicate Laid(wasm: Bytes, pos: nat, name: Bytes) {
    exists before: Bytes, slot: Bytes, after: Bytes :: LaidOut(wasm, pos, name, before, slot, after)
  }

  ghost predicate LaidOut(wasm: Bytes, pos: nat, name: Bytes, before: Bytes, slot: Bytes, after: Bytes) {
    && |before| == pos && |slot| == 32 && 1 <= |name| <= 128
    && wasm == before + MAGIC + slot + [|name|, 0, 0, 0] + name + after
  }

  lemma LaidBytes(before: Bytes, slot: Bytes, name: Bytes, after: Bytes)
    requires |slot| == 32 && 1 <= |name| <= 128
    ensures var wasm, pos := before + MAGIC + slot + [|name|, 0, 0, 0] + name + after, |before|;
            && pos + 44 + |name| <= |wasm| && wasm[pos..pos + 8] == MAGIC
            && wasm[pos + 40..pos + 44] == [|name|, 0, 0, 0] && wasm[pos + 44..pos + 44 + |name|] == name
  {
  }

  /** What a reference is built as is read as that reference, wherever it stands. */
  lemma LaidIsRef(utf8: Utf8, before: Bytes, slot: Bytes, name: Bytes, after: Bytes)
    requires |slot| == 32 && 1 <= |name| <= 128 && utf8(name)
    ensures var wasm := before + MAGIC + slot + [|name|, 0, 0, 0] + name + after;
            Candidate(utf8, wasm, |before|) && RefAt(utf8, wasm, |before|) == Some(FoundRef(name, |before| + 8))
  {
    LaidBytes(before, slot, name, after);
    var wasm, pos := before + MAGIC + slot + [|name|, 0, 0, 0] + name + after, |before|;
    var len := wasm[pos + 40..pos + 44];
    assert forall k :: 0 <= k < 4 ==> wasm[pos + 40 + k] == len[k];
    assert LittleEndian(wasm, pos + 40) == |name|;
  }

  lemma SmallLength(wasm: Bytes, pos: nat, len: nat)
    requires pos + 4 <= |wasm| && LittleEndian(wasm, pos) == len <= 128
    ensures wasm[pos..pos + 4] == [len, 0, 0, 0]
  {
    assert wasm[pos + 3] == 0 && wasm[pos + 2] == 0 && wasm[pos + 1] == 0;
  }

  lemma Parts(wasm: Bytes, a: nat, b: nat, c: nat, d: nat, e: nat)
    requires a <= b <= c <= d <= e <= |wasm|
    ensures wasm == wasm[..a] + wasm[a..b] + wasm[b..c] + wasm[c..d] + wasm[d..e] + wasm[e..]
  {
  }

  /** And nothing else is: whatever is read has that form. */
  lemma RefIsLaid(utf8: Utf8, wasm: Bytes, pos: nat)
    requires Candidate(utf8, wasm, pos)
    ensures var found := RefAt(utf8, wasm, pos).value;
            found.offset == pos + 8 && utf8(found.name) && Laid(wasm, pos, found.name)
  {
    var name := RefAt(utf8, wasm, pos).value.name;
    SmallLength(wasm, pos + 40, |name|);
    Parts(wasm, pos, pos + 8, pos + 40, pos + 44, pos + 44 + |name|);
    assert LaidOut(wasm, pos, name, wasm[..pos], wasm[pos + 8..pos + 40], wasm[pos + 44 + |name|..]);
  }

  /** A reference to `name` stands at `pos`, as the bytes have it. */
  lemma CandidateIffLaid(utf8: Utf8, wasm: Bytes, pos: nat, name: Bytes)
    ensures Candidate(utf8, wasm, pos) && RefAt(utf8, wasm, pos) == Some(FoundRef(name, pos + 8))
            <==> Laid(wasm, pos, name) && utf8(name)
  {
    if Laid(wasm, pos, name) && utf8(name) {
      var before: Bytes, slot: Bytes, after: Bytes :| LaidOut(wasm, pos, name, before, slot, after);
      LaidIsRef(utf8, before, slot, name, after);
    }
    if Candidate(utf8, wasm, pos) {
      RefIsLaid(utf8, wasm, pos);
    }
  }

  /** Position by position: the scan finds a reference exactly where a plausible one stands that no earlier
      found one reaches over. */
  lemma FoundIffCandidate(utf8: Utf8, wasm: Bytes, pos: nat)
    ensures FoundAt(Refs(utf8, wasm), pos) <==> Candidate(utf8, wasm, pos) && !Inside(Refs(utf8, wasm), pos)
  {
    PositionedFrom(utf8, wasm, 0, pos);
  }

  /** And what it says of it is what stands there. */
  lemma {:induction false} FoundIsRef(utf8: Utf8, wasm: Bytes, search: nat, i: nat)
    requires i < |RefsFrom(utf8, wasm, search)|
    ensures var found := RefsFrom(utf8, wasm, search)[i];
            && found.offset >= HASH_AT && Candidate(utf8, wasm, found.offset - HASH_AT)
            && RefAt(utf8, wasm, found.offset - HASH_AT) == Some(found)
    decreases |wasm| - search
  {
    if Candidate(utf8, wasm, search) {
      if i > 0 {
        FoundIsRef(utf8, wasm, search + NAME_AT + |RefAt(utf8, wasm, search).value.name|, i - 1);
      }
    } else {
      FoundIsRef(utf8, wasm, search + 1, i);
    }
  }

  /** On the bytes alone: the scan reports a name and a slot exactly where a reference to that name is laid
      out, encoded as it should be, that no reported one reaches over. */
  lemma FoundIffLaid(utf8: Utf8, wasm: Bytes, pos: nat, name: Bytes)
    ensures FoundRef(name, pos + 8) in Refs(utf8, wasm)
            <==> Laid(wasm, pos, name) && utf8(name) && !Inside(Refs(utf8, wasm), pos)
  {
    var refs := Refs(utf8, wasm);
    FoundIffCandidate(utf8, wasm, pos);
    CandidateIffLaid(utf8, wasm, pos, name);
    forall i | 0 <= i < |refs| && refs[i].offset == pos + 8 ensures RefAt(utf8, wasm, pos) == Some(refs[i]) {
      FoundIsRef(utf8, wasm, 0, i);
    }
    if FoundRef(name, pos + 8) in refs {
      var i :| 0 <= i < |refs| && refs[i] == FoundRef(name, pos + 8);
      assert FoundAt(refs, pos);
    }
  }

  /** What a scan is to find: slots in order and apart, and a name with its slot exactly where a reference to
      that name is laid out that no other reported one reaches over. */
  ghost predicate FindsAll(utf8: Utf8, wasm: Bytes, refs: seq<FoundRef>) {
    && SlotsApart(|wasm|, refs, 8)
    && forall pos: nat, name ::
         Reported(refs, pos, name) <==> Laid(wasm, pos, name) && utf8(name) && !Inside(refs, pos)
  }

  ghost predicate Reported(refs: seq<FoundRef>, pos: nat, name: Bytes) {
    FoundRef(name, pos + 8) in refs
  }

  lemma RefsFindAll(utf8: Utf8, wasm: Bytes)
    ensures FindsAll(utf8, wasm, Refs(utf8, wasm))
  {
    ScannedSlotsApart(utf8, wasm, 0);
    ScannedBeyond(utf8, wasm, 0);
    forall pos: nat, name
      ensures Reported(Refs(utf8, wasm), pos, name)
              <==> Laid(wasm, pos, name) && utf8(name) && !Inside(Refs(utf8, wasm), pos)
    {
      FoundIffLaid(utf8, wasm, pos, name);
    }
  }

  lemma InsideBefore(a: seq<FoundRef>, b: seq<FoundRef>, i: nat, pos: nat)
    requires i <= |a| && i <= |b| && a[..i] == b[..i] && SlotsBeyond(b[i..], pos + 8)
    ensures Inside(b, pos) ==> Inside(a, pos)
  {
    if Inside(b, pos) {
      var j :| 0 <= j < |b| && b[j].offset < pos + HASH_AT < b[j].offset + NAME_AT + |b[j].name|;
      assert a[j] == a[..i][j] == b[j];
    }
  }

  lemma StillReported(utf8: Utf8, wasm: Bytes, a: seq<FoundRef>, b: seq<FoundRef>, i: nat)
    requires FindsAll(utf8, wasm, a) && FindsAll(utf8, wasm, b)
    requires i < |a| && i <= |b| && a[..i] == b[..i]
    requires i < |b| ==> a[i].offset < b[i].offset
    ensures a[i] in b
  {
    var pos: nat := a[i].offset - 8;
    assert forall j :: 0 <= j < i ==> a[j] == a[..i][j] == b[j];
    assert Reported(a, pos, a[i].name);
    InsideBefore(a, b, i, pos);
    assert Reported(b, pos, a[i].name);
  }

  /** Where two scans agree on the first `i` references, neither has one before the other's next. */
  lemma NextNotLater(utf8: Utf8, wasm: Bytes, a: seq<FoundRef>, b: seq<FoundRef>, i: nat)
    requires FindsAll(utf8, wasm, a) && FindsAll(utf8, wasm, b)
    requires i < |a| && i <= |b| && a[..i] == b[..i]
    ensures i < |b| && b[i].offset <= a[i].offset
  {
    assert forall j :: 0 <= j < i ==> a[j] == a[..i][j] == b[j];
    if i == |b| || a[i].offset < b[i].offset {
      StillReported(utf8, wasm, a, b, i);
    }
  }

  /** That leaves no choice: every scan that does this finds the same. */
  lemma {:induction false} OnlyScan(utf8: Utf8, wasm: Bytes, a: seq<FoundRef>, b: seq<FoundRef>, i: nat)
    requires FindsAll(utf8, wasm, a) && FindsAll(utf8, wasm, b)
    requires i <= |a| && i <= |b| && a[..i] == b[..i]
    ensures a == b
    decreases |a| - i
  {
    if i < |a| {
      NextNotLater(utf8, wasm, a, b, i);
      NextNotLater(utf8, wasm, b, a, i);
      SameNext(utf8, wasm, a, b, i);
      OnlyScan(utf8, wasm, a, b, i + 1);
    } else if i < |b| {
      NextNotLater(utf8, wasm, b, a, i);
    }
  }

  lemma SameNext(utf8: Utf8, wasm: Bytes, a: seq<FoundRef>, b: seq<FoundRef>, i: nat)
    requires FindsAll(utf8, wasm, a) && FindsAll(utf8, wasm, b)
    requires i < |a| && i < |b| && a[..i] == b[..i] && a[i].offset == b[i].offset
    ensures a[..i + 1] == b[..i + 1]
  {
    var pos: nat := a[i].offset - 8;
    assert Reported(a, pos, a[i].name) && Reported(b, pos, b[i].name);
    CandidateIffLaid(utf8, wasm, pos, a[i].name);
    CandidateIffLaid(utf8, wasm, pos, b[i].name);
    assert a[i] == b[i];
    assert a[..i + 1] == a[..i] + [a[i]] && b[..i + 1] == b[..i] + [b[i]];
  }
}
