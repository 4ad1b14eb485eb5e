/** Scanning a class again after it was patched (swarm/myrmic-build/src/spawn_patch.rs,
    sdk/myrmic-common/src/cells/spawn_ref.rs). */
module Rescan {
  import opened Basics
  import opened SpawnRefs
  import opened SpawnPatch

  /** Where the scan meets the magic bytes and goes on, because what follows is implausible. */
  function Decoys(utf8: Utf8, wasm: Bytes, search: nat): (found: seq<nat>)
    ensures forall i :: 0 <= i < |found| ==> found[i] + NAME_AT <= |wasm|
    decreases |wasm| - search
  {
    if search >= |wasm| then []
    else if !MagicAt(wasm, search) then Decoys(utf8, wasm, search + 1)
    else if search + NAME_AT > |wasm| then []
    else
      match RefAt(utf8, wasm, search)
      case None => [search] + Decoys(utf8, wasm, search + 1)
      case Some(found) => Decoys(utf8, wasm, search + NAME_AT + |found.name|)
  }

  /** What the scan passed over in the class as built, it would pass over in the patched one. */
  ghost predicate StillDecoys(utf8: Utf8, wasm: Bytes, patched: Bytes, search: nat)
    requires |patched| == |wasm|
  {
    var decoys := Decoys(utf8, wasm, search);
    forall i :: 0 <= i < |decoys| ==> RefAt(utf8, patched, decoys[i]).None?
  }

  /** From `search` on, the two differ at most in the slots. */
  ghost predicate SameOutside(wasm: Bytes, patched: Bytes, refs: seq<FoundRef>, search: nat) {
    |patched| == |wasm| && forall k :: search <= k < |wasm| && OutsideSlots(refs, k) ==> patched[k] == wasm[k]
  }

  /** Bytes before every slot are as built. */
  lemma SameBelow(wasm: Bytes, patched: Bytes, refs: seq<FoundRef>, search: nat, from: nat, to: nat)
    requires SameOutside(wasm, patched, refs, search) && search <= from <= to <= |wasm| && SlotsBeyond(refs, to)
    ensures patched[from..to] == wasm[from..to]
  {
    forall k | from <= k < to ensures patched[k] == wasm[k] {
      assert OutsideSlots(refs, k);
    }
  }

  lemma SameMagic(wasm: Bytes, patched: Bytes, refs: seq<FoundRef>, search: nat)
    requires SameOutside(wasm, patched, refs, search) && SlotsBeyond(refs, search + HASH_AT)
    ensures MagicAt(patched, search) <==> MagicAt(wasm, search)
  {
    if search + |MAGIC| <= |wasm| {
      SameBelow(wasm, patched, refs, search, search, search + |MAGIC|);
    }
  }

  /** A reference that was found is found again: only its own slot lies within it. */
  lemma SameRef(utf8: Utf8, wasm: Bytes, patched: Bytes, refs: seq<FoundRef>, search: nat)
    requires SameOutside(wasm, patched, refs, search)
    requires search + NAME_AT <= |wasm| && RefAt(utf8, wasm, search).Some? && refs != []
    requires refs[0] == RefAt(utf8, wasm, search).value
    requires SlotsBeyond(refs[1..], search + NAME_AT + |refs[0].name|)
    ensures RefAt(utf8, patched, search) == RefAt(utf8, wasm, search)
    ensures SameOutside(wasm, patched, refs[1..], search + NAME_AT + |refs[0].name|)
  {
    var next := search + NAME_AT + |refs[0].name|;
    forall k | search + NAME_LEN_AT <= k < |wasm| && OutsideSlots(refs[1..], k) ensures patched[k] == wasm[k] {
      assert forall i :: 1 <= i < |refs| ==> refs[i] == refs[1..][i - 1];
      assert OutsideSlots(refs, k);
    }
    assert SameOutside(wasm, patched, refs[1..], search + NAME_LEN_AT);
    SameBelow(wasm, patched, refs[1..], search + NAME_LEN_AT, search + NAME_LEN_AT, next);
    SameTail(utf8, wasm, patched, search, next);
  }

  lemma SameTail(utf8: Utf8, wasm: Bytes, patched: Bytes, search: nat, next: nat)
    requires |patched| == |wasm| && search + NAME_AT <= next <= |wasm|
    requires patched[search + NAME_LEN_AT..next] == wasm[search + NAME_LEN_AT..next]
    requires RefAt(utf8, wasm, search).Some? && next == search + NAME_AT + |RefAt(utf8, wasm, search).value.name|
    ensures RefAt(utf8, patched, search) == RefAt(utf8, wasm, search)
  {
    var at := search + NAME_LEN_AT;
    forall k | at <= k < next ensures patched[k] == wasm[k] {
      assert patched[k] == patched[at..next][k - at] && wasm[k] == wasm[at..next][k - at];
    }
    assert LittleEndian(patched, at) == LittleEndian(wasm, at);
    assert patched[search + NAME_AT..next] == wasm[search + NAME_AT..next];
  }

  /** From `search` on, the patched bytes scan as the built ones do, exactly when no decoy has turned. */
  ghost predicate RescanAgrees(utf8: Utf8, wasm: Bytes, patched: Bytes, search: nat)
    requires |patched| == |wasm|
  {
    RefsFrom(utf8, patched, search) == RefsFrom(utf8, wasm, search) <==> StillDecoys(utf8, wasm, patched, search)
  }

  lemma DecoyDecides(utf8: Utf8, wasm: Bytes, patched: Bytes, search: nat)
    requires |patched| == |wasm| && search + NAME_AT <= |wasm| && MagicAt(wasm, search) && MagicAt(patched, search)
    requires RefAt(utf8, wasm, search).None?
    requires RescanAgrees(utf8, wasm, patched, search + 1)
    ensures RescanAgrees(utf8, wasm, patched, search)
  {
    var decoys, rest := Decoys(utf8, wasm, search), Decoys(utf8, wasm, search + 1);
    assert decoys == [search] + rest && decoys[0] == search;
    assert forall i :: 0 <= i < |rest| ==> decoys[i + 1] == rest[i];
    if RefAt(utf8, patched, search).Some? {
      ScannedBeyond(utf8, wasm, search + 1);
      assert RefsFrom(utf8, patched, search)[0].offset == search + HASH_AT;
    } else {
      assert StillDecoys(utf8, wasm, patched, search + 1) ==> StillDecoys(utf8, wasm, patched, search);
    }
  }

  lemma PlainDecides(utf8: Utf8, wasm: Bytes, patched: Bytes, search: nat)
    requires |patched| == |wasm| && search < |wasm| && !MagicAt(wasm, search) && !MagicAt(patched, search)
    requires RescanAgrees(utf8, wasm, patched, search + 1)
    ensures RescanAgrees(utf8, wasm, patched, search)
  {
    assert RefsFrom(utf8, wasm, search) == RefsFrom(utf8, wasm, search + 1);
    assert RefsFrom(utf8, patched, search) == RefsFrom(utf8, patched, search + 1);
    assert Decoys(utf8, wasm, search) == Decoys(utf8, wasm, search + 1);
  }

  lemma SameRest(found: FoundRef, a: seq<FoundRef>, b: seq<FoundRef>)
    ensures [found] + a == [found] + b <==> a == b
  {
    assert ([found] + a)[1..] == a && ([found] + b)[1..] == b;
  }

  lemma RefUnfolds(utf8: Utf8, wasm: Bytes, search: nat, found: FoundRef)
    requires search + NAME_AT <= |wasm| && MagicAt(wasm, search) && RefAt(utf8, wasm, search) == Some(found)
    ensures RefsFrom(utf8, wasm, search) == [found] + RefsFrom(utf8, wasm, search + NAME_AT + |found.name|)
    ensures Decoys(utf8, wasm, search) == Decoys(utf8, wasm, search + NAME_AT + |found.name|)
  {
  }

  lemma RefDecides(utf8: Utf8, wasm: Bytes, patched: Bytes, search: nat, found: FoundRef)
    requires |patched| == |wasm| && search + NAME_AT <= |wasm| && MagicAt(wasm, search) && MagicAt(patched, search)
    requires RefAt(utf8, patched, search) == RefAt(utf8, wasm, search) == Some(found)
    requires RescanAgrees(utf8, wasm, patched, search + NAME_AT + |found.name|)
    ensures RescanAgrees(utf8, wasm, patched, search)
  {
    var next := search + NAME_AT + |found.name|;
    RefUnfolds(utf8, wasm, search, found);
    RefUnfolds(utf8, patched, search, found);
    SameRest(found, RefsFrom(utf8, wasm, next), RefsFrom(utf8, patched, next));
  }

  lemma {:induction false} RescanFrom(utf8: Utf8, wasm: Bytes, patched: Bytes, search: nat)
    requires SameOutside(wasm, patched, RefsFrom(utf8, wasm, search), search)
    ensures RescanAgrees(utf8, wasm, patched, search)
    decreases |wasm| - search
  {
    if search < |wasm| {
      ScannedBeyond(utf8, wasm, search);
      SameMagic(wasm, patched, RefsFrom(utf8, wasm, search), search);
      if !MagicAt(wasm, search) {
        RescanFrom(utf8, wasm, patched, search + 1);
        PlainDecides(utf8, wasm, patched, search);
      } else if search + NAME_AT <= |wasm| {
        if RefAt(utf8, wasm, search).Some? {
          RefSplits(utf8, wasm, patched, search);
          RescanFrom(utf8, wasm, patched, search + NAME_AT + |RefAt(utf8, wasm, search).value.name|);
          RefDecides(utf8, wasm, patched, search, RefAt(utf8, wasm, search).value);
        } else {
          RescanFrom(utf8, wasm, patched, search + 1);
          DecoyDecides(utf8, wasm, patched, search);
        }
      }
    }
  }

  lemma RefSplits(utf8: Utf8, wasm: Bytes, patched: Bytes, search: nat)
    requires SameOutside(wasm, patched, RefsFrom(utf8, wasm, search), search)
    requires search + NAME_AT <= |wasm| && MagicAt(wasm, search) && RefAt(utf8, wasm, search).Some?
    ensures RefAt(utf8, patched, search) == RefAt(utf8, wasm, search)
    ensures var next := search + NAME_AT + |RefAt(utf8, wasm, search).value.name|;
            SameOutside(wasm, patched, RefsFrom(utf8, wasm, next), next)
  {
    var refs, found := RefsFrom(utf8, wasm, search), RefAt(utf8, wasm, search).value;
    var next := search + NAME_AT + |found.name|;
    ScannedBeyond(utf8, wasm, next);
    assert refs == [found] + RefsFrom(utf8, wasm, next);
    assert refs[1..] == RefsFrom(utf8, wasm, next);
    SameRef(utf8, wasm, patched, refs, search);
  }

  /** Scanning a class of a finished deploy again finds the same references, exactly when nothing the scan
      passed over as implausible has become plausible through the hashes now in the slots. */
  lemma RescanIff(dep: Deploy, out: map<Bytes, Bytes>, name: Bytes)
    requires FixedPoint(dep, out) && name in out
    ensures Refs(dep.utf8, out[name]) == dep.RefsOf(name) <==> StillDecoys(dep.utf8, dep.built[name], out[name], 0)
  {
    assert Consistent(dep, out, name, out[name]);
    RescanFrom(dep.utf8, dep.built[name], out[name], 0);
  }

  /** The slots of the class filled in, with whatever hashes. */
  ghost predicate Filling(utf8: Utf8, wasm: Bytes, patched: Bytes) {
    SameOutside(wasm, patched, Refs(utf8, wasm), 0)
  }

  /** Some hashes would make the bytes behind position `at` a reference. */
  ghost predicate Turnable(utf8: Utf8, wasm: Bytes, at: nat)
    requires at + NAME_AT <= |wasm|
  {
    exists patched: Bytes :: Filling(utf8, wasm, patched) && RefAt(utf8, patched, at).Some?
  }

  ghost predicate NoneTurnable(utf8: Utf8, wasm: Bytes) {
    var decoys := Decoys(utf8, wasm, 0);
    forall i :: 0 <= i < |decoys| ==> !Turnable(utf8, wasm, decoys[i])
  }

  lemma FillingAgrees(utf8: Utf8, wasm: Bytes, patched: Bytes)
    requires NoneTurnable(utf8, wasm) && Filling(utf8, wasm, patched)
    ensures Refs(utf8, patched) == Refs(utf8, wasm)
  {
    RescanFrom(utf8, wasm, patched, 0);
    var decoys := Decoys(utf8, wasm, 0);
    forall i | 0 <= i < |decoys| ensures RefAt(utf8, patched, decoys[i]).None? {
      assert !Turnable(utf8, wasm, decoys[i]);
    }
  }

  lemma TurnedDisagrees(utf8: Utf8, wasm: Bytes) returns (patched: Bytes)
    requires !NoneTurnable(utf8, wasm)
    ensures Filling(utf8, wasm, patched) && Refs(utf8, patched) != Refs(utf8, wasm)
  {
    var decoys := Decoys(utf8, wasm, 0);
    var i :| 0 <= i < |decoys| && Turnable(utf8, wasm, decoys[i]);
    patched :| Filling(utf8, wasm, patched) && RefAt(utf8, patched, decoys[i]).Some?;
    RescanFrom(utf8, wasm, patched, 0);
  }

  /** Before the hashes are known, from the class as built: it scans alike however its slots are filled,
      exactly when no filling turns a position the scan passes over. */
  lemma FillingsAgreeIff(utf8: Utf8, wasm: Bytes)
    ensures (forall patched: Bytes :: Filling(utf8, wasm, patched) ==> Refs(utf8, patched) == Refs(utf8, wasm))
            <==> NoneTurnable(utf8, wasm)
  {
    if NoneTurnable(utf8, wasm) {
      forall patched: Bytes | Filling(utf8, wasm, patched) ensures Refs(utf8, patched) == Refs(utf8, wasm) {
        FillingAgrees(utf8, wasm, patched);
      }
    } else {
      var patched := TurnedDisagrees(utf8, wasm);
    }
  }

  /** Some slot reaches into the bytes from `from` to `to`. */
  predicate Meets(refs: seq<FoundRef>, from: nat, to: nat) {
    exists i :: 0 <= i < |refs| && refs[i].offset < to && from < refs[i].offset + HASH_LEN
  }

  /** No slot reaches into the length behind position `at`, nor into the name if that length is plausible. */
  predicate Shielded(wasm: Bytes, refs: seq<FoundRef>, at: nat)
    requires at + NAME_AT <= |wasm|
  {
    var len := LittleEndian(wasm, at + NAME_LEN_AT);
    && !Meets(refs, at + NAME_LEN_AT, at + NAME_AT)
    && (0 < len <= MAX_NAME && at + NAME_AT + len <= |wasm| ==> !Meets(refs, at + NAME_AT, at + NAME_AT + len))
  }

  lemma SameApart(wasm: Bytes, patched: Bytes, refs: seq<FoundRef>, from: nat, to: nat)
    requires SameOutside(wasm, patched, refs, 0) && from <= to <= |wasm| && !Meets(refs, from, to)
    ensures forall k :: from <= k < to ==> patched[k] == wasm[k]
  {
    forall k | from <= k < to ensures patched[k] == wasm[k] {
      assert OutsideSlots(refs, k);
    }
  }

  lemma ShieldedStays(utf8: Utf8, wasm: Bytes, patched: Bytes, refs: seq<FoundRef>, at: nat)
    requires SameOutside(wasm, patched, refs, 0) && at + NAME_AT <= |wasm| && Shielded(wasm, refs, at)
    ensures RefAt(utf8, patched, at) == RefAt(utf8, wasm, at)
  {
    SameApart(wasm, patched, refs, at + NAME_LEN_AT, at + NAME_AT);
    var len := LittleEndian(wasm, at + NAME_LEN_AT);
    assert LittleEndian(patched, at + NAME_LEN_AT) == len;
    if 0 < len <= MAX_NAME && at + NAME_AT + len <= |wasm| {
      SameApart(wasm, patched, refs, at + NAME_AT, at + NAME_AT + len);
      assert patched[at + NAME_AT..at + NAME_AT + len] == wasm[at + NAME_AT..at + NAME_AT + len];
    }
  }

  lemma {:induction false} DecoysRefused(utf8: Utf8, wasm: Bytes, search: nat)
    ensures forall i :: 0 <= i < |Decoys(utf8, wasm, search)| ==> RefAt(utf8, wasm, Decoys(utf8, wasm, search)[i]).None?
    decreases |wasm| - search
  {
    if search < |wasm| {
      if !MagicAt(wasm, search) {
        DecoysRefused(utf8, wasm, search + 1);
      } else if search + NAME_AT <= |wasm| {
        if RefAt(utf8, wasm, search).None? {
          DecoysRefused(utf8, wasm, search + 1);
        } else {
          DecoysRefused(utf8, wasm, search + NAME_AT + |RefAt(utf8, wasm, search).value.name|);
        }
      }
    }
  }

  /** Every position the scan passes over is shielded. */
  predicate Clear(utf8: Utf8, wasm: Bytes) {
    var decoys := Decoys(utf8, wasm, 0);
    forall i :: 0 <= i < |decoys| ==> Shielded(wasm, Refs(utf8, wasm), decoys[i])
  }

  /** A deployer's test on the class as built: where no slot reaches into what the scan passes over, the
      patched class scans as before, whatever the hashes are. */
  lemma ClearRescans(utf8: Utf8, wasm: Bytes, patched: Bytes)
    requires Clear(utf8, wasm) && Filling(utf8, wasm, patched)
    ensures Refs(utf8, patched) == Refs(utf8, wasm)
  {
    var decoys := Decoys(utf8, wasm, 0);
    DecoysRefused(utf8, wasm, 0);
    forall i | 0 <= i < |decoys| ensures RefAt(utf8, patched, decoys[i]).None? {
      ShieldedStays(utf8, wasm, patched, Refs(utf8, wasm), decoys[i]);
    }
    RescanFrom(utf8, wasm, patched, 0);
  }

  /** Distance is enough: a class is clear if no slot lies within the 132 bytes that the length and the longest
      name behind a passed-over magic could take. */
  lemma FarIsClear(utf8: Utf8, wasm: Bytes)
    requires forall i, j :: 0 <= i < |Decoys(utf8, wasm, 0)| && 0 <= j < |Refs(utf8, wasm)| ==>
               Refs(utf8, wasm)[j].offset + 32 <= Decoys(utf8, wasm, 0)[i] + 40
               || Decoys(utf8, wasm, 0)[i] + 172 <= Refs(utf8, wasm)[j].offset
    ensures Clear(utf8, wasm)
  {
  }

  lemma ClearDeploys(dep: Deploy, out: map<Bytes, Bytes>, name: Bytes)
    requires FixedPoint(dep, out) && name in out && Clear(dep.utf8, dep.built[name])
    ensures Refs(dep.utf8, out[name]) == dep.RefsOf(name)
  {
    assert Consistent(dep, out, name, out[name]);
    ClearRescans(dep.utf8, dep.built[name], out[name]);
  }

  /** A stray magic, then a reference to class `a` whose slot reaches over the stray's length and name. */
  function Haunted(slot: Bytes): Bytes {
    MAGIC + MAGIC + slot + [1, 0, 0, 0] + [0x61]
  }

  lemma HauntedBytes(slot: Bytes)
    requires |slot| == HASH_LEN
    ensures var w := Haunted(slot);
            && |w| == 53 && w[..8] == MAGIC && w[8..16] == MAGIC && w[16..48] == slot
            && w[48..52] == [1, 0, 0, 0] && w[52] == 0x61
            && forall k :: 1 <= k < 8 ==> w[k] != 0
  {
    var w := Haunted(slot);
    assert forall k :: 1 <= k < 8 ==> w[k] == MAGIC[k];
  }

  /** The length the stray reads out of the slot is none, or more than there is room for. */
  predicate Implausible(slot: Bytes)
    requires |slot| == HASH_LEN
  {
    LittleEndian(slot, 24) == 0 || LittleEndian(slot, 24) > 9
  }

  /** The slot a reference is built with. */
  const PLACEHOLDER: Bytes := seq(HASH_LEN, _ => 0xAA)

  lemma PlaceholderImplausible()
    ensures Implausible(PLACEHOLDER)
  {
  }

  lemma BlankScans(utf8: Utf8, blank: Bytes)
    requires utf8([0x61]) && |blank| == HASH_LEN && Implausible(blank)
    ensures Refs(utf8, Haunted(blank)) == [FoundRef([0x61], 16)]
  {
    HauntedBytes(blank);
    StrayRef(utf8, blank);
    RealRef(utf8, blank);
    var w := Haunted(blank);
    forall k | 1 <= k < 8 ensures !MagicAt(w, k) {
      assert w[k..k + 8][0] == w[k];
    }
    NoMagicBetween(utf8, w, 1, 8);
    assert RefsFrom(utf8, w, 53) == [];
  }

  /** It can happen: in a deploy where the registry's hash spells a length and a letter in the right place,
      the one output turns the stray magic into a reference, and a rescan finds that instead of the real
      one. */
  lemma HashTurnsDecoy(dep: Deploy, parent: Bytes, blank: Bytes)
    requires |blank| == HASH_LEN && Implausible(blank) && parent != [0x61]
    requires dep.built == map[parent := Haunted(blank)] && dep.utf8([0x61]) && dep.registry([0x61]).Found?
    requires var hash := dep.registry([0x61]).hash; hash[24..28] == [1, 0, 0, 0] && hash[28] == 0x61
    ensures var out := map[parent := Haunted(dep.registry([0x61]).hash)];
            && FixedPoint(dep, out)
            && dep.RefsOf(parent) == [FoundRef([0x61], 16)]
            && Refs(dep.utf8, out[parent]) != [] && Refs(dep.utf8, out[parent])[0] == FoundRef([0x61], 8)
  {
    var hash := dep.registry([0x61]).hash;
    BlankScans(dep.utf8, blank);
    StrayRef(dep.utf8, hash);
    HauntedBytes(blank);
    HauntedBytes(hash);
    HauntedConsistent(dep, parent, blank);
  }

  lemma HauntedConsistent(dep: Deploy, parent: Bytes, blank: Bytes)
    requires |blank| == HASH_LEN && parent != [0x61] && dep.built == map[parent := Haunted(blank)]
    requires dep.RefsOf(parent) == [FoundRef([0x61], 16)] && dep.registry([0x61]).Found?
    ensures FixedPoint(dep, map[parent := Haunted(dep.registry([0x61]).hash)])
  {
    var hash := dep.registry([0x61]).hash;
    var out, refs := map[parent := Haunted(hash)], dep.RefsOf(parent);
    HauntedBytes(blank);
    HauntedBytes(hash);
    forall k | 0 <= k < 53 && OutsideSlots(refs, k) ensures Haunted(hash)[k] == Haunted(blank)[k] {
      assert refs[0].offset == 16;
    }
    assert Consistent(dep, out, parent, out[parent]);
  }

  lemma StrayRef(utf8: Utf8, slot: Bytes)
    requires |slot| == HASH_LEN && utf8([0x61])
    ensures MagicAt(Haunted(slot), 0)
    ensures Implausible(slot) ==> RefAt(utf8, Haunted(slot), 0).None?
    ensures slot[24..28] == [1, 0, 0, 0] && slot[28] == 0x61 ==>
              RefAt(utf8, Haunted(slot), 0) == Some(FoundRef([0x61], 8))
  {
    HauntedBytes(slot);
    var w := Haunted(slot);
    assert forall k :: 16 <= k < 48 ==> w[k] == w[16..48][k - 16];
    assert forall k :: 24 <= k < 28 ==> slot[k] == slot[24..28][k - 24];
    assert LittleEndian(w, 40) == LittleEndian(slot, 24);
    assert w[44..45] == [w[44]];
  }

  lemma RealRef(utf8: Utf8, slot: Bytes)
    requires |slot| == HASH_LEN && utf8([0x61])
    ensures MagicAt(Haunted(slot), 8) && RefAt(utf8, Haunted(slot), 8) == Some(FoundRef([0x61], 16))
  {
    HauntedBytes(slot);
    var w := Haunted(slot);
    assert forall k :: 48 <= k < 52 ==> w[k] == w[48..52][k - 48];
    assert w[52..53] == [w[52]];
  }
}
