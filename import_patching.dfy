/**
 * patchimport / restoreimport: redirect one entry of a loaded image's Import
 * Address Table (IAT) to a replacement address, and put it back.
 *
 * The image is abstract. Its import directory is an optional sequence of
 * descriptors (absent when the image imports nothing), each giving the name of
 * an exporting module and where its IAT starts; the IAT slots of all
 * descriptors live in one array of pointer-sized words, indexed directly
 * instead of through relative virtual addresses; and each page of that array
 * has a protection value that VirtualProtect reads and sets. The layout is the
 * Import Directory Table / Import Address Table of the Microsoft Portable
 * Executable and Common Object File Format specification, section "The .idata
 * Section".
 */
module ImportPatching {
  import opened Wrappers
  import opened CStrings

  /** A pointer-sized value (DWORD_PTR on 64-bit Windows): an IAT slot or an address. */
  newtype Word = x: int | 0 <= x < 0x1_0000_0000_0000_0000

  /** A 32-bit DWORD: a relative virtual address or a page-protection value. */
  newtype Dword = x: int | 0 <= x < 0x1_0000_0000

  const PageReadWrite: Dword := 0x04
  const PageWriteCopy: Dword := 0x08
  const PageExecuteReadWrite: Dword := 0x40
  const PageExecuteWriteCopy: Dword := 0x80

  /** A page whose protection lets the process store into it. */
  predicate Writable(p: Dword) {
    p == PageReadWrite || p == PageWriteCopy || p == PageExecuteReadWrite || p == PageExecuteWriteCopy
  }

  /** IAT slots per page: 4096-byte pages of 8-byte slots. */
  const SlotsPerPage: nat := 512

  function PageOf(slot: nat): nat {
    slot / SlotsPerPage
  }

  /**
   * One IMAGE_IMPORT_DESCRIPTOR: the exporting module's name (the string its
   * Name field points at), OriginalFirstThunk (zero only in the entry that
   * ends the array) and the index of the first slot of its IAT (FirstThunk).
   */
  datatype Descriptor = Descriptor(name: string, originalFirstThunk: Dword, firstThunk: nat)

  // ---------------------------------------------------------------------------
  // The descriptor array and the descriptor search

  /** The descriptor array has an entry with OriginalFirstThunk zero at or after `i`. */
  ghost predicate HasTerminator(ds: seq<Descriptor>, i: nat) {
    exists e :: i <= e < |ds| && ds[e].originalFirstThunk == 0
  }

  /** The terminating entry: the first at or after `i` whose OriginalFirstThunk is zero. */
  ghost function DescriptorEnd(ds: seq<Descriptor>, i: nat): (e: nat)
    requires HasTerminator(ds, i)
    ensures i <= e < |ds| && ds[e].originalFirstThunk == 0
    ensures forall j :: i <= j < e ==> ds[j].originalFirstThunk != 0
    decreases |ds| - i
  {
    if ds[i].originalFirstThunk == 0 then i else DescriptorEnd(ds, i + 1)
  }

  /**
   * The descriptor loop from entry `i`: the first entry before the terminator
   * whose name equals `name` ignoring ASCII case, or None.
   */
  function LocateFrom(ds: seq<Descriptor>, name: string, i: nat): (r: Option<nat>)
    requires HasTerminator(ds, i)
    ensures r.Some? ==> i <= r.value < DescriptorEnd(ds, i) && EqualsIgnoreCase(ds[r.value].name, name)
    ensures r.Some? ==> forall j :: i <= j < r.value ==> !EqualsIgnoreCase(ds[j].name, name)
    ensures r.None? ==> forall j :: i <= j < DescriptorEnd(ds, i) ==> !EqualsIgnoreCase(ds[j].name, name)
    decreases |ds| - i
  {
    if ds[i].originalFirstThunk == 0 then None
    else if EqualsIgnoreCase(ds[i].name, name) then Some(i)
    else LocateFrom(ds, name, i + 1)
  }

  /** The descriptor for `name`, or None when there is no import directory or no such entry. */
  function FindImport(imports: Option<seq<Descriptor>>, name: string): (r: Option<nat>)
    requires imports.Some? ==> HasTerminator(imports.value, 0)
    ensures imports.None? ==> r.None?
    ensures r.Some? ==> (imports.Some? && r.value < DescriptorEnd(imports.value, 0) &&
      EqualsIgnoreCase(imports.value[r.value].name, name) &&
      forall j :: 0 <= j < r.value ==> !EqualsIgnoreCase(imports.value[j].name, name))
    ensures r.None? && imports.Some? ==>
      forall j :: 0 <= j < DescriptorEnd(imports.value, 0) ==> !EqualsIgnoreCase(imports.value[j].name, name)
  {
    if imports.None? then None else LocateFrom(imports.value, name, 0)
  }

  // ---------------------------------------------------------------------------
  // IAT slots and the slot search

  /** The slots from `k` on reach a zero slot. */
  ghost predicate HasSentinel(s: seq<Word>, k: nat) {
    exists z :: k <= z < |s| && s[z] == 0
  }

  /** The zero slot that ends the IAT starting at `k`. */
  ghost function TableEnd(s: seq<Word>, k: nat): (e: nat)
    requires HasSentinel(s, k)
    ensures k <= e < |s| && s[e] == 0
    ensures forall j :: k <= j < e ==> s[j] != 0
    decreases |s| - k
  {
    if s[k] == 0 then k else TableEnd(s, k + 1)
  }

  /**
   * The IAT loop from slot `k`: the first slot before the zero slot that holds
   * `target`, or None. A zero `target` is never found.
   */
  function FindSlot(s: seq<Word>, k: nat, target: Word): (r: Option<nat>)
    requires HasSentinel(s, k)
    ensures r.Some? ==> k <= r.value < TableEnd(s, k) && s[r.value] == target
    ensures r.Some? ==> forall j :: k <= j < r.value ==> s[j] != target
    ensures r.None? ==> forall j :: k <= j < TableEnd(s, k) ==> s[j] != target
    decreases |s| - k
  {
    if s[k] == 0 then None
    else if s[k] == target then Some(k)
    else FindSlot(s, k + 1, target)
  }

  /** The live part of the IAT starting at `k`: the slots before its zero slot. */
  ghost function Live(s: seq<Word>, k: nat): seq<Word>
    requires HasSentinel(s, k)
  {
    s[k..TableEnd(s, k)]
  }

  /** Overwriting a non-zero slot keeps every zero slot, so every IAT still ends. */
  lemma WriteKeepsSentinel(s: seq<Word>, k: nat, j: nat, value: Word)
    requires HasSentinel(s, k) && j < |s| && s[j] != 0
    ensures HasSentinel(s[j := value], k)
  {
    var e := TableEnd(s, k);
    assert s[j := value][e] == 0;
  }

  /** Where the IAT at `k` ends after a non-zero value replaces one of its live slots. */
  lemma WriteKeepsEnd(s: seq<Word>, k: nat, j: nat, value: Word)
    requires HasSentinel(s, k) && k <= j < TableEnd(s, k) && value != 0
    ensures HasSentinel(s[j := value], k)
    ensures TableEnd(s[j := value], k) == TableEnd(s, k)
  {
    WriteKeepsSentinel(s, k, j, value);
    TableEndIs(s[j := value], k, TableEnd(s, k));
  }

  /**
   * One pass of the IAT loop: the first live slot from `from` that holds
   * `target` is set to `value`; with no such slot nothing changes.
   */
  function Rewrite(s: seq<Word>, from: nat, target: Word, value: Word): (r: seq<Word>)
    requires HasSentinel(s, from)
    ensures |r| == |s| && HasSentinel(r, from)
  {
    match FindSlot(s, from, target)
    case None => s
    case Some(k) =>
      WriteKeepsSentinel(s, from, k, value);
      s[k := value]
  }

  /** The zero slot that ends a table is the first zero slot. */
  lemma TableEndIs(s: seq<Word>, from: nat, e: nat)
    requires from <= e < |s| && s[e] == 0 && forall j :: from <= j < e ==> s[j] != 0
    ensures HasSentinel(s, from) && TableEnd(s, from) == e
  {
  }

  /** The slot search finds the first live slot holding the target. */
  lemma FindSlotIs(s: seq<Word>, from: nat, target: Word, k: nat)
    requires HasSentinel(s, from) && from <= k < TableEnd(s, from) && s[k] == target
    requires forall j :: from <= j < k ==> s[j] != target
    ensures FindSlot(s, from, target) == Some(k)
  {
  }

  /** Rewrite changes only the first live slot holding `target`, to exactly `value`. */
  lemma RewriteFirstMatchOnly(s: seq<Word>, from: nat, target: Word, value: Word)
    requires HasSentinel(s, from)
    ensures target !in Live(s, from) ==> Rewrite(s, from, target, value) == s
    ensures forall k :: from <= k < TableEnd(s, from) && s[k] == target && target !in s[from..k] ==>
      Rewrite(s, from, target, value) == s[k := value]
  {
    var e := TableEnd(s, from);
    forall j | from <= j < e
      ensures s[j] in Live(s, from)
    {
      assert Live(s, from)[j - from] == s[j];
    }
    forall k | from <= k < e && s[k] == target && target !in s[from..k]
      ensures Rewrite(s, from, target, value) == s[k := value]
    {
      forall j | from <= j < k
        ensures s[j] != target
      {
        assert s[from..k][j - from] == s[j];
      }
      FindSlotIs(s, from, target, k);
    }
  }

  /** Rewriting `a` to a non-zero `b` that was not live, then `b` back to `a`, restores every slot. */
  lemma {:induction false} RewriteUndone(s: seq<Word>, from: nat, a: Word, b: Word)
    requires HasSentinel(s, from)
    requires b != 0 && b !in Live(s, from)
    ensures Rewrite(Rewrite(s, from, a, b), from, b, a) == s
  {
    var e := TableEnd(s, from);
    assert forall j :: from <= j < e ==> s[j] != b by {
      forall j | from <= j < e ensures s[j] != b {
        assert Live(s, from)[j - from] == s[j];
      }
    }
    var r := FindSlot(s, from, a);
    if r.None? {
      assert FindSlot(s, from, b).None?;
    } else {
      var k := r.value;
      var s' := s[k := b];
      WriteKeepsEnd(s, from, k, b);
      FindSlotIs(s', from, b, k);
      assert s'[k := a] == s;
    }
  }

  /** `x` occupies at most one position of `t`. */
  predicate AtMostOnce(t: seq<Word>, x: Word) {
    forall i, j :: 0 <= i < j < |t| ==> t[i] != x || t[j] != x
  }

  /** If `a` is live at most once, a second identical rewrite changes nothing. */
  lemma {:induction false} RewriteIdempotent(s: seq<Word>, from: nat, a: Word, b: Word)
    requires HasSentinel(s, from)
    requires AtMostOnce(Live(s, from), a)
    ensures Rewrite(Rewrite(s, from, a, b), from, a, b) == Rewrite(s, from, a, b)
  {
    var e := TableEnd(s, from);
    assert forall i, j :: from <= i < j < e ==> s[i] != a || s[j] != a by {
      forall i, j | from <= i < j < e ensures s[i] != a || s[j] != a {
        assert Live(s, from)[i - from] == s[i] && Live(s, from)[j - from] == s[j];
      }
    }
    var r := FindSlot(s, from, a);
    if r.Some? {
      var k := r.value;
      var s' := s[k := b];
      if a == b {
        assert s' == s;
      } else if b == 0 {
        TableEndIs(s', from, k);
        assert FindSlot(s', from, a).None?;
      } else {
        WriteKeepsEnd(s, from, k, b);
        assert FindSlot(s', from, a).None?;
      }
    }
  }

  // ---------------------------------------------------------------------------
  // Whole-image specifications

  /**
   * What the loader guarantees about an image: a present import directory is
   * terminated, and the IAT of every descriptor before the terminator ends in
   * a zero slot.
   */
  ghost predicate WellFormed(imports: Option<seq<Descriptor>>, s: seq<Word>) {
    imports.Some? ==>
      HasTerminator(imports.value, 0) &&
      forall i :: 0 <= i < DescriptorEnd(imports.value, 0) ==> HasSentinel(s, imports.value[i].firstThunk)
  }

  /** The live IAT slots patchimport and restoreimport search for `name`; empty when there is none. */
  ghost function LiveSlots(imports: Option<seq<Descriptor>>, s: seq<Word>, name: string): seq<Word>
    requires WellFormed(imports, s)
  {
    match FindImport(imports, name)
    case None => []
    case Some(d) => Live(s, imports.value[d].firstThunk)
  }

  /** Overwriting a non-zero slot keeps the image well formed. */
  lemma WriteKeepsWellFormed(imports: Option<seq<Descriptor>>, s: seq<Word>, j: nat, value: Word)
    requires WellFormed(imports, s) && j < |s| && s[j] != 0
    ensures WellFormed(imports, s[j := value])
  {
    if imports.Some? {
      var ds := imports.value;
      forall i | 0 <= i < DescriptorEnd(ds, 0)
        ensures HasSentinel(s[j := value], ds[i].firstThunk)
      {
        WriteKeepsSentinel(s, ds[i].firstThunk, j, value);
      }
    }
  }

  /** A rewrite of one IAT keeps the image well formed. */
  lemma RewriteKeepsWellFormed(imports: Option<seq<Descriptor>>, s: seq<Word>, from: nat, a: Word, b: Word)
    requires WellFormed(imports, s) && HasSentinel(s, from)
    ensures WellFormed(imports, Rewrite(s, from, a, b))
  {
    var r := FindSlot(s, from, a);
    if r.Some? {
      WriteKeepsWellFormed(imports, s, r.value, b);
    }
  }

  /** The IAT slots after patchimport(name, replacement) when `name`'s import resolves to `realAddr`. */
  function Patched(imports: Option<seq<Descriptor>>, s: seq<Word>, name: string, realAddr: Word, replacement: Word): (r: seq<Word>)
    requires WellFormed(imports, s)
    ensures |r| == |s| && WellFormed(imports, r)
  {
    match FindImport(imports, name)
    case None => s
    case Some(d) =>
      var from := imports.value[d].firstThunk;
      RewriteKeepsWellFormed(imports, s, from, realAddr, replacement);
      Rewrite(s, from, realAddr, replacement)
  }

  /** The IAT slots after restoreimport(name, replacement): the mirror image of Patched. */
  function Restored(imports: Option<seq<Descriptor>>, s: seq<Word>, name: string, realAddr: Word, replacement: Word): (r: seq<Word>)
    requires WellFormed(imports, s)
    ensures |r| == |s| && WellFormed(imports, r)
  {
    match FindImport(imports, name)
    case None => s
    case Some(d) =>
      var from := imports.value[d].firstThunk;
      RewriteKeepsWellFormed(imports, s, from, replacement, realAddr);
      Rewrite(s, from, replacement, realAddr)
  }

  /** `k` is the first live slot of `name`'s IAT that holds `target`. */
  ghost predicate FirstLiveMatch(imports: Option<seq<Descriptor>>, s: seq<Word>, name: string, target: Word, k: nat)
    requires WellFormed(imports, s)
  {
    match FindImport(imports, name)
    case None => false
    case Some(d) =>
      var from := imports.value[d].firstThunk;
      from <= k < TableEnd(s, from) && s[k] == target && forall j :: from <= j < k ==> s[j] != target
  }

  /** With no import directory, or no descriptor for `name` before the terminator, neither operation changes a slot. */
  lemma NothingToPatch(imports: Option<seq<Descriptor>>, s: seq<Word>, name: string, realAddr: Word, replacement: Word)
    requires WellFormed(imports, s)
    requires imports.None? ||
      forall i :: 0 <= i < DescriptorEnd(imports.value, 0) ==> !EqualsIgnoreCase(imports.value[i].name, name)
    ensures Patched(imports, s, name, realAddr, replacement) == s
    ensures Restored(imports, s, name, realAddr, replacement) == s
  {
  }

  /**
   * patchimport overwrites exactly the first live slot holding the real
   * address, with exactly `replacement`; if no live slot holds it, nothing changes.
   */
  lemma PatchFirstMatchOnly(imports: Option<seq<Descriptor>>, s: seq<Word>, name: string, realAddr: Word, replacement: Word)
    requires WellFormed(imports, s)
    ensures realAddr !in LiveSlots(imports, s, name) ==> Patched(imports, s, name, realAddr, replacement) == s
    ensures forall k: nat :: FirstLiveMatch(imports, s, name, realAddr, k) ==>
      Patched(imports, s, name, realAddr, replacement) == s[k := replacement]
  {
    if FindImport(imports, name).Some? {
      var from := imports.value[FindImport(imports, name).value].firstThunk;
      RewriteFirstMatchOnly(s, from, realAddr, replacement);
      forall k: nat | FirstLiveMatch(imports, s, name, realAddr, k)
        ensures Patched(imports, s, name, realAddr, replacement) == s[k := replacement]
      {
        FindSlotIs(s, from, realAddr, k);
      }
    }
  }

  /**
   * restoreimport overwrites exactly the first live slot holding `replacement`,
   * with exactly the real address; if no live slot holds it, nothing changes.
   */
  lemma RestoreFirstMatchOnly(imports: Option<seq<Descriptor>>, s: seq<Word>, name: string, realAddr: Word, replacement: Word)
    requires WellFormed(imports, s)
    ensures replacement !in LiveSlots(imports, s, name) ==> Restored(imports, s, name, realAddr, replacement) == s
    ensures forall k: nat :: FirstLiveMatch(imports, s, name, replacement, k) ==>
      Restored(imports, s, name, realAddr, replacement) == s[k := realAddr]
  {
    if FindImport(imports, name).Some? {
      var from := imports.value[FindImport(imports, name).value].firstThunk;
      RewriteFirstMatchOnly(s, from, replacement, realAddr);
      forall k: nat | FirstLiveMatch(imports, s, name, replacement, k)
        ensures Restored(imports, s, name, realAddr, replacement) == s[k := realAddr]
      {
        FindSlotIs(s, from, replacement, k);
      }
    }
  }

  /**
   * Patch then restore with the same arguments gives back every slot, provided
   * the replacement is not NULL and is not already in the IAT being searched.
   */
  lemma PatchRestoreRoundTrip(imports: Option<seq<Descriptor>>, s: seq<Word>, name: string, realAddr: Word, replacement: Word)
    requires WellFormed(imports, s)
    requires replacement != 0 && replacement !in LiveSlots(imports, s, name)
    ensures Restored(imports, Patched(imports, s, name, realAddr, replacement), name, realAddr, replacement) == s
  {
    if FindImport(imports, name).Some? {
      var from := imports.value[FindImport(imports, name).value].firstThunk;
      RewriteUndone(s, from, realAddr, replacement);
    }
  }

  /** Restore then patch gives back every slot, provided the real address is not NULL and not already in the IAT. */
  lemma RestorePatchRoundTrip(imports: Option<seq<Descriptor>>, s: seq<Word>, name: string, realAddr: Word, replacement: Word)
    requires WellFormed(imports, s)
    requires realAddr != 0 && realAddr !in LiveSlots(imports, s, name)
    ensures Patched(imports, Restored(imports, s, name, realAddr, replacement), name, realAddr, replacement) == s
  {
    if FindImport(imports, name).Some? {
      var from := imports.value[FindImport(imports, name).value].firstThunk;
      RewriteUndone(s, from, replacement, realAddr);
    }
  }

  /** A second patchimport changes nothing when the real address was live at most once. */
  lemma PatchIdempotent(imports: Option<seq<Descriptor>>, s: seq<Word>, name: string, realAddr: Word, replacement: Word)
    requires WellFormed(imports, s)
    requires AtMostOnce(LiveSlots(imports, s, name), realAddr)
    ensures var once := Patched(imports, s, name, realAddr, replacement);
      Patched(imports, once, name, realAddr, replacement) == once
  {
    if FindImport(imports, name).Some? {
      var from := imports.value[FindImport(imports, name).value].firstThunk;
      RewriteIdempotent(s, from, realAddr, replacement);
    }
  }

  /** A second restoreimport changes nothing when the replacement was live at most once. */
  lemma RestoreIdempotent(imports: Option<seq<Descriptor>>, s: seq<Word>, name: string, realAddr: Word, replacement: Word)
    requires WellFormed(imports, s)
    requires AtMostOnce(LiveSlots(imports, s, name), replacement)
    ensures var once := Restored(imports, s, name, realAddr, replacement);
      Restored(imports, once, name, realAddr, replacement) == once
  {
    if FindImport(imports, name).Some? {
      var from := imports.value[FindImport(imports, name).value].firstThunk;
      RewriteIdempotent(s, from, replacement, realAddr);
    }
  }

  // ---------------------------------------------------------------------------
  // The image and the two operations

  /** A loaded image as patchimport and restoreimport see it. */
  class Image {
    /** The import directory, or None when the image imports nothing. */
    const imports: Option<seq<Descriptor>>
    /** The IAT slots of all descriptors, in one word array. */
    const thunks: array<Word>
    /** The protection of each page the slots lie in. */
    var protection: seq<Dword>

    ghost predicate Valid()
      reads this, thunks
    {
      WellFormed(imports, thunks[..]) &&
      forall i :: 0 <= i < thunks.Length ==> PageOf(i) < |protection|
    }

    constructor (imports: Option<seq<Descriptor>>, slots: seq<Word>, protection: seq<Dword>)
      requires WellFormed(imports, slots)
      requires forall i :: 0 <= i < |slots| ==> PageOf(i) < |protection|
      ensures Valid() && fresh(thunks)
      ensures this.imports == imports && thunks[..] == slots && this.protection == protection
    {
      this.imports := imports;
      thunks := new Word[|slots|](i requires 0 <= i < |slots| => slots[i]);
      this.protection := protection;
      new;
      assert thunks[..] == slots;
    }

    /**
     * The descriptor loop: walk the import directory up to the entry whose
     * OriginalFirstThunk is zero, stopping at the first name that matches.
     */
    method LocateDescriptor(name: string) returns (d: Option<nat>)
      requires Valid()
      ensures d == FindImport(imports, name)
    {
      if imports.None? {
        return None;
      }
      var ds := imports.value;
      var i := 0;
      while ds[i].originalFirstThunk != 0
        invariant i <= DescriptorEnd(ds, 0)
        invariant HasTerminator(ds, i) && LocateFrom(ds, name, i) == LocateFrom(ds, name, 0)
        decreases DescriptorEnd(ds, 0) - i
      {
        if EqualsIgnoreCase(ds[i].name, name) {
          break;
        }
        i := i + 1;
      }
      if ds[i].originalFirstThunk == 0 {
        return None;
      }
      return Some(i);
    }

    /** The IAT loop: walk the slots from `from` up to the zero slot, stopping at the first that holds `target`. */
    method ScanSlots(from: nat, target: Word) returns (slot: Option<nat>)
      requires HasSentinel(thunks[..], from)
      ensures slot == FindSlot(thunks[..], from, target)
    {
      var k := from;
      while thunks[k] != 0
        invariant from <= k <= TableEnd(thunks[..], from)
        invariant HasSentinel(thunks[..], k) && FindSlot(thunks[..], k, target) == FindSlot(thunks[..], from, target)
        decreases TableEnd(thunks[..], from) - k
      {
        if thunks[k] == target {
          return Some(k);
        }
        k := k + 1;
      }
      return None;
    }

    /** VirtualProtect on the page holding `slot`: set its protection, return the previous one. */
    method VirtualProtect(slot: nat, newProtect: Dword) returns (oldProtect: Dword)
      requires PageOf(slot) < |protection|
      modifies this`protection
      ensures oldProtect == old(protection)[PageOf(slot)]
      ensures protection == old(protection)[PageOf(slot) := newProtect]
    {
      oldProtect := protection[PageOf(slot)];
      protection := protection[PageOf(slot) := newProtect];
    }

    /** The pointer-sized store into a slot, allowed only while its page is writable. */
    method Store(slot: nat, value: Word)
      requires slot < thunks.Length && PageOf(slot) < |protection| && Writable(protection[PageOf(slot)])
      modifies thunks
      ensures thunks[..] == old(thunks[..])[slot := value]
    {
      thunks[slot] := value;
    }

    /** Make the slot's page writable, store `value`, and give the page its previous protection back. */
    method OverwriteSlot(slot: nat, value: Word)
      requires Valid() && slot < thunks.Length && thunks[slot] != 0
      modifies thunks, this`protection
      ensures Valid()
      ensures thunks[..] == old(thunks[..])[slot := value]
      ensures protection == old(protection)
    {
      var protect := VirtualProtect(slot, PageReadWrite);
      Store(slot, value);
      protect := VirtualProtect(slot, protect);
      WriteKeepsWellFormed(imports, old(thunks[..]), slot, value);
    }

    /**
     * patchimport: in the IAT for `exportModuleName`, point the first slot
     * holding the import's real address `realAddr` at `replacement`.
     * `realAddr` stands for GetProcAddress(GetModuleHandleA(exportModuleName),
     * importname), which the source asserts to be non-NULL once a descriptor
     * has been found.
     */
    method PatchImport(exportModuleName: string, realAddr: Word, replacement: Word)
      requires Valid()
      requires FindImport(imports, exportModuleName).Some? ==> realAddr != 0
      modifies thunks, this`protection
      ensures Valid()
      ensures thunks[..] == Patched(imports, old(thunks[..]), exportModuleName, realAddr, replacement)
      ensures protection == old(protection)
    {
      var d := LocateDescriptor(exportModuleName);
      if d.None? {
        return;
      }
      assert realAddr != 0;
      var slot := ScanSlots(imports.value[d.value].firstThunk, realAddr);
      if slot.None? {
        return;
      }
      OverwriteSlot(slot.value, replacement);
    }

    /**
     * restoreimport: in the IAT for `exportModuleName`, point the first slot
     * holding `replacement` back at the import's real address `realAddr`.
     */
    method RestoreImport(exportModuleName: string, realAddr: Word, replacement: Word)
      requires Valid()
      requires FindImport(imports, exportModuleName).Some? ==> realAddr != 0
      modifies thunks, this`protection
      ensures Valid()
      ensures thunks[..] == Restored(imports, old(thunks[..]), exportModuleName, realAddr, replacement)
      ensures protection == old(protection)
    {
      var d := LocateDescriptor(exportModuleName);
      if d.None? {
        return;
      }
      assert realAddr != 0;
      var slot := ScanSlots(imports.value[d.value].firstThunk, replacement);
      if slot.None? {
        return;
      }
      OverwriteSlot(slot.value, realAddr);
    }
  }
}
