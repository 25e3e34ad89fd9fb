/**
 * VT-d interrupt remapping (xen/drivers/passthrough/vtd/intremap.c): the
 * interrupt remapping table of one IOMMU, its allocator, the IO-APIC
 * pin-to-index map, and the rewriting of IO-APIC redirection entries into
 * the remappable format of section 5.1.2.2 of the Intel VT-d specification,
 * whose handle points at an entry of the table (section 9.10).
 */
module IntRemap {
  import opened Opt
  import Errno

  /**
   * 1 << (IREMAP_PAGE_ORDER + IREMAP_ENTRY_ORDER): 256 pages of 256
   * sixteen-byte entries, so that every index fits the 16-bit handle.
   * vtd/iommu.h is not part of this model.
   */
  const IREMAP_ENTRY_NR: nat := 0x1_0000
  const TWO_32: nat := 0x1_0000_0000

  /** Source validation type (SVT) and source-id qualifier (SQ) of an IRTE. */
  const SVT_NO_VERIFY: nat := 0
  const SVT_VERIFY_SID_SQ: nat := 1
  const SVT_VERIFY_BUS: nat := 2
  const SQ_ALL_16: nat := 0
  const SQ_13_IGNORE_1: nat := 1
  const SQ_13_IGNORE_2: nat := 2
  const SQ_13_IGNORE_3: nat := 3

  /** The lowest-priority delivery mode (dest_LowestPrio of asm/apicdef.h). */
  const DEST_LOWEST_PRIO: nat := 1

  /**
   * One 128-bit IRTE. The remapped and the posted format share the present
   * bit, the vector and the source-id fields; `im` selects the posted
   * format, whose descriptor address is split into pdaL and pdaH.
   */
  datatype Irte = Irte(
    p: bool, dm: nat, rh: bool, tm: nat, dlm: nat, vector: nat, dst: nat,
    im: bool, pdaL: nat, pdaH: nat, svt: nat, sq: nat, sid: nat)

  /** The all-zero entry: `val == 0`, a free slot. */
  const FREE_IRTE: Irte := Irte(false, 0, false, 0, 0, 0, 0, false, 0, 0, 0, 0, 0)

  predicate IsFree(e: Irte)
  {
    e == FREE_IRTE
  }

  // ---------------------------------------------------------------------
  // The allocator.

  /** Entries first .. first+len-1 exist and are all free. */
  predicate FreeRun(t: seq<Irte>, first: nat, len: nat)
  {
    first + len <= |t| && forall k | first <= k < first + len :: IsFree(t[k])
  }

  /** A run of nr >= 1 free entries ends at index j. */
  predicate RunEndsAt(t: seq<Irte>, j: nat, nr: nat)
  {
    1 <= nr <= j + 1 && j < |t| && FreeRun(t, j + 1 - nr, nr)
  }

  /** The length of the run of free entries that ends just before index i. */
  function RunLen(t: seq<Irte>, i: nat): (n: nat)
    requires i <= |t|
    ensures n <= i
  {
    if i == 0 || !IsFree(t[i - 1]) then 0 else RunLen(t, i - 1) + 1
  }

  /** The free run ending before i is at least n long exactly when the n entries before i are free. */
  lemma {:induction false} RunLenFreeRun(t: seq<Irte>, i: nat, n: nat)
    requires n <= i <= |t|
    ensures RunLen(t, i) >= n <==> FreeRun(t, i - n, n)
  {
    if n > 0 {
      if IsFree(t[i - 1]) {
        RunLenFreeRun(t, i - 1, n - 1);
        if FreeRun(t, i - n, n - 1) {
          assert FreeRun(t, i - n, n);
        }
      } else {
        assert !FreeRun(t, i - n, n) by {
          assert i - n <= i - 1 < i;
        }
      }
    }
  }

  /**
   * The search loop of alloc_remap_entry from index i, with `found` free
   * entries already counted: it stops at the entry that makes the count
   * reach nr, or at the end of the table.
   */
  function Scan(t: seq<Irte>, nr: nat, i: nat, found: nat): (r: nat)
    requires i <= |t|
    ensures i <= r <= |t|
    decreases |t| - i
  {
    if i == |t| then |t|
    else if !IsFree(t[i]) then Scan(t, nr, i + 1, 0)
    else if found + 1 == nr then i
    else Scan(t, nr, i + 1, found + 1)
  }

  /** What alloc_remap_entry returns on table t: the LAST index of the first free run of nr entries. */
  function AllocEnd(t: seq<Irte>, nr: nat): nat
  {
    Scan(t, nr, 0, 0)
  }

  lemma {:induction false} ScanSpec(t: seq<Irte>, nr: nat, i: nat, found: nat)
    requires i <= |t| && found == RunLen(t, i) && (nr == 0 || found < nr)
    ensures forall j | i <= j < Scan(t, nr, i, found) :: !RunEndsAt(t, j, nr)
    ensures Scan(t, nr, i, found) < |t| ==> RunEndsAt(t, Scan(t, nr, i, found), nr)
    decreases |t| - i
  {
    if i < |t| {
      if !IsFree(t[i]) {
        assert RunLen(t, i + 1) == 0;
        ScanSpec(t, nr, i + 1, 0);
        if nr >= 1 && nr <= i + 1 {
          assert !FreeRun(t, i + 1 - nr, nr) by {
            assert i + 1 - nr <= i < i + 1;
          }
        }
      } else if found + 1 == nr {
        RunLenFreeRun(t, i + 1, nr);
      } else {
        assert RunLen(t, i + 1) == found + 1;
        ScanSpec(t, nr, i + 1, found + 1);
        if nr >= 1 && nr <= i + 1 {
          RunLenFreeRun(t, i + 1, nr);
        }
      }
    }
  }

  /**
   * alloc_remap_entry is a first fit: below what it returns no run of nr
   * free entries ends, and if it returns an index inside the table a run of
   * nr free entries ends there. A table without such a run gives
   * IREMAP_ENTRY_NR (the length of the table).
   */
  lemma AllocEndSpec(t: seq<Irte>, nr: nat)
    ensures AllocEnd(t, nr) <= |t|
    ensures forall j | 0 <= j < AllocEnd(t, nr) :: !RunEndsAt(t, j, nr)
    ensures AllocEnd(t, nr) < |t| ==> RunEndsAt(t, AllocEnd(t, nr), nr)
  {
    ScanSpec(t, nr, 0, 0);
  }

  /** The first index of the run alloc_remap_entry found, or |t| if none: what its callers need. */
  function AllocStart(t: seq<Irte>, nr: nat): nat
  {
    var e := AllocEnd(t, nr);
    if e < |t| && nr <= e + 1 then e + 1 - nr else |t|
  }

  /** The run that starts at AllocStart is free and is the first free run of nr entries. */
  lemma AllocStartSpec(t: seq<Irte>, nr: nat)
    ensures AllocStart(t, nr) <= |t|
    ensures AllocStart(t, nr) < |t| ==> nr >= 1 && FreeRun(t, AllocStart(t, nr), nr)
    ensures forall j | 0 <= j < AllocStart(t, nr) :: !(nr >= 1 && FreeRun(t, j, nr))
  {
    AllocEndSpec(t, nr);
    var s := AllocStart(t, nr);
    forall j | 0 <= j < s
      ensures !(nr >= 1 && FreeRun(t, j, nr))
    {
      if nr >= 1 && j + nr <= |t| {
        assert j + nr - 1 < AllocEnd(t, nr);
        assert !RunEndsAt(t, j + nr - 1, nr);
      }
    }
  }

  /** For a single entry the first and the last index of the run coincide. */
  lemma AllocOneStartIsEnd(t: seq<Irte>)
    ensures AllocStart(t, 1) == AllocEnd(t, 1)
  {
    AllocEndSpec(t, 1);
  }

  /** A freed slot is found again by a single-entry allocation, or an earlier free slot is. */
  lemma FreedSlotIsFound(t: seq<Irte>, num: nat, index: nat)
    requires index < |t| && index < IREMAP_ENTRY_NR
    ensures AllocEnd(FreeOne(t, num, index).0, 1) <= index
  {
    var t' := FreeOne(t, num, index).0;
    AllocEndSpec(t', 1);
    assert RunEndsAt(t', index, 1);
  }

  /** The table of the counterexample: entry 2 is in use, every other entry is free. */
  function EntryTwoInUse(): (t: seq<Irte>)
    ensures |t| == IREMAP_ENTRY_NR
  {
    seq(IREMAP_ENTRY_NR, k => if k == 2 then FREE_IRTE.(p := true) else FREE_IRTE)
  }

  /**
   * alloc_remap_entry as written returns the last index of the run it
   * found, while msi_msg_to_remap_entry gives the nr vectors the entries
   * index .. index+nr-1. Asked for two entries with entry 2 in use, it
   * returns 1, and entry 2 belongs to someone else.
   */
  lemma AllocEndNotRunStart()
    ensures AllocEnd(EntryTwoInUse(), 2) == 1
    ensures !FreeRun(EntryTwoInUse(), AllocEnd(EntryTwoInUse(), 2), 2)
    ensures AllocStart(EntryTwoInUse(), 2) == 0 && FreeRun(EntryTwoInUse(), 0, 2)
  {
    var t := EntryTwoInUse();
    assert IsFree(t[0]) && IsFree(t[1]) && !IsFree(t[2]);
    assert Scan(t, 2, 1, 1) == 1;
    assert Scan(t, 2, 0, 0) == 1;
  }

  /** The search loop of alloc_remap_entry over the table's pages, which it reads but does not change. */
  method ScanTable(a: array<Irte>, nr: nat) returns (i: nat)
    ensures i == AllocEnd(a[..], nr)
  {
    i := 0;
    var found: nat := 0;
    while i < a.Length
      invariant i <= a.Length
      invariant Scan(a[..], nr, i, found) == AllocEnd(a[..], nr)
      decreases a.Length - i
    {
      if !IsFree(a[i]) {
        found := 0;
      } else {
        found := found + 1;
        if found == nr {
          return;
        }
      }
      i := i + 1;
    }
  }

  /** free_remap_entry on the table and the `num` counter: an in-range entry is zeroed and num drops, as unsigned. */
  function FreeOne(t: seq<Irte>, num: nat, index: int): (seq<Irte>, nat)
  {
    if index < 0 || index > IREMAP_ENTRY_NR - 1 || index >= |t| then (t, num)
    else (t[index := FREE_IRTE], (num + TWO_32 - 1) % TWO_32)
  }

  /** free_remap_entry for first, first+1, .., first+n-1, in that order. */
  function FreeMany(t: seq<Irte>, num: nat, first: int, n: nat): (seq<Irte>, nat)
  {
    if n == 0 then (t, num)
    else
      var r := FreeMany(t, num, first, n - 1);
      FreeOne(r.0, r.1, first + n - 1)
  }

  /**
   * Freeing n entries from `first` leaves each of them that lies in the
   * table free and every other entry as it was.
   */
  lemma {:induction false} FreeManyFrees(t: seq<Irte>, num: nat, first: int, n: nat)
    ensures |FreeMany(t, num, first, n).0| == |t|
    ensures forall k | 0 <= k < |t| && first <= k < first + n && k < IREMAP_ENTRY_NR :: IsFree(FreeMany(t, num, first, n).0[k])
    ensures forall k | 0 <= k < |t| && !(first <= k < first + n) :: FreeMany(t, num, first, n).0[k] == t[k]
  {
    if n > 0 {
      FreeManyFrees(t, num, first, n - 1);
    }
  }

  /** The interrupt remapping state of one IOMMU: its table and the count of entries handed out. */
  class IommuIntRemap {
    var entries: array<Irte>
    var num: nat

    ghost predicate Valid()
      reads this
    {
      entries.Length == IREMAP_ENTRY_NR && num < TWO_32
    }

    constructor ()
      ensures Valid() && fresh(entries) && num == 0
      ensures forall k | 0 <= k < entries.Length :: IsFree(entries[k])
    {
      entries := new Irte[IREMAP_ENTRY_NR](_ => FREE_IRTE);
      num := 0;
    }

    /**
     * alloc_remap_entry as written: the last index of the first run of nr
     * free entries, or IREMAP_ENTRY_NR; num grows by nr (as unsigned) only
     * when a run was found. The entries themselves are written later.
     */
    method AllocRemapEntry(nr: nat) returns (i: nat)
      requires Valid()
      modifies this
      ensures Valid() && entries == old(entries)
      ensures i == AllocEnd(entries[..], nr) && i <= IREMAP_ENTRY_NR
      ensures num == if i < IREMAP_ENTRY_NR then (old(num) + nr) % TWO_32 else old(num)
    {
      i := ScanTable(entries, nr);
      AllocEndSpec(entries[..], nr);
      if i < IREMAP_ENTRY_NR {
        num := (num + nr) % TWO_32;
      }
    }

    /**
     * The allocation the multi-vector MSI path needs: the FIRST index of
     * the first free run of nr entries, so that index .. index+nr-1 are
     * all free, or IREMAP_ENTRY_NR when there is no such run.
     */
    method AllocRemapRun(nr: nat) returns (first: nat)
      requires Valid()
      modifies this
      ensures Valid() && entries == old(entries)
      ensures first == AllocStart(entries[..], nr) && first <= IREMAP_ENTRY_NR
      ensures first < IREMAP_ENTRY_NR ==> nr >= 1 && FreeRun(entries[..], first, nr)
      ensures forall j | 0 <= j < first :: !(nr >= 1 && FreeRun(entries[..], j, nr))
      ensures num == if first < IREMAP_ENTRY_NR then (old(num) + nr) % TWO_32 else old(num)
    {
      var last := AllocRemapEntry(nr);
      AllocEndSpec(entries[..], nr);
      AllocStartSpec(entries[..], nr);
      if last < IREMAP_ENTRY_NR {
        first := last + 1 - nr;
      } else {
        first := IREMAP_ENTRY_NR;
      }
    }

    /** free_remap_entry: an index outside the table is ignored. */
    method FreeRemapEntry(index: int)
      requires Valid()
      modifies this, entries
      ensures Valid() && entries == old(entries)
      ensures (entries[..], num) == FreeOne(old(entries[..]), old(num), index)
      ensures index < 0 || index > IREMAP_ENTRY_NR - 1 ==> entries[..] == old(entries[..]) && num == old(num)
      ensures 0 <= index < IREMAP_ENTRY_NR ==> IsFree(entries[index])
    {
      if index < 0 || index > IREMAP_ENTRY_NR - 1 {
        return;
      }
      entries[index] := FREE_IRTE;
      num := (num + TWO_32 - 1) % TWO_32;
    }

    /**
     * remap_entry_to_ioapic_rte: an index outside the table, or one whose
     * entry is empty, gives -EFAULT and leaves the entry being read as it
     * was; otherwise the remapped fields are copied back into it.
     */
    method RemapEntryToIoapicRte(index: int, oldRte: Rte, x2apic: bool) returns (rc: int, rte: Rte)
      requires Valid()
      ensures index < 0 || index > IREMAP_ENTRY_NR - 1 ==> rc == -Errno.EFAULT && rte == oldRte
      ensures 0 <= index < IREMAP_ENTRY_NR && IsFree(entries[index]) ==> rc == -Errno.EFAULT && rte == oldRte
      ensures 0 <= index < IREMAP_ENTRY_NR && !IsFree(entries[index]) ==>
        && rc == 0
        && rte == RteFromIrte(entries[index], oldRte, x2apic)
    {
      if index < 0 || index > IREMAP_ENTRY_NR - 1 {
        return -Errno.EFAULT, oldRte;
      }
      if IsFree(entries[index]) {
        return -Errno.EFAULT, oldRte;
      }
      return 0, RteFromIrte(entries[index], oldRte, x2apic);
    }

    /**
     * ioapic_rte_to_remap_entry: a pin without an index is given one by
     * alloc_remap_entry (recorded only when the allocation succeeded); an
     * index beyond the table gives -EFAULT; otherwise the pin's entry is
     * rewritten from the new RTE, with the IO-APIC's source id `sid`, and
     * the RTE handed back is the remappable one that points at it.
     */
    method IoapicRteToRemapEntry(pm: PinMap, apic: nat, pin: nat, newRte: Rte, x2apic: bool, sid: nat)
      returns (rc: int, remapRte: Option<RemapRte>)
      requires Valid() && pm.Valid() && pm.flat != null && apic < |pm.pins| && pin < pm.pins[apic]
      modifies this, entries, pm.flat
      ensures Valid() && entries == old(entries)
      ensures
        var slot := pm.PinSlot(apic, pin);
        var cur := old(pm.flat[slot]);
        var index: int := if cur < 0 then AllocEnd(old(entries[..]), 1) else cur;
        && (cur < 0 && index < IREMAP_ENTRY_NR ==>
              && pm.flat[..] == old(pm.flat[..])[slot := index]
              && num == (old(num) + 1) % TWO_32)
        && (!(cur < 0 && index < IREMAP_ENTRY_NR) ==>
              && pm.flat[..] == old(pm.flat[..])
              && num == old(num))
        && (index > IREMAP_ENTRY_NR - 1 ==>
              && rc == -Errno.EFAULT
              && remapRte == None
              && entries[..] == old(entries[..]))
        && (index <= IREMAP_ENTRY_NR - 1 ==>
              && rc == 0
              && remapRte == Some(RemapRteFor(index, newRte))
              && entries[..] == old(entries[..])[index := IrteFromRte(old(entries[index]), newRte, x2apic, sid)])
    {
      var slot := pm.base[apic] + pin;
      var index: int := pm.flat[slot];
      if index < 0 {
        var a := AllocRemapEntry(1);
        index := a;
        if a < IREMAP_ENTRY_NR {
          pm.flat[slot] := a;
        }
      }
      if index > IREMAP_ENTRY_NR - 1 {
        return -Errno.EFAULT, None;
      }
      entries[index] := IrteFromRte(entries[index], newRte, x2apic, sid);
      return 0, Some(RemapRteFor(index, newRte));
    }
  }

  // ---------------------------------------------------------------------
  // The IO-APIC pin map.

  /** The total of a list of pin counts. */
  function SumPins(s: seq<nat>): nat
  {
    if s == [] then 0 else SumPins(s[..|s| - 1]) + s[|s| - 1]
  }

  /** A prefix's pins and the next IO-APIC's pins fit in the whole. */
  lemma {:induction false} SumPinsPrefix(s: seq<nat>, j: nat)
    requires j < |s|
    ensures SumPins(s[..j]) + s[j] == SumPins(s[..j + 1])
    ensures SumPins(s[..j + 1]) <= SumPins(s)
    decreases |s| - j
  {
    assert s[..j + 1][..j] == s[..j];
    if j + 1 < |s| {
      SumPinsPrefix(s, j + 1);
    } else {
      assert s[..j + 1] == s;
    }
  }

  /** The first loop of init_apic_pin_2_ir_idx: the number of pins of all IO-APICs. */
  method SumPinCounts(nrEntries: seq<nat>) returns (nrPins: nat)
    ensures nrPins == SumPins(nrEntries)
  {
    nrPins := 0;
    for i := 0 to |nrEntries|
      invariant nrPins == SumPins(nrEntries[..i])
    {
      SumPinsPrefix(nrEntries, i);
      nrPins := nrPins + nrEntries[i];
    }
    assert nrEntries[..|nrEntries|] == nrEntries;
  }

  /** The second loop: a new index array with every slot -1. */
  method NewUnassigned(n: nat) returns (a: array<int>)
    ensures fresh(a) && a.Length == n
    ensures forall k | 0 <= k < n :: a[k] == -1
  {
    a := new int[n];
    for i := 0 to n
      invariant forall k | 0 <= k < i :: a[k] == -1
    {
      a[i] := -1;
    }
  }

  /** The third loop: each IO-APIC's slice starts after the pins of those before it. */
  method SliceOffsets(nrEntries: seq<nat>) returns (b: seq<nat>)
    ensures |b| == |nrEntries|
    ensures forall j | 0 <= j < |b| :: b[j] == SumPins(nrEntries[..j]) && b[j] + nrEntries[j] <= SumPins(nrEntries)
  {
    b := [];
    var offset: nat := 0;
    for i := 0 to |nrEntries|
      invariant |b| == i && offset == SumPins(nrEntries[..i])
      invariant forall j | 0 <= j < i :: b[j] == SumPins(nrEntries[..j]) && b[j] + nrEntries[j] <= SumPins(nrEntries)
    {
      SumPinsPrefix(nrEntries, i);
      b := b + [offset];
      offset := offset + nrEntries[i];
    }
  }

  /**
   * apic_pin_2_ir_idx: one flat array of indices with, for each IO-APIC,
   * the offset of its slice (`base`) and its number of pins (`pins`,
   * nr_ioapic_entries as it was when the map was built). `dangling` is the
   * state init_apic_pin_2_ir_idx leaves behind when it frees the pointer
   * array without resetting the global: apic_pin_2_ir_idx is non-NULL, but
   * no map is behind it.
   */
  class PinMap {
    var flat: array?<int>
    var base: seq<nat>
    var pins: seq<nat>
    var dangling: bool

    /** Every IO-APIC's slice starts where the previous one's ends, and all fit in the array. */
    ghost predicate Valid()
      reads this
    {
      && (dangling ==> flat == null)
      && (flat != null ==>
            && |base| == |pins|
            && flat.Length == SumPins(pins)
            && forall a | 0 <= a < |pins| :: base[a] == SumPins(pins[..a]) && base[a] + pins[a] <= flat.Length)
    }

    /** The source's test `apic_pin_2_ir_idx != NULL`. */
    predicate Present()
      reads this
    {
      flat != null || dangling
    }

    constructor ()
      ensures Valid() && flat == null && !Present()
    {
      flat := null;
      base := [];
      pins := [];
      dangling := false;
    }

    /** Where apic_pin_2_ir_idx[apic][pin] lives in the flat array. */
    function PinSlot(apic: nat, pin: nat): (slot: nat)
      reads this
      requires Valid() && flat != null && apic < |pins| && pin < pins[apic]
      ensures slot < flat.Length
    {
      base[apic] + pin
    }

    /** Both allocations succeeded: every pin gets the index -1, "none yet", in its own slice. */
    method Build(nrEntries: seq<nat>)
      requires Valid() && !Present()
      modifies this
      ensures Valid() && !dangling
      ensures flat != null && fresh(flat) && pins == nrEntries
      ensures forall k | 0 <= k < flat.Length :: flat[k] == -1
    {
      var nrPins := SumPinCounts(nrEntries);
      var a := NewUnassigned(nrPins);
      var b := SliceOffsets(nrEntries);
      flat, base, pins := a, b, nrEntries;
    }

    /**
     * init_apic_pin_2_ir_idx as written. `intOk` and `ptrOk` are the
     * outcomes of the two allocations (the int array and the pointer
     * array). A present map is kept (the resume path). When either
     * allocation fails both are freed and -ENOMEM returned, but the global
     * keeps the freed pointer array whenever that one was allocated, so
     * the map counts as present afterwards.
     */
    method InitApicPin2IrIdxAsWritten(nrEntries: seq<nat>, intOk: bool, ptrOk: bool) returns (rc: int)
      requires Valid()
      modifies this
      ensures Valid()
      ensures old(Present()) ==>
        rc == 0 && flat == old(flat) && base == old(base) && pins == old(pins) && dangling == old(dangling)
      ensures !old(Present()) && !(intOk && ptrOk) ==> rc == -Errno.ENOMEM && flat == null && dangling == ptrOk
      ensures !old(Present()) && intOk && ptrOk ==>
        && rc == 0
        && flat != null && fresh(flat) && !dangling
        && pins == nrEntries
        && forall k | 0 <= k < flat.Length :: flat[k] == -1
    {
      if Present() {
        return 0;
      }
      if !intOk || !ptrOk {
        // xfree() of apic_pin_2_ir_idx does not reset the global.
        dangling := ptrOk;
        return -Errno.ENOMEM;
      }
      Build(nrEntries);
      return 0;
    }

    /**
     * init_apic_pin_2_ir_idx with the global reset to NULL on the failure
     * path, so that a failed call leaves no map present and a later call
     * allocates again.
     */
    method InitApicPin2IrIdx(nrEntries: seq<nat>, intOk: bool, ptrOk: bool) returns (rc: int)
      requires Valid()
      modifies this
      ensures Valid()
      ensures old(Present()) ==>
        rc == 0 && flat == old(flat) && base == old(base) && pins == old(pins) && dangling == old(dangling)
      ensures !old(Present()) && !(intOk && ptrOk) ==> rc == -Errno.ENOMEM && !Present()
      ensures !old(Present()) && intOk && ptrOk ==>
        && rc == 0
        && flat != null && fresh(flat) && !dangling
        && pins == nrEntries
        && forall k | 0 <= k < flat.Length :: flat[k] == -1
    {
      if Present() {
        return 0;
      }
      if !intOk || !ptrOk {
        return -Errno.ENOMEM;
      }
      Build(nrEntries);
      return 0;
    }
  }

  /**
   * As written, an int-array allocation failure with the pointer array
   * allocated leaves apic_pin_2_ir_idx non-NULL: the next call, with both
   * allocations succeeding, returns 0 and builds no map.
   */
  method StaleMapAfterFailedInit() returns (rc1: int, rc2: int, built: bool)
    ensures rc1 == -Errno.ENOMEM && rc2 == 0 && !built
  {
    var pm := new PinMap();
    rc1 := pm.InitApicPin2IrIdxAsWritten([4], false, true);
    rc2 := pm.InitApicPin2IrIdxAsWritten([4], true, true);
    built := pm.flat != null;
  }

  /** With the corrected failure path the same two calls build the map on the second one. */
  method RetryAfterFailedInit() returns (rc1: int, rc2: int, built: bool)
    ensures rc1 == -Errno.ENOMEM && rc2 == 0 && built
  {
    var pm := new PinMap();
    rc1 := pm.InitApicPin2IrIdx([4], false, true);
    rc2 := pm.InitApicPin2IrIdx([4], true, true);
    built := pm.flat != null;
  }

  // ---------------------------------------------------------------------
  // IO-APIC redirection entries.

  /** An IO-APIC redirection entry in compatibility format (asm/io_apic.h is not part of this model). */
  datatype Rte = Rte(
    vector: nat, deliveryMode: nat, destMode: nat, deliveryStatus: nat,
    polarity: nat, irr: nat, trigger: nat, mask: nat, dest32: nat)

  /** The same 64 bits in remappable format: a 16-bit handle split into bit 15 and bits 0..14. */
  datatype RemapRte = RemapRte(
    vector: nat, deliveryMode: nat, index15: nat, index0to14: nat, deliveryStatus: nat,
    polarity: nat, irr: nat, trigger: nat, mask: nat, reserved: nat, format: nat)

  /** Every field of an RTE fits its bit-field. */
  predicate RteFieldsOk(r: Rte)
  {
    r.vector < 0x100 && r.deliveryMode < 8 && r.destMode < 2 && r.trigger < 2 && r.dest32 < TWO_32
  }

  /** The handle the hardware rebuilds from the two halves. */
  function RemapIndex(index15: nat, index0to14: nat): nat
  {
    index15 * 0x8000 + index0to14
  }

  /** GET_xAPIC_ID: an xAPIC destination is the top byte of the 32-bit destination. */
  function XApicId(dest32: nat): nat
  {
    (dest32 / 0x100_0000) % 0x100
  }

  /** The entry ioapic_rte_to_remap_entry writes for a new RTE over the entry `cur` already there. */
  function IrteFromRte(cur: Irte, r: Rte, x2apic: bool, sid: nat): (e: Irte)
    ensures e.p && !IsFree(e)
    ensures e.rh <==> r.deliveryMode == DEST_LOWEST_PRIO
    ensures e.svt == SVT_VERIFY_SID_SQ && e.sq == SQ_ALL_16 && e.sid == sid
  {
    cur.(dst := if x2apic then r.dest32 else XApicId(r.dest32) * 0x100,
         dm := r.destMode, tm := r.trigger, dlm := r.deliveryMode,
         rh := r.deliveryMode == DEST_LOWEST_PRIO, vector := r.vector,
         svt := SVT_VERIFY_SID_SQ, sq := SQ_ALL_16, sid := sid, p := true)
  }

  /** The remappable RTE ioapic_rte_to_remap_entry hands back for entry `index`. */
  function RemapRteFor(index: nat, r: Rte): (rr: RemapRte)
    ensures index < IREMAP_ENTRY_NR ==> RemapIndex(rr.index15, rr.index0to14) == index
    ensures rr.index15 < 2 && rr.index0to14 < 0x8000
    ensures rr.format == 1 && rr.deliveryMode == 0
    ensures rr.vector == r.vector && rr.trigger == r.trigger && rr.mask == r.mask
  {
    RemapRte(r.vector, 0, (index / 0x8000) % 2, index % 0x8000, r.deliveryStatus,
             r.polarity, r.irr, r.trigger, r.mask, 0, 1)
  }

  /** remap_entry_to_ioapic_rte's update of an RTE from a present entry. */
  function RteFromIrte(e: Irte, prev: Rte, x2apic: bool): Rte
  {
    prev.(vector := e.vector, deliveryMode := e.dlm, destMode := e.dm, trigger := e.tm,
         dest32 := if x2apic then e.dst else ((e.dst / 0x100) % 0x100) * 0x100_0000)
  }

  /**
   * Writing an RTE into an entry and reading it back gives the RTE's
   * vector, delivery mode, destination mode and trigger, and its
   * destination: all 32 bits with x2APIC, the APIC ID without.
   */
  lemma RteRoundTrip(cur: Irte, r: Rte, x2apic: bool, sid: nat, prev: Rte)
    requires RteFieldsOk(r)
    ensures var back := RteFromIrte(IrteFromRte(cur, r, x2apic, sid), prev, x2apic);
      && back.vector == r.vector && back.deliveryMode == r.deliveryMode
      && back.destMode == r.destMode && back.trigger == r.trigger
      && (x2apic ==> back.dest32 == r.dest32)
      && (!x2apic ==> XApicId(back.dest32) == XApicId(r.dest32))
      && back.mask == prev.mask && back.polarity == prev.polarity
  {
    if !x2apic {
      var id := XApicId(r.dest32);
      assert (id * 0x100 / 0x100) % 0x100 == id;
      assert XApicId(id * 0x100_0000) == id;
    }
  }
}
