/**
 * The vmap region allocator of xen/common/vmap.c: one bit per page of a
 * virtual region, set while the page belongs to an allocation.  The bitmap
 * lives in the first pages of the region itself, which stay allocated for
 * good; only its first vm_top bits are backed by memory, and more bitmap
 * pages are mapped as allocations need them, up to vm_end bits.  Every
 * allocation is a run of set bits with a clear guard bit in front of it and
 * a clear bit (or vm_top) after it, so that the run can be found again from
 * its first page alone.
 */
module Vmap {
  import opened Opt

  const PAGE_SIZE: nat := 4096
  /** The number of bits one page of bitmap holds. */
  const PAGE_BITS: nat := PAGE_SIZE * 8

  function PfnUp(x: nat): nat { (x + PAGE_SIZE - 1) / PAGE_SIZE }
  function PfnDown(x: nat): nat { x / PAGE_SIZE }

  // ---------------------------------------------------------------------
  // Bit searches and the shape of an allocation
  // ---------------------------------------------------------------------

  /** find_next_bit: the first set bit of b in [i, top), or top. */
  function NextSet(b: seq<bool>, top: nat, i: nat): (r: nat)
    requires i <= top <= |b|
    ensures i <= r <= top && (r < top ==> b[r])
    ensures forall j | i <= j < r :: !b[j]
    decreases top - i
  {
    if i == top then top else if b[i] then i else NextSet(b, top, i + 1)
  }

  /** find_next_zero_bit: the first clear bit of b in [i, top), or top. */
  function NextClear(b: seq<bool>, top: nat, i: nat): (r: nat)
    requires i <= top <= |b|
    ensures i <= r <= top && (r < top ==> !b[r])
    ensures forall j | i <= j < r :: b[j]
    decreases top - i
  {
    if i == top then top else if !b[i] then i else NextClear(b, top, i + 1)
  }

  /**
   * The alignment vm_alloc works with (vmap.c:65-68): 0 becomes 1, and a
   * value that is not a power of two becomes its lowest set bit.
   */
  function NormaliseAlign(a: bv32): (r: bv32)
    ensures r != 0 && r & (r - 1) == 0
    ensures a != 0 ==> a & r == r && a & (r - 1) == 0
  {
    if a == 0 then 1 else if a & (a - 1) != 0 then a & -a else a
  }

  /** A power of two keeps its value. */
  lemma NormalisePowerOfTwo(a: bv32)
    requires a != 0 && a & (a - 1) == 0
    ensures NormaliseAlign(a) == a
  {
  }

  lemma MulLe(i: int, j: int, a: nat)
    requires i <= j
    ensures i * a <= j * a
  {
  }

  /** A multiple of a leaves no remainder. */
  lemma MulMod(k: nat, a: nat)
    requires a >= 1
    ensures (k * a) % a == 0
  {
    var x := k * a;
    var d := k - x / a;
    assert x % a == d * a;
    if d >= 1 {
      MulLe(1, d, a);
    } else if d <= -1 {
      MulLe(d, -1, a);
    }
  }

  /** An aligned value above start is at least the first multiple of a above start. */
  lemma AlignedAbove(start: nat, a: nat, s: nat)
    requires a >= 1 && start < s && s % a == 0
    ensures (start / a + 1) * a <= s
  {
    var p := start / a;
    assert s == (s / a) * a;
    if s / a <= p {
      MulLe(s / a, p, a);
    } else {
      MulLe(p + 1, s / a, a);
    }
  }

  /**
   * (start + align) & ~(align - 1) for a power-of-two align
   * (vmap.c:95): the first multiple of align above start.
   */
  function NextAligned(start: nat, align: nat): (r: nat)
    requires align >= 1
    ensures start < r <= start + align && r % align == 0
    ensures forall s | start < s && s % align == 0 :: r <= s
  {
    var p := start / align;
    assert (p + 1) * align == p * align + align;
    MulMod(p + 1, align);
    forall s | start < s && s % align == 0 ensures (p + 1) * align <= s {
      AlignedAbove(start, align, s);
    }
    (p + 1) * align
  }

  /**
   * An allocation of nr pages may start at s: s is aligned, the guard bit
   * before it and the nr bits from s are clear, and so is the bit after the
   * run unless the run ends at top.
   */
  ghost predicate Fits(b: seq<bool>, top: nat, nr: nat, align: nat, s: nat)
    requires top <= |b|
  {
    align >= 1 && s % align == 0 && 1 <= s < top && s + nr <= top &&
    (forall i | s - 1 <= i < s + nr :: !b[i]) &&
    (s + nr < top ==> !b[s + nr])
  }

  /** An allocation [s, s + n): set, guarded by a clear bit in front and a clear bit or top behind. */
  ghost predicate Guarded(b: seq<bool>, reserved: nat, top: nat, s: nat, n: nat)
    requires top <= |b|
  {
    reserved < s && 1 <= n && s + n <= top && !b[s - 1] &&
    (forall i | s <= i < s + n :: b[i]) &&
    (s + n < top ==> !b[s + n])
  }

  /**
   * The allocations, by first page and length, tile the set bits between
   * the bitmap's own pages and top: each is guarded, and every set bit
   * there belongs to one.
   */
  ghost predicate Tiles(b: seq<bool>, reserved: nat, top: nat, allocs: map<nat, nat>)
    requires top <= |b|
  {
    (forall s | s in allocs :: Guarded(b, reserved, top, s, allocs[s])) &&
    (forall i | reserved <= i < top && b[i] :: exists s | s in allocs :: s <= i < s + allocs[s])
  }

  function SetBits(b: seq<bool>, s: nat, n: nat): (r: seq<bool>)
    ensures |r| == |b| && forall i | 0 <= i < |b| :: r[i] == (b[i] || s <= i < s + n)
  {
    seq(|b|, i requires 0 <= i < |b| => b[i] || s <= i < s + n)
  }

  function ClearBits(b: seq<bool>, s: nat, n: nat): (r: seq<bool>)
    ensures |r| == |b| && forall i | 0 <= i < |b| :: r[i] == (b[i] && !(s <= i < s + n))
  {
    seq(|b|, i requires 0 <= i < |b| => b[i] && !(s <= i < s + n))
  }

  /** Inside the gap after a clear bit g, the first aligned start that does not fit means none later in the gap fits. */
  lemma NoFitInGap(b: seq<bool>, top: nat, nr: nat, align: nat, g: nat, bit: nat, s: nat)
    requires top <= |b| && align >= 1 && g < bit <= top && (bit < top ==> b[bit])
    requires var c := NextAligned(g, align);
      (bit < top && c + nr >= bit) || (bit == top && (c + nr > top || c >= top))
    requires g < s <= bit
    ensures !Fits(b, top, nr, align, s)
  {
    if s % align == 0 && 1 <= s < top {
      assert s >= NextAligned(g, align);
      assert bit < top ==> s - 1 < bit <= s + nr;
    }
  }

  /** A start whose guard bit is set does not fit. */
  lemma NoFitAfterSet(b: seq<bool>, top: nat, nr: nat, align: nat, s: nat)
    requires top <= |b| && 1 <= s <= top && b[s - 1]
    ensures !Fits(b, top, nr, align, s)
  {
  }

  /** The first aligned start inside a clear gap fits when the run and its trailing guard stay inside the gap. */
  lemma FitInGap(b: seq<bool>, top: nat, nr: nat, align: nat, g: nat, bit: nat)
    requires top <= |b| && align >= 1 && g < bit <= top && !b[g]
    requires forall j | g < j < bit :: !b[j]
    requires var c := NextAligned(g, align);
      (bit < top && c + nr < bit) || (bit == top && c + nr <= top && c < top)
    ensures Fits(b, top, nr, align, NextAligned(g, align))
  {
  }

  /** After a run is set where it fits, the existing allocations are still guarded, and so is the new one. */
  lemma AddRunGuarded(b: seq<bool>, reserved: nat, top: nat, allocs: map<nat, nat>, s: nat, nr: nat, align: nat)
    requires top <= |b| && reserved <= top && Tiles(b, reserved, top, allocs)
    requires forall i | 0 <= i < reserved :: b[i]
    requires Fits(b, top, nr, align, s) && nr >= 1
    ensures s !in allocs
    ensures Guarded(SetBits(b, s, nr), reserved, top, s, nr)
    ensures forall t | t in allocs :: Guarded(SetBits(b, s, nr), reserved, top, t, allocs[t])
  {
    var b' := SetBits(b, s, nr);
    assert !b[s] && !b[s - 1];
    assert s in allocs ==> Guarded(b, reserved, top, s, allocs[s]);
    forall t | t in allocs ensures Guarded(b', reserved, top, t, allocs[t]) {
      assert Guarded(b, reserved, top, t, allocs[t]);
      var u := t + allocs[t];
      assert b[t] && b[u - 1];
    }
  }

  /** A new guarded run added where it fits keeps the allocations tiling the bitmap. */
  lemma AddRun(b: seq<bool>, reserved: nat, top: nat, allocs: map<nat, nat>, s: nat, nr: nat, align: nat)
    requires top <= |b| && reserved <= top && Tiles(b, reserved, top, allocs)
    requires forall i | 0 <= i < reserved :: b[i]
    requires Fits(b, top, nr, align, s) && nr >= 1
    ensures s !in allocs
    ensures Tiles(SetBits(b, s, nr), reserved, top, allocs[s := nr])
  {
    var b' := SetBits(b, s, nr);
    var allocs' := allocs[s := nr];
    AddRunGuarded(b, reserved, top, allocs, s, nr, align);
    forall i | reserved <= i < top && b'[i] ensures exists t | t in allocs' :: t <= i < t + allocs'[t] {
      if b[i] {
        var t :| t in allocs && t <= i < t + allocs[t];
        assert t in allocs' && allocs'[t] == allocs[t];
      } else {
        assert s in allocs' && s <= i < s + allocs'[s];
      }
    }
  }

  /** Distinct allocations share no bit. */
  lemma RunsDisjoint(b: seq<bool>, reserved: nat, top: nat, allocs: map<nat, nat>, s: nat, t: nat, i: nat)
    requires top <= |b| && Tiles(b, reserved, top, allocs) && s in allocs && t in allocs && s != t
    requires t <= i < t + allocs[t]
    ensures !(s <= i < s + allocs[s])
  {
    assert Guarded(b, reserved, top, s, allocs[s]) && Guarded(b, reserved, top, t, allocs[t]);
    assert !b[t - 1] && !b[s - 1];
  }

  /** Clearing an allocation's run and forgetting it keeps the rest tiling the bitmap. */
  lemma RemoveRun(b: seq<bool>, reserved: nat, top: nat, allocs: map<nat, nat>, s: nat)
    requires top <= |b| && Tiles(b, reserved, top, allocs) && s in allocs
    ensures Tiles(ClearBits(b, s, allocs[s]), reserved, top, allocs - {s})
  {
    var n := allocs[s];
    var b' := ClearBits(b, s, n);
    var allocs' := allocs - {s};
    forall t | t in allocs' ensures Guarded(b', reserved, top, t, allocs'[t]) {
      assert Guarded(b, reserved, top, t, allocs[t]);
      forall i | t <= i < t + allocs[t] ensures b'[i] {
        RunsDisjoint(b, reserved, top, allocs, s, t, i);
      }
    }
    forall i | reserved <= i < top && b'[i] ensures exists t | t in allocs' :: t <= i < t + allocs'[t] {
      var t :| t in allocs && t <= i < t + allocs[t];
      assert t != s;
      assert t in allocs' && allocs'[t] == allocs[t];
    }
  }

  /** A set bit whose predecessor is clear starts an allocation. */
  lemma StartOfRun(b: seq<bool>, reserved: nat, top: nat, allocs: map<nat, nat>, i: nat)
    requires top <= |b| && reserved <= top && Tiles(b, reserved, top, allocs)
    requires forall j | 0 <= j < reserved :: b[j]
    requires 1 <= i < top && !b[i - 1] && b[i]
    ensures i in allocs
  {
    var s :| s in allocs && s <= i < s + allocs[s];
    assert Guarded(b, reserved, top, s, allocs[s]);
  }

  /** The set-bit run from an allocation's first page ends where the allocation does. */
  lemma RunEnd(b: seq<bool>, reserved: nat, top: nat, allocs: map<nat, nat>, s: nat)
    requires top <= |b| && Tiles(b, reserved, top, allocs) && s in allocs
    ensures NextClear(b, top, s + 1) == s + allocs[s]
  {
    assert Guarded(b, reserved, top, s, allocs[s]);
  }

  /**
   * The state of a region's bitmap: the bitmap's own pages are set, nothing
   * at or above top is, vm_low is a clear bit or top, and the allocations
   * tile the rest.
   */
  ghost predicate Shape(b: seq<bool>, reserved: nat, low: nat, top: nat, allocs: map<nat, nat>)
    requires top <= |b|
  {
    reserved <= low <= top &&
    (forall i | 0 <= i < reserved :: b[i]) &&
    (forall i | top <= i < |b| :: !b[i]) &&
    (low == top || !b[low]) &&
    Tiles(b, reserved, top, allocs)
  }

  /** A bitmap whose only set bits are the bitmap's own pages has the shape of a region with no allocations. */
  lemma InitShape(b: seq<bool>, reserved: nat, top: nat)
    requires reserved <= top <= |b| && forall i | 0 <= i < |b| :: b[i] == (i < reserved)
    ensures Shape(b, reserved, reserved, top, map[])
  {
  }

  /** Mapping more bitmap pages, which are clear, keeps the shape. */
  lemma ShapeGrow(b: seq<bool>, reserved: nat, low: nat, top: nat, top': nat, allocs: map<nat, nat>)
    requires top <= top' <= |b| && Shape(b, reserved, low, top, allocs)
    ensures Shape(b, reserved, low, top', allocs)
  {
    forall s | s in allocs ensures Guarded(b, reserved, top', s, allocs[s]) {
      assert Guarded(b, reserved, top, s, allocs[s]);
    }
  }

  /** Setting a run where it fits, above vm_low, and moving vm_low as vm_alloc does, keeps the shape. */
  lemma ShapeAlloc(b: seq<bool>, reserved: nat, low: nat, top: nat, allocs: map<nat, nat>, s: nat, nr: nat, align: nat)
    requires top <= |b| && Shape(b, reserved, low, top, allocs)
    requires Fits(b, top, nr, align, s) && low < s
    ensures Shape(SetBits(b, s, nr), reserved, if s <= low + 2 then s + nr else low, top,
                  if nr == 0 then allocs else allocs[s := nr])
  {
    if nr == 0 {
      assert SetBits(b, s, nr) == b;
    } else {
      AddRun(b, reserved, top, allocs, s, nr, align);
    }
  }

  /** Clearing an allocation, with vm_low lowered onto a clear run below it as vm_free does, keeps the shape. */
  lemma ShapeFree(b: seq<bool>, reserved: nat, low: nat, low': nat, top: nat, allocs: map<nat, nat>, s: nat)
    requires top <= |b| && Shape(b, reserved, low, top, allocs) && s in allocs
    requires s < low ==> reserved <= low' < s && !b[low']
    requires s >= low ==> low' == low
    ensures Shape(ClearBits(b, s, allocs[s]), reserved, low', top, allocs - {s})
  {
    assert Guarded(b, reserved, top, s, allocs[s]);
    RemoveRun(b, reserved, top, allocs, s);
  }

  /** Clearing a run that was set where it fitted gives back the bitmap as it was: vm_free undoes vm_alloc. */
  lemma FreeUndoesAlloc(b: seq<bool>, top: nat, nr: nat, align: nat, s: nat)
    requires top <= |b| && Fits(b, top, nr, align, s)
    ensures ClearBits(SetBits(b, s, nr), s, nr) == b
  {
    assert forall i | 0 <= i < |b| :: ClearBits(SetBits(b, s, nr), s, nr)[i] == b[i];
  }

  // ---------------------------------------------------------------------
  // Array loops: __set_bit over a run, and the __test_and_clear_bit loop
  // ---------------------------------------------------------------------

  /** The loop that sets bits [s, s + nr) of a fresh allocation (vmap.c:151-152). */
  method SetRun(a: array<bool>, s: nat, nr: nat)
    requires s + nr <= a.Length
    modifies a
    ensures a[..] == SetBits(old(a[..]), s, nr)
  {
    var bit := s;
    while bit < s + nr
      invariant s <= bit <= s + nr
      invariant forall i {:trigger a[i]} | 0 <= i < a.Length :: a[i] == (old(a[i]) || s <= i < bit)
    {
      a[bit] := true;
      bit := bit + 1;
    }
  }

  /**
   * The clearing loop of vm_free (vmap.c:218-220): test and clear bits from
   * s until a clear one, or until top.  On a guarded run it clears exactly
   * the run.
   */
  method ClearRun(a: array<bool>, s: nat, top: nat, ghost n: nat, ghost b: seq<bool>)
    requires 1 <= n && s + n <= top <= a.Length && b == a[..]
    requires forall i | s <= i < s + n :: b[i]
    requires s + n < top ==> !b[s + n]
    modifies a
    ensures a[..] == ClearBits(old(a[..]), s, n)
  {
    var bit := s;
    var more := true;
    while more
      invariant s <= bit <= s + n && (more ==> bit < top)
      invariant !more ==> bit == s + n
      invariant forall i {:trigger a[i]} | 0 <= i < a.Length :: a[i] == (old(a[i]) && !(s <= i < bit))
      decreases top - bit, more
    {
      more := a[bit];
      a[bit] := false;
      if more {
        bit := bit + 1;
        more := bit != top;
      }
    }
  }

  /**
   * One round of the search loop of vm_alloc (vmap.c:82-98), from a clear
   * bit start: the first aligned start above it, if the run and its
   * trailing guard fit before the next set bit (or end at top); otherwise
   * the next clear bit after that set bit, or top.
   */
  method SearchStep(a: array<bool>, top: nat, start: nat, nr: nat, align: nat) returns (next: nat, found: bool)
    requires top <= a.Length && align >= 1 && start < top && !a[start]
    ensures start < next <= top
    ensures forall s | start < s < next :: !Fits(a[..], top, nr, align, s)
    ensures found ==> next < top && Fits(a[..], top, nr, align, next)
    ensures !found ==> !Fits(a[..], top, nr, align, next) && (next < top ==> !a[next])
  {
    var bit := NextSet(a[..], top, start + 1);
    var cand := NextAligned(start, align);
    if (bit < top && cand + nr < bit) || (bit == top && cand + nr <= bit && cand < top) {
      FitInGap(a[..], top, nr, align, start, bit);
      return cand, true;
    }
    forall s | start < s <= bit ensures !Fits(a[..], top, nr, align, s) {
      NoFitInGap(a[..], top, nr, align, start, bit, s);
    }
    found := false;
    if bit < top {
      next := NextClear(a[..], top, bit + 1);
      forall s | bit < s <= next ensures !Fits(a[..], top, nr, align, s) {
        NoFitAfterSet(a[..], top, nr, align, s);
      }
    } else {
      next := bit;
    }
  }

  /**
   * The loop of vm_free that lowers vm_low (vmap.c:210-214): from the guard
   * bit below an allocation down to the bottom of the clear run it ends,
   * which the set bits of the bitmap's own pages bound.
   */
  method LowerLow(a: array<bool>, bit: nat, ghost reserved: nat, ghost b: seq<bool>) returns (l: nat)
    requires 1 <= reserved < bit <= a.Length && b == a[..] && !b[bit - 1]
    requires forall i | 0 <= i < reserved :: b[i]
    ensures reserved <= l < bit && b[l - 1]
    ensures forall i | l <= i < bit :: !b[i]
  {
    l := bit - 1;
    while !a[l - 1]
      invariant reserved <= l < bit
      invariant forall i | l <= i < bit :: !a[i]
      decreases l
    {
      l := l - 1;
    }
  }

  // ---------------------------------------------------------------------
  // One vmap region
  // ---------------------------------------------------------------------

  class VmRegion {
    /** vm_base: the region's first address, 0 until vm_init_type. */
    var base: nat
    /** The bitmap, sized for the pages it occupies at the start of the region. */
    var bits: array<bool>
    /** vm_top: bits below it are backed by mapped bitmap pages. */
    var top: nat
    /** vm_end: the number of pages in the region. */
    var end: nat
    /** vm_low: a clear bit (or top) below which the search does not look. */
    var low: nat
    /** The pages holding the bitmap itself, allocated for good by vm_init_type. */
    ghost var reserved: nat
    /** The live allocations: first page to number of pages. */
    ghost var allocs: map<nat, nat>

    ghost predicate Valid()
      reads this, bits
    {
      top <= bits.Length && end <= bits.Length &&
      end / 8 <= reserved * PAGE_SIZE && base % PAGE_SIZE == 0 &&
      (base == 0 ==> top == 0) && (top > 0 || end > 0 ==> reserved >= 1) &&
      Shape(bits[..], reserved, low, top, allocs)
    }

    /** A region before vm_init_type: no base, nothing to allocate from. */
    constructor ()
      ensures Valid() && base == 0 && top == 0 && allocs == map[]
    {
      base := 0;
      bits := new bool[0];
      top, end, low := 0, 0, 0;
      reserved := 0;
      allocs := map[];
    }

    /**
     * vm_init_type (vmap.c:22-54), bitmap part: the region [start, finish)
     * has vm_end pages; its first vm_low pages hold the bitmap and are marked
     * used; the first bitmap pages, enough for vm_low bits, are mapped and
     * clear beyond vm_low, which makes vm_top a whole number of bitmap pages.
     */
    method InitType(start: nat, finish: nat)
      requires Valid() && base == 0 && 0 < start <= finish && start % PAGE_SIZE == 0
      modifies this
      ensures Valid() && fresh(bits) && base == start && allocs == map[]
      ensures end == PfnDown(finish - start) && reserved == low == PfnUp((end + 7) / 8)
      ensures top == PfnUp((low + 7) / 8) * PAGE_BITS
      ensures bits.Length == low * PAGE_BITS && forall i | 0 <= i < bits.Length :: bits[i] == (i < low)
    {
      var pages := PfnDown(finish - start);
      var lowBits := PfnUp((pages + 7) / 8);
      var nr := PfnUp((lowBits + 7) / 8);
      InitSizes(pages, lowBits, nr);
      base := start;
      end := pages;
      low := lowBits;
      top := nr * PAGE_BITS;
      var bitmap := new bool[lowBits * PAGE_BITS](i => i < lowBits);
      InitShape(bitmap[..], lowBits, nr * PAGE_BITS);
      bits := bitmap;
      reserved := lowBits;
      allocs := map[];
    }

    /**
     * The search of vm_alloc (vmap.c:80-99): going up from vm_low, the first
     * start where nr pages fit with their guards; top when there is none.
     */
    method Search(nr: nat, align: nat) returns (start: nat)
      requires Valid() && align >= 1
      ensures start <= top
      ensures start < top ==> low < start && Fits(bits[..], top, nr, align, start)
      ensures forall s | low < s < start :: !Fits(bits[..], top, nr, align, s)
    {
      start := low;
      var found := false;
      while start < top && !found
        invariant low <= start <= top && (start < top && !found ==> !bits[start])
        invariant found ==> start < top && low < start && Fits(bits[..], top, nr, align, start)
        invariant forall s | low < s < start :: !Fits(bits[..], top, nr, align, s)
        invariant !found && low < start ==> !Fits(bits[..], top, nr, align, start)
        decreases top - start, !found
      {
        start, found := SearchStep(bits, top, start, nr, align);
      }
    }

    /**
     * vm_alloc (vmap.c:59-162) on this region: nr pages at the first place
     * the search finds, mapping one more bitmap page (at most bitmapPages of
     * them, the page allocator and the mapper permitting) whenever the search
     * fails and vm_top is still below vm_end.  Returns the address of the
     * first page, or nothing.
     */
    method Alloc(nr: nat, align: bv32, bitmapPages: nat) returns (va: Option<nat>, start: nat)
      requires Valid()
      modifies this, bits
      ensures Valid() && bits == old(bits) && base == old(base) && end == old(end) && reserved == old(reserved)
      ensures old(top) <= top <= old(top) + bitmapPages * PAGE_BITS && (top > old(top) ==> top <= end)
      ensures va.Some? ==> var a := NormaliseAlign(align) as nat;
        va.value == base + start * PAGE_SIZE && old(low) < start &&
        Fits(old(bits[..]), top, nr, a, start) &&
        (forall s | old(low) < s < start :: !Fits(old(bits[..]), top, nr, a, s)) &&
        bits[..] == SetBits(old(bits[..]), start, nr) &&
        allocs == (if nr == 0 then old(allocs) else old(allocs)[start := nr]) &&
        low == (if start <= old(low) + 2 then start + nr else old(low))
      ensures va.None? ==> var a := NormaliseAlign(align) as nat;
        bits[..] == old(bits[..]) && allocs == old(allocs) && low == old(low) &&
        (base == 0 || ((top >= end || top == old(top) + bitmapPages * PAGE_BITS) &&
                       forall s | low < s :: !Fits(bits[..], top, nr, a, s)))
    {
      var a := NormaliseAlign(align) as nat;
      if base == 0 {
        return None, 0;
      }
      start := SearchGrowing(nr, a, bitmapPages);
      if start == top {
        return None, 0;
      }
      Commit(start, nr, a);
      va := Some(base + start * PAGE_SIZE);
    }

    /**
     * The outer loop of vm_alloc (vmap.c:78-141): search, and while the
     * search fails map one more bitmap page, vm_top growing by a page of
     * bits up to vm_end, until a start is found, vm_top reaches vm_end, or
     * no bitmap page can be had (top is returned then).
     */
    method SearchGrowing(nr: nat, a: nat, bitmapPages: nat) returns (start: nat)
      requires Valid() && a >= 1
      modifies this
      ensures Valid() && bits == old(bits) && allocs == old(allocs) && low == old(low)
      ensures base == old(base) && end == old(end) && reserved == old(reserved)
      ensures old(top) <= top <= old(top) + bitmapPages * PAGE_BITS && (top > old(top) ==> top <= end)
      ensures start <= top && (start < top ==> low < start && Fits(bits[..], top, nr, a, start))
      ensures forall s | low < s < start :: !Fits(bits[..], top, nr, a, s)
      ensures start == top ==> top >= end || top == old(top) + bitmapPages * PAGE_BITS
    {
      var supply: nat := bitmapPages;
      start := Search(nr, a);
      while start == top && top < end && supply > 0
        invariant Valid() && bits == old(bits) && allocs == old(allocs)
        invariant base == old(base) && end == old(end) && reserved == old(reserved) && low == old(low)
        invariant supply <= bitmapPages && old(top) <= top && (top > old(top) ==> top <= end)
        invariant top <= old(top) + (bitmapPages - supply) * PAGE_BITS
        invariant top >= end || top == old(top) + (bitmapPages - supply) * PAGE_BITS
        invariant start <= top && (start < top ==> low < start && Fits(bits[..], top, nr, a, start))
        invariant forall s | low < s < start :: !Fits(bits[..], top, nr, a, s)
        decreases end - top
      {
        MulStep(bitmapPages - supply);
        supply := supply - 1;
        var top' := if top + PAGE_BITS > end then end else top + PAGE_BITS;
        ShapeGrow(bits[..], reserved, low, top, top', allocs);
        top := top';
        start := Search(nr, a);
      }
      MulMono(bitmapPages - supply, bitmapPages);
    }

    /**
     * The end of vm_alloc (vmap.c:150-159): mark the run found by the search
     * used, and move vm_low past it when it starts within two bits of
     * vm_low.
     */
    method Commit(start: nat, nr: nat, ghost a: nat)
      requires Valid() && low < start && Fits(bits[..], top, nr, a, start)
      modifies this, bits
      ensures Valid() && bits == old(bits) && base == old(base) && end == old(end) && reserved == old(reserved)
      ensures top == old(top) && bits[..] == SetBits(old(bits[..]), start, nr)
      ensures allocs == (if nr == 0 then old(allocs) else old(allocs)[start := nr])
      ensures low == (if start <= old(low) + 2 then start + nr else old(low))
    {
      ghost var b := bits[..];
      SetRun(bits, start, nr);
      ShapeAlloc(b, reserved, low, top, allocs, start, nr, a);
      if nr > 0 {
        allocs := allocs[start := nr];
      }
      if start <= low + 2 {
        low := start + nr;
      }
    }

    /**
     * vm_index (vmap.c:165-180): the first page of the allocation va lies
     * in, or 0 if va is outside the allocatable part of the region or not at
     * the start of an allocation.
     */
    function Index(va: nat): (idx: nat)
      reads this, bits
      requires Valid()
      ensures idx != 0 ==> idx in allocs
    {
      var addr := va - va % PAGE_SIZE;
      if base == 0 then 0
      else if addr < base + end / 8 || addr >= base + top * PAGE_SIZE then 0
      else
        var idx := (va - base) / PAGE_SIZE;
        PageIndexBelow(va, base, top);
        if idx >= 1 && !bits[idx - 1] && bits[idx] then
          StartOfRun(bits[..], reserved, top, allocs, idx);
          idx
        else 0
    }

    /** Every address in the first page of an allocation leads back to it. */
    lemma IndexOfAlloc(s: nat, offset: nat)
      requires Valid() && s in allocs && offset < PAGE_SIZE
      ensures Index(base + s * PAGE_SIZE + offset) == s
    {
      assert Guarded(bits[..], reserved, top, s, allocs[s]);
      var va := base + s * PAGE_SIZE + offset;
      PageOf(base, s, offset);
      assert reserved * PAGE_SIZE <= s * PAGE_SIZE;
    }

    /** vm_size (vmap.c:182-192): the number of pages of the allocation starting at va's page, or 0. */
    function Size(va: nat): (n: nat)
      reads this, bits
      requires Valid()
      ensures n == if Index(va) == 0 then 0 else allocs[Index(va)]
    {
      var start := Index(va);
      if start == 0 then 0
      else
        var e := NextClear(bits[..], top, start + 1);
        RunEnd(bits[..], reserved, top, allocs, start);
        (if e < top then e else top) - start
    }

    /**
     * The part of vm_free (vmap.c:207-221) after vm_index has found the
     * allocation starting at bit: pull vm_low down to the bottom of the clear
     * run just below the allocation if bit lies below vm_low, then clear the
     * allocation's bits.
     */
    method FreeAt(bit: nat)
      requires Valid() && bit in allocs
      modifies this, bits
      ensures Valid() && bits == old(bits) && base == old(base) && top == old(top) && end == old(end)
      ensures reserved == old(reserved)
      ensures bits[..] == ClearBits(old(bits[..]), bit, old(allocs[bit])) && allocs == old(allocs) - {bit}
      ensures bit < old(low) ==> 1 <= low < bit && old(bits[..])[low - 1] && forall i | low <= i < bit :: !old(bits[..])[i]
      ensures bit >= old(low) ==> low == old(low)
    {
      ghost var b := bits[..];
      assert Guarded(b, reserved, top, bit, allocs[bit]);
      var l := low;
      if bit < low {
        l := LowerLow(bits, bit, reserved, b);
      }
      ghost var b' := ClearBits(b, bit, allocs[bit]);
      ShapeFree(b, reserved, low, l, top, allocs, bit);
      ClearRun(bits, bit, top, allocs[bit], b);
      assert bits[..] == b';
      allocs := allocs - {bit};
      low := l;
    }

  }

  /** On a page-aligned base, an address below page top of the region lies in a page below top. */
  lemma PageIndexBelow(va: nat, base: nat, top: nat)
    requires base % PAGE_SIZE == 0 && base <= va - va % PAGE_SIZE < base + top * PAGE_SIZE
    ensures (va - base) / PAGE_SIZE < top
  {
    var addr := va - va % PAGE_SIZE;
    var k := base / PAGE_SIZE;
    var j := addr / PAGE_SIZE;
    assert addr == j * PAGE_SIZE && base == k * PAGE_SIZE;
    assert j < k + top;
    assert va - base < (j - k + 1) * PAGE_SIZE;
  }

  /** The page of base + s pages + offset, for a page-aligned base. */
  lemma PageOf(base: nat, s: nat, offset: nat)
    requires base % PAGE_SIZE == 0 && offset < PAGE_SIZE
    ensures var va := base + s * PAGE_SIZE + offset;
      va % PAGE_SIZE == offset && (va - base) / PAGE_SIZE == s
  {
  }

  lemma MulStep(k: nat)
    ensures (k + 1) * PAGE_BITS == k * PAGE_BITS + PAGE_BITS
  {
  }

  lemma MulMono(k: nat, m: nat)
    requires k <= m
    ensures k * PAGE_BITS <= m * PAGE_BITS
  {
  }

  /** The sizes vm_init_type derives fit the bitmap and each other. */
  lemma InitSizes(pages: nat, lowBits: nat, nr: nat)
    requires lowBits == PfnUp((pages + 7) / 8) && nr == PfnUp((lowBits + 7) / 8)
    ensures pages <= lowBits * PAGE_BITS && pages / 8 <= lowBits * PAGE_SIZE
    ensures lowBits <= nr * PAGE_BITS <= lowBits * PAGE_BITS
    ensures nr > 0 ==> lowBits >= 1
  {
  }

  /**
   * vm_free (vmap.c:195-222): the allocation va starts is released from
   * whichever region holds it, the default region first; an address that
   * starts no allocation changes nothing.
   */
  method VmFree(def: VmRegion, xen: VmRegion, va: nat)
    requires def != xen && def.bits != xen.bits && def.Valid() && xen.Valid()
    modifies def, def.bits, xen, xen.bits
    ensures def.Valid() && xen.Valid()
    ensures def.bits == old(def.bits) && def.base == old(def.base) && def.top == old(def.top)
    ensures def.end == old(def.end) && def.reserved == old(def.reserved)
    ensures xen.bits == old(xen.bits) && xen.base == old(xen.base) && xen.top == old(xen.top)
    ensures xen.end == old(xen.end) && xen.reserved == old(xen.reserved)
    ensures var d := old(def.Index(va));
      && def.allocs == (if d != 0 then old(def.allocs) - {d} else old(def.allocs))
      && def.bits[..] == (if d != 0 then ClearBits(old(def.bits[..]), d, old(def.allocs)[d]) else old(def.bits[..]))
      && (d != 0 && d < old(def.low) ==>
            1 <= def.low < d && old(def.bits[..])[def.low - 1] && forall i | def.low <= i < d :: !old(def.bits[..])[i])
      && (d == 0 || d >= old(def.low) ==> def.low == old(def.low))
    ensures var d, x := old(def.Index(va)), old(xen.Index(va));
      && xen.allocs == (if d == 0 && x != 0 then old(xen.allocs) - {x} else old(xen.allocs))
      && xen.bits[..] == (if d == 0 && x != 0 then ClearBits(old(xen.bits[..]), x, old(xen.allocs)[x]) else old(xen.bits[..]))
      && (d == 0 && x != 0 && x < old(xen.low) ==>
            1 <= xen.low < x && old(xen.bits[..])[xen.low - 1] && forall i | xen.low <= i < x :: !old(xen.bits[..])[i])
      && (d != 0 || x == 0 || x >= old(xen.low) ==> xen.low == old(xen.low))
  {
    var bit := def.Index(va);
    if bit != 0 {
      def.FreeAt(bit);
      return;
    }
    bit := xen.Index(va);
    if bit != 0 {
      xen.FreeAt(bit);
    }
  }

  /** vmap_size of an address in the first page of a default-region allocation is that allocation's length. */
  lemma VmapSizeOfAlloc(def: VmRegion, xen: VmRegion, s: nat, offset: nat)
    requires def.Valid() && xen.Valid() && s in def.allocs && offset < PAGE_SIZE
    ensures VmapSize(def, xen, def.base + s * PAGE_SIZE + offset) == def.allocs[s]
  {
    def.IndexOfAlloc(s, offset);
  }

  /** vmap_size (vmap.c:254-262): the pages of the allocation va starts, in either region. */
  function VmapSize(def: VmRegion, xen: VmRegion, va: nat): (pages: nat)
    reads def, def.bits, xen, xen.bits
    requires def.Valid() && xen.Valid()
    ensures pages == if def.Index(va) != 0 then def.allocs[def.Index(va)]
      else if xen.Index(va) != 0 then xen.allocs[xen.Index(va)] else 0
  {
    var pages := def.Size(va);
    if pages != 0 then pages else xen.Size(va)
  }

  // ---------------------------------------------------------------------
  // _xvrealloc (vmap.c:393-428): what it returns and what it copies
  // ---------------------------------------------------------------------

  /** The outcome of _xvrealloc. */
  datatype Realloc =
    | SmallRealloc                      // handed on to _xrealloc
    | Fresh(copy: nat, freeOld: bool)   // a new block: copy bytes over, then free the old one if freeOld
    | Same                              // the old block is returned
    | Null                              // nothing could be allocated

  function Min(a: nat, b: nat): nat { if a < b then a else b }

  /**
   * _xvrealloc for a block of `pages` vmap pages (0: not a vmap block),
   * `live` when va is neither NULL nor the zero-size block, `offset` its
   * offset in its page, and allocOk the outcome of the new allocation.
   */
  function XvRealloc(pages: nat, size: nat, live: bool, offset: nat, allocOk: bool): (r: Realloc)
    requires offset < PAGE_SIZE
    ensures r == Same ==> pages > 0 && pages * PAGE_SIZE >= size
    ensures r.Fresh? ==> allocOk && r.copy <= size && (r.freeOld <==> pages > 0 || live)
    ensures r.Fresh? && pages > 0 ==> r.copy == Min(size, pages * PAGE_SIZE)
    ensures r.Fresh? && pages == 0 ==> r.copy + offset == (if live then PAGE_SIZE else offset)
    ensures r == Null ==> !allocOk && (pages == 0 || pages < PfnUp(size))
    ensures r == SmallRealloc <==> pages == 0 && size <= PAGE_SIZE
  {
    if pages == 0 then
      if size <= PAGE_SIZE then SmallRealloc
      else if !allocOk then Null
      else Fresh(if live then PAGE_SIZE - offset else 0, live)
    else if pages == PfnUp(size) then Same
    else if allocOk then Fresh(Min(size, pages * PAGE_SIZE), true)
    else if pages > PfnUp(size) then Same
    else Null
  }

  /** An unchanged page count, or a failed shrink, hands back the original block. */
  lemma XvReallocKeeps(pages: nat, size: nat, live: bool, offset: nat, allocOk: bool)
    requires offset < PAGE_SIZE && pages > 0
    requires pages == PfnUp(size) || (!allocOk && pages > PfnUp(size))
    ensures XvRealloc(pages, size, live, offset, allocOk) == Same
  {
  }
}
