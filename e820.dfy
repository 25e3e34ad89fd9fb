/*
 * The x86 E820 memory map (xen/arch/x86/e820.c): the table of physical
 * address ranges and their types that the firmware hands over, and the
 * boot-time routines that copy, clip, extend and retype it.
 *
 * An entry covers the half-open range [addr, addr + size).  Most routines
 * rely on the table being sorted and free of overlaps, which is what
 * sanitize_e820_map (module E820Sanitize) produces; that shape is
 * WellFormed below, and the meaning of a well-formed table is Lookup: the
 * type the table gives to one physical address.
 */
module E820 {
  import opened Opt

  /** Range types (ACPI specification, "System Address Map Interfaces"). */
  const RAM: nat := 1
  const RESERVED: nat := 2
  const ACPI: nat := 3
  const NVS: nat := 4
  const UNUSABLE: nat := 5

  const U64: nat := 0x1_0000_0000_0000_0000
  const PAGE_SIZE: nat := 4096

  /** Start and end of the legacy VGA/BIOS hole that must not be RAM. */
  const LEGACY_HOLE_START: nat := 0xA0000
  const LEGACY_HOLE_END: nat := 0x100000

  /** One table entry: addr and size are uint64_t, kind is the entry's type. */
  datatype Entry = Entry(addr: nat, size: nat, kind: nat)

  function End(x: Entry): nat { x.addr + x.size }

  predicate Holds(x: Entry, p: nat) { x.addr <= p < End(x) }

  /** Type filter of e820_all_mapped: type 0 accepts every entry. */
  predicate Matches(x: Entry, t: nat) { t == 0 || x.kind == t }

  /** No entry's end wraps around 2^64. */
  predicate NoWrap(m: seq<Entry>) { forall x | x in m :: End(x) < U64 }

  predicate Sorted(m: seq<Entry>) {
    forall i, j | 0 <= i < j < |m| :: End(m[i]) <= m[j].addr
  }

  /** Sorted by address, pairwise disjoint, no empty entry, no wrap. */
  predicate WellFormed(m: seq<Entry>) {
    NoWrap(m) && (forall x | x in m :: x.size > 0) && Sorted(m)
  }

  predicate AllBelow(m: seq<Entry>, lo: nat) { forall x | x in m :: End(x) <= lo }
  predicate AllAbove(m: seq<Entry>, hi: nat) { forall x | x in m :: hi <= x.addr }

  /** Some entry of m holds p. */
  predicate Covers(m: seq<Entry>, p: nat) { exists x | x in m :: Holds(x, p) }

  /** The type the table gives to address p: that of the first entry holding it. */
  function Lookup(m: seq<Entry>, p: nat): (r: Option<nat>)
    ensures r == None <==> !Covers(m, p)
    ensures r.Some? ==> exists x | x in m :: Holds(x, p) && x.kind == r.value
  {
    if m == [] then None
    else if Holds(m[0], p) then Some(m[0].kind)
    else
      var r := Lookup(m[1..], p);
      assert forall x | x in m[1..] :: x in m;
      assert forall x | x in m :: x == m[0] || x in m[1..];
      r
  }

  lemma {:induction false} LookupConcat(a: seq<Entry>, b: seq<Entry>, p: nat)
    ensures Lookup(a + b, p) == if Lookup(a, p).Some? then Lookup(a, p) else Lookup(b, p)
  {
    if a != [] {
      assert (a + b)[1..] == a[1..] + b;
      LookupConcat(a[1..], b, p);
    } else {
      assert a + b == b;
    }
  }

  /** In a well-formed table at most one entry holds p, so Lookup gives its type. */
  lemma LookupAt(m: seq<Entry>, i: nat, p: nat)
    requires WellFormed(m) && i < |m| && Holds(m[i], p)
    ensures Lookup(m, p) == Some(m[i].kind)
  {
    assert m == m[..i] + m[i..];
    LookupConcat(m[..i], m[i..], p);
    forall x | x in m[..i] ensures !Holds(x, p) {
      var j :| 0 <= j < i && m[j] == x;
    }
    assert m[i..][0] == m[i];
  }

  lemma SortedConcat(a: seq<Entry>, b: seq<Entry>)
    requires Sorted(a) && Sorted(b)
    requires forall x, y | x in a && y in b :: End(x) <= y.addr
    ensures Sorted(a + b)
  {
    forall i, j | 0 <= i < j < |a + b| ensures End((a + b)[i]) <= (a + b)[j].addr {
      if j < |a| {
      } else if i >= |a| {
        assert (a + b)[i] == b[i - |a|] && (a + b)[j] == b[j - |a|];
      } else {
        assert (a + b)[i] in a && (a + b)[j] in b;
      }
    }
  }

  lemma SortedSlice(m: seq<Entry>, lo: nat, hi: nat)
    requires Sorted(m) && lo <= hi <= |m|
    ensures Sorted(m[lo..hi])
  {
    forall i, j | 0 <= i < j < hi - lo ensures End(m[lo..hi][i]) <= m[lo..hi][j].addr {
      assert m[lo..hi][i] == m[lo + i] && m[lo..hi][j] == m[lo + j];
    }
  }

  /** A sorted table splits at i into entries ending by m[i].addr and entries starting after End(m[i]). */
  lemma SortedAround(m: seq<Entry>, i: nat)
    requires Sorted(m) && i < |m|
    ensures AllBelow(m[..i], m[i].addr) && AllAbove(m[i + 1..], End(m[i]))
    ensures Sorted(m[..i]) && Sorted(m[i + 1..])
  {
    SortedSlice(m, 0, i);
    SortedSlice(m, i + 1, |m|);
    forall x | x in m[..i] ensures End(x) <= m[i].addr {
      var j :| 0 <= j < i && m[j] == x;
    }
    forall x | x in m[i + 1..] ensures End(m[i]) <= x.addr {
      var j :| 0 <= j < |m| - i - 1 && m[i + 1..][j] == x;
      assert x == m[i + 1 + j];
    }
  }

  function First(a: Option<nat>, b: Option<nat>): Option<nat> { if a.Some? then a else b }

  lemma LookupConcat3(a: seq<Entry>, b: seq<Entry>, c: seq<Entry>, p: nat)
    ensures Lookup(a + b + c, p) == First(Lookup(a, p), First(Lookup(b, p), Lookup(c, p)))
  {
    assert a + b + c == a + (b + c);
    LookupConcat(a, b + c, p);
    LookupConcat(b, c, p);
  }

  /**
   * Replacing a run of entries by another well-formed run that stays inside
   * the gap [lo, hi) left by its neighbours keeps the table well-formed.
   */
  lemma ReplaceRun(pre: seq<Entry>, mid: seq<Entry>, mid2: seq<Entry>, post: seq<Entry>, lo: nat, hi: nat)
    requires WellFormed(pre + mid + post) && WellFormed(mid2) && lo <= hi
    requires AllBelow(pre, lo) && AllAbove(post, hi)
    requires forall x | x in mid2 :: lo <= x.addr && End(x) <= hi
    ensures WellFormed(pre + mid2 + post)
  {
    var whole := pre + mid + post;
    assert whole[..|pre|] == pre;
    assert whole[|pre| + |mid|..] == post;
    SortedSlice(whole, 0, |pre|);
    SortedSlice(whole, |pre| + |mid|, |whole|);
    forall x, y | x in mid2 && y in post ensures End(x) <= y.addr {
    }
    SortedConcat(mid2, post);
    forall x, y | x in pre && y in mid2 + post ensures End(x) <= y.addr {
      assert y in mid2 || y in post;
    }
    SortedConcat(pre, mid2 + post);
    var r := pre + (mid2 + post);
    assert r == pre + mid2 + post;
    forall x | x in r ensures End(x) < U64 && x.size > 0 {
      if x in pre {
        assert x in whole;
      } else if x !in mid2 {
        assert x in post;
        assert x in whole;
      }
    }
  }

  lemma LookupBelow(m: seq<Entry>, lo: nat, p: nat)
    requires AllBelow(m, lo) && lo <= p
    ensures Lookup(m, p) == None
  {
  }

  lemma LookupAbove(m: seq<Entry>, hi: nat, p: nat)
    requires AllAbove(m, hi) && p < hi
    ensures Lookup(m, p) == None
  {
  }

  /** Lookup across a table split around one entry z. */
  lemma LookupMid(pre: seq<Entry>, z: Entry, post: seq<Entry>, p: nat)
    ensures Lookup(pre + [z] + post, p) ==
      First(Lookup(pre, p), if Holds(z, p) then Some(z.kind) else Lookup(post, p))
  {
    LookupConcat3(pre, [z], post, p);
    LookupSingle(z, p);
  }

  lemma LookupSingle(x: Entry, p: nat)
    ensures Lookup([x], p) == if Holds(x, p) then Some(x.kind) else None
  {
    assert [x][1..] == [];
  }

  // ---------------------------------------------------------------------
  // e820_change_range_type (e820.c:585-668)
  // ---------------------------------------------------------------------

  /** Index of the first entry holding all of [s, e), or |m| (the search loop, e820.c:592-599). */
  function FindContaining(m: seq<Entry>, s: nat, e: nat): (i: nat)
    ensures i <= |m|
    ensures i < |m| ==> m[i].addr <= s && e <= End(m[i])
    ensures forall j | 0 <= j < i :: !(m[j].addr <= s && e <= End(m[j]))
  {
    if m == [] then 0
    else if m[0].addr <= s && e <= End(m[0]) then 0
    else
      var k := FindContaining(m[1..], s, e);
      assert forall j | 1 <= j < 1 + k :: m[j] == m[1..][j - 1];
      1 + k
  }

  /** In a well-formed table the entry holding a non-empty [s, e) is the one found. */
  lemma FindContainingAt(m: seq<Entry>, i: nat, s: nat, e: nat)
    requires WellFormed(m) && i < |m| && m[i].addr <= s < e <= End(m[i])
    ensures FindContaining(m, s, e) == i
  {
    var k := FindContaining(m, s, e);
    if k < i {
      assert false;
    }
  }

  /** What replaces entry x once [s, e) inside it gets type t (e820.c:604-645). */
  function SplitPieces(x: Entry, s: nat, e: nat, t: nat): seq<Entry>
    requires x.addr <= s < e <= End(x)
  {
    if s == x.addr && e == End(x) then [Entry(x.addr, x.size, t)]
    else if s == x.addr then [Entry(s, e - s, t), Entry(e, End(x) - e, x.kind)]
    else if e == End(x) then [Entry(x.addr, s - x.addr, x.kind), Entry(s, e - s, t)]
    else [Entry(x.addr, s - x.addr, x.kind), Entry(s, e - s, t), Entry(e, End(x) - e, x.kind)]
  }

  lemma SplitPiecesFacts(x: Entry, s: nat, e: nat, t: nat)
    requires x.addr <= s < e <= End(x) && End(x) < U64
    ensures WellFormed(SplitPieces(x, s, e, t))
    ensures forall y | y in SplitPieces(x, s, e, t) :: x.addr <= y.addr && End(y) <= End(x)
    ensures forall p: nat :: Lookup(SplitPieces(x, s, e, t), p) == if s <= p < e then Some(t) else Lookup([x], p)
  {
    var r := SplitPieces(x, s, e, t);
    forall p: nat ensures Lookup(r, p) == if s <= p < e then Some(t) else Lookup([x], p) {
      LookupSingle(x, p);
      if s == x.addr && e == End(x) {
        LookupSingle(r[0], p);
      } else if |r| == 2 {
        assert r == [r[0]] + [r[1]];
        LookupConcat([r[0]], [r[1]], p);
        LookupSingle(r[0], p);
        LookupSingle(r[1], p);
      } else {
        assert r == [r[0]] + [r[1]] + [r[2]];
        LookupConcat3([r[0]], [r[1]], [r[2]], p);
        LookupSingle(r[0], p);
        LookupSingle(r[1], p);
        LookupSingle(r[2], p);
      }
    }
  }

  predicate Mergeable(x: Entry, y: Entry) { x.kind == y.kind && End(x) == y.addr }

  function Merged(x: Entry, y: Entry): Entry { Entry(x.addr, x.size + y.size, x.kind) }

  /** The merge pass of e820_change_range_type from index i on (e820.c:650-660). */
  function MergeFrom(m: seq<Entry>, i: nat): (r: seq<Entry>)
    ensures |r| <= |m|
    decreases |m|, |m| - i
  {
    if i + 1 >= |m| then m
    else if Mergeable(m[i], m[i + 1]) then MergeFrom(m[..i] + [Merged(m[i], m[i + 1])] + m[i + 2..], i)
    else MergeFrom(m, i + 1)
  }

  predicate NoMergeableBefore(m: seq<Entry>, i: nat) {
    forall k | 0 <= k < i && k + 1 < |m| :: !Mergeable(m[k], m[k + 1])
  }

  /** After the merge pass no two neighbours have the same type and touch. */
  lemma {:induction false} MergeFromLeavesNoMergeable(m: seq<Entry>, i: nat)
    requires NoMergeableBefore(m, i)
    ensures NoMergeableBefore(MergeFrom(m, i), |MergeFrom(m, i)|)
    decreases |m|, |m| - i
  {
    if i + 1 >= |m| {
    } else if Mergeable(m[i], m[i + 1]) {
      var m' := m[..i] + [Merged(m[i], m[i + 1])] + m[i + 2..];
      forall k | 0 <= k < i && k + 1 < |m'| ensures !Mergeable(m'[k], m'[k + 1]) {
        assert m'[k] == m[k];
        if k + 1 < i { assert m'[k + 1] == m[k + 1]; }
      }
      MergeFromLeavesNoMergeable(m', i);
    } else {
      MergeFromLeavesNoMergeable(m, i + 1);
    }
  }

  lemma {:induction false} MergeFromNoWrap(m: seq<Entry>, i: nat)
    requires NoWrap(m)
    ensures NoWrap(MergeFrom(m, i))
    decreases |m|, |m| - i
  {
    if i + 1 >= |m| {
    } else if Mergeable(m[i], m[i + 1]) {
      var m' := m[..i] + [Merged(m[i], m[i + 1])] + m[i + 2..];
      assert m[i + 1] in m;
      forall x | x in m' ensures End(x) < U64 {
        if x !in m[..i] && x !in m[i + 2..] { assert x == Merged(m[i], m[i + 1]); }
      }
      MergeFromNoWrap(m', i);
    } else {
      MergeFromNoWrap(m, i + 1);
    }
  }

  lemma MergedLookup(x: Entry, y: Entry, p: nat)
    requires Mergeable(x, y)
    ensures Lookup([Merged(x, y)], p) == Lookup([x, y], p)
  {
    assert [x, y] == [x] + [y];
    LookupConcat([x], [y], p);
    LookupSingle(x, p);
    LookupSingle(y, p);
    LookupSingle(Merged(x, y), p);
  }

  /** Merging two touching same-type neighbours changes nothing about the table's meaning. */
  lemma MergeStep(m: seq<Entry>, i: nat)
    requires WellFormed(m) && i + 1 < |m| && Mergeable(m[i], m[i + 1])
    ensures var m' := m[..i] + [Merged(m[i], m[i + 1])] + m[i + 2..];
      WellFormed(m') && forall p: nat :: Lookup(m', p) == Lookup(m, p)
  {
    var pre, post := m[..i], m[i + 2..];
    var x, y := m[i], m[i + 1];
    var z := Merged(x, y);
    assert m == pre + [x, y] + post;
    SortedAround(m, i);
    SortedAround(m, i + 1);
    assert m[i + 1..] == [y] + post;
    assert AllAbove(post, End(y));
    assert End(y) < U64 by { assert y in m; }
    ReplaceRun(pre, [x, y], [z], post, x.addr, End(y));
    forall p: nat ensures Lookup(pre + [z] + post, p) == Lookup(m, p) {
      LookupConcat3(pre, [z], post, p);
      LookupConcat3(pre, [x, y], post, p);
      MergedLookup(x, y, p);
    }
  }

  lemma {:induction false} MergeFromPreserves(m: seq<Entry>, i: nat)
    requires WellFormed(m)
    ensures WellFormed(MergeFrom(m, i)) && forall p: nat :: Lookup(MergeFrom(m, i), p) == Lookup(m, p)
    decreases |m|, |m| - i
  {
    if i + 1 >= |m| {
    } else if Mergeable(m[i], m[i + 1]) {
      MergeStep(m, i);
      MergeFromPreserves(m[..i] + [Merged(m[i], m[i + 1])] + m[i + 2..], i);
    } else {
      MergeFromPreserves(m, i + 1);
    }
  }

  /**
   * e820_change_range_type on table m with room for cap entries: None when
   * it returns 0 and leaves the table alone, Some(new table) when it returns 1.
   */
  function ChangeRangeTypeSpec(m: seq<Entry>, cap: nat, s: nat, e: nat, orig: nat, newType: nat): Option<seq<Entry>>
    requires s < e
  {
    var i := FindContaining(m, s, e);
    if i == |m| || m[i].kind != orig then None
    else
      var pieces := SplitPieces(m[i], s, e, newType);
      if |m| + |pieces| - 1 > cap then None
      else Some(MergeFrom(m[..i] + pieces + m[i + 1..], 0))
  }

  /**
   * A successful type change of a well-formed table gives [s, e) the new
   * type, leaves every other address as it was, keeps the table
   * well-formed and leaves no two neighbours that could be merged.
   */
  lemma ChangeRangeTypeRetypes(m: seq<Entry>, cap: nat, s: nat, e: nat, orig: nat, newType: nat)
    requires WellFormed(m) && s < e
    requires ChangeRangeTypeSpec(m, cap, s, e, orig, newType).Some?
    ensures var r := ChangeRangeTypeSpec(m, cap, s, e, orig, newType).value;
      WellFormed(r) && NoMergeableBefore(r, |r|) &&
      forall p: nat :: Lookup(r, p) == if s <= p < e then Some(newType) else Lookup(m, p)
  {
    var i := FindContaining(m, s, e);
    var x := m[i];
    var pieces := SplitPieces(x, s, e, newType);
    var pre, post := m[..i], m[i + 1..];
    var split := pre + pieces + post;
    assert m == pre + [x] + post;
    assert x in m;
    SplitPiecesFacts(x, s, e, newType);
    SortedAround(m, i);
    ReplaceRun(pre, [x], pieces, post, x.addr, End(x));
    forall p: nat ensures Lookup(split, p) == if s <= p < e then Some(newType) else Lookup(m, p) {
      LookupConcat3(pre, pieces, post, p);
      LookupConcat3(pre, [x], post, p);
      if s <= p < e {
        LookupBelow(pre, x.addr, p);
      }
    }
    MergeFromPreserves(split, 0);
    MergeFromLeavesNoMergeable(split, 0);
  }

  /** The converse: an entry of the expected type holding [s, e), and room for two more entries, is enough. */
  lemma ChangeRangeTypeSucceeds(m: seq<Entry>, cap: nat, s: nat, e: nat, orig: nat, newType: nat, i: nat)
    requires WellFormed(m) && i < |m| && m[i].addr <= s < e <= End(m[i])
    requires m[i].kind == orig && |m| + 2 <= cap
    ensures ChangeRangeTypeSpec(m, cap, s, e, orig, newType).Some?
  {
    FindContainingAt(m, i, s, e);
  }

  /**
   * Replacing entry i of a well-formed table by pieces lying inside it
   * changes Lookup only at the addresses entry i held.
   */
  lemma ReplaceOne(m: seq<Entry>, i: nat, mid2: seq<Entry>)
    requires WellFormed(m) && i < |m| && WellFormed(mid2)
    requires forall y | y in mid2 :: m[i].addr <= y.addr && End(y) <= End(m[i])
    ensures WellFormed(m[..i] + mid2 + m[i + 1..])
    ensures forall p: nat ::
      Lookup(m[..i] + mid2 + m[i + 1..], p) == (if Holds(m[i], p) then Lookup(mid2, p) else Lookup(m, p))
  {
    var pre, x, post := m[..i], m[i], m[i + 1..];
    assert m == pre + [x] + post;
    SortedAround(m, i);
    ReplaceRun(pre, [x], mid2, post, x.addr, End(x));
    forall p: nat ensures Lookup(pre + mid2 + post, p) == if Holds(x, p) then Lookup(mid2, p) else Lookup(m, p) {
      LookupConcat3(pre, mid2, post, p);
      LookupConcat3(pre, [x], post, p);
      LookupSingle(x, p);
      if Holds(x, p) {
        LookupBelow(pre, x.addr, p);
        LookupAbove(post, End(x), p);
      } else {
        assert !Covers(mid2, p);
      }
    }
  }

  // ---------------------------------------------------------------------
  // e820_add_range (e820.c:537-583)
  // ---------------------------------------------------------------------

  /** Where the walk of e820_add_range stops, and what it decides there. */
  datatype AddStep = ExtendDown(at: nat) | ExtendUp(at: nat) | Insert(at: nat) | Overlap(at: nat)

  /** The walk of e820_add_range over the table from entry i on (e820.c:540-563). */
  function AddRangeWalk(m: seq<Entry>, s: nat, e: nat, t: nat, i: nat): (r: AddStep)
    requires i <= |m|
    ensures i <= r.at <= |m|
    ensures forall j | i <= j < r.at :: End(m[j]) <= s
    ensures r.ExtendDown? ==> r.at < |m| && m[r.at].addr == e && m[r.at].kind == t
    ensures r.ExtendUp? ==>
      r.at < |m| && End(m[r.at]) == s && m[r.at].kind == t && (r.at + 1 == |m| || m[r.at + 1].addr >= e)
    ensures r.Insert? ==> r.at == |m| || m[r.at].addr >= e
    ensures r.Overlap? ==> r.at < |m| && m[r.at].addr < e && s < End(m[r.at])
    decreases |m| - i
  {
    if i == |m| then Insert(i)
    else if m[i].addr == e && m[i].kind == t then ExtendDown(i)
    else if End(m[i]) == s && m[i].kind == t && (i + 1 == |m| || m[i + 1].addr >= e) then ExtendUp(i)
    else if m[i].addr >= e then Insert(i)
    else if End(m[i]) > s then Overlap(i)
    else AddRangeWalk(m, s, e, t, i + 1)
  }

  /**
   * e820_add_range as it is evidently meant to work: None when it returns 0,
   * Some(new table) when it returns 1.  An abutting entry of the same type
   * grows to take in [s, e); otherwise [s, e) is inserted in address order
   * if it overlaps nothing and the table has room.
   */
  function AddRangeSpec(m: seq<Entry>, cap: nat, s: nat, e: nat, t: nat): (r: Option<seq<Entry>>)
    requires s < e
    ensures r == None ==> |m| >= cap || exists x | x in m :: x.addr < e && s < End(x)
  {
    match AddRangeWalk(m, s, e, t, 0)
    case ExtendDown(i) => Some(m[i := Entry(s, End(m[i]) - s, t)])
    case ExtendUp(i) => Some(m[i := Entry(m[i].addr, m[i].size + (e - s), t)])
    case Insert(i) => if |m| >= cap then None else Some(m[..i] + [Entry(s, e - s, t)] + m[i..])
    case Overlap(i) => assert m[i] in m; None
  }

  /**
   * e820_add_range as written: when [s, e) abuts an entry of the same type
   * from below, line 549 moves the entry's start down to s but keeps its
   * size, so the entry slides down instead of growing.
   */
  function AddRangeAsWritten(m: seq<Entry>, cap: nat, s: nat, e: nat, t: nat): Option<seq<Entry>>
    requires s < e
  {
    match AddRangeWalk(m, s, e, t, 0)
    case ExtendDown(i) => Some(m[i := m[i].(addr := s)])
    case _ => AddRangeSpec(m, cap, s, e, t)
  }

  /** The slide loses coverage: the top of the old entry is no longer mapped. */
  lemma AddRangeAsWrittenLosesRange()
    ensures var m := [Entry(0x2000, 0x1000, RAM)];
      var r := AddRangeAsWritten(m, 8, 0x1000, 0x2000, RAM);
      r == Some([Entry(0x1000, 0x1000, RAM)]) &&
      Lookup(m, 0x2800) == Some(RAM) && Lookup(r.value, 0x2800) == None &&
      AddRangeSpec(m, 8, 0x1000, 0x2000, RAM) == Some([Entry(0x1000, 0x2000, RAM)])
  {
    var m := [Entry(0x2000, 0x1000, RAM)];
    assert AddRangeWalk(m, 0x1000, 0x2000, RAM, 0) == ExtendDown(0);
    assert m[0 := m[0].(addr := 0x1000)] == [Entry(0x1000, 0x1000, RAM)];
    LookupSingle(Entry(0x1000, 0x1000, RAM), 0x2800);
    LookupSingle(m[0], 0x2800);
    assert m[0 := Entry(0x1000, End(m[0]) - 0x1000, RAM)] == [Entry(0x1000, 0x2000, RAM)];
  }

  /** A table is the entries before i, entry i and the entries after it. */
  lemma UpdateSplit(m: seq<Entry>, i: nat, z: Entry)
    requires i < |m|
    ensures m == m[..i] + [m[i]] + m[i + 1..] && m[i := z] == m[..i] + [z] + m[i + 1..]
  {
  }

  /** Growing entry i down to s (the ExtendDown case of the corrected add). */
  lemma AddExtendDown(m: seq<Entry>, i: nat, s: nat, e: nat, t: nat)
    requires WellFormed(m) && i < |m| && s < e && m[i].addr == e && m[i].kind == t
    requires AllBelow(m[..i], s)
    ensures var r := m[i := Entry(s, End(m[i]) - s, t)];
      WellFormed(r) && forall p: nat :: Lookup(r, p) == (if s <= p < e then Some(t) else Lookup(m, p))
  {
    var pre, x, post := m[..i], m[i], m[i + 1..];
    UpdateSplit(m, i, Entry(s, End(x) - s, t));
    ExtendDownShape(pre, x, post, s, e, t);
    ExtendDownMap(pre, x, post, s, e, t);
  }

  lemma ExtendDownShape(pre: seq<Entry>, x: Entry, post: seq<Entry>, s: nat, e: nat, t: nat)
    requires WellFormed(pre + [x] + post) && AllBelow(pre, s) && s < e && x.addr == e
    ensures WellFormed(pre + [Entry(s, End(x) - s, t)] + post)
  {
    var m := pre + [x] + post;
    assert m[|pre|] == x && m[..|pre|] == pre && m[|pre| + 1..] == post;
    SortedAround(m, |pre|);
    assert End(x) < U64 by { assert x in m; }
    ReplaceRun(pre, [x], [Entry(s, End(x) - s, t)], post, s, End(x));
  }

  lemma ExtendDownMap(pre: seq<Entry>, x: Entry, post: seq<Entry>, s: nat, e: nat, t: nat)
    requires AllBelow(pre, s) && s < e && x.addr == e && x.kind == t
    ensures var r, m := pre + [Entry(s, End(x) - s, t)] + post, pre + [x] + post;
      forall p: nat :: Lookup(r, p) == (if s <= p < e then Some(t) else Lookup(m, p))
  {
    var r, m := pre + [Entry(s, End(x) - s, t)] + post, pre + [x] + post;
    forall p: nat ensures Lookup(r, p) == (if s <= p < e then Some(t) else Lookup(m, p)) {
      ExtendDownLookup(pre, x, post, s, e, t, p);
    }
  }

  lemma ExtendDownLookup(pre: seq<Entry>, x: Entry, post: seq<Entry>, s: nat, e: nat, t: nat, p: nat)
    requires AllBelow(pre, s) && s < e && x.addr == e && x.kind == t
    ensures Lookup(pre + [Entry(s, End(x) - s, t)] + post, p) ==
      if s <= p < e then Some(t) else Lookup(pre + [x] + post, p)
  {
    LookupMid(pre, Entry(s, End(x) - s, t), post, p);
    LookupMid(pre, x, post, p);
    if s <= p { LookupBelow(pre, s, p); }
  }

  /** Growing entry i up to e (the ExtendUp case). */
  lemma AddExtendUp(m: seq<Entry>, i: nat, s: nat, e: nat, t: nat)
    requires WellFormed(m) && i < |m| && s < e && e < U64 && End(m[i]) == s && m[i].kind == t
    requires i + 1 == |m| || m[i + 1].addr >= e
    ensures var r := m[i := Entry(m[i].addr, m[i].size + (e - s), t)];
      WellFormed(r) && forall p: nat :: Lookup(r, p) == (if s <= p < e then Some(t) else Lookup(m, p))
  {
    var pre, x, post := m[..i], m[i], m[i + 1..];
    UpdateSplit(m, i, Entry(x.addr, x.size + (e - s), t));
    if i + 1 < |m| {
      AboveFrom(m, i + 1, e);
    }
    ExtendUpShape(pre, x, post, s, e, t);
    ExtendUpMap(pre, x, post, s, e, t);
  }

  /** In a well-formed table everything from an entry starting at or above e on lies above e. */
  lemma AboveFrom(m: seq<Entry>, j: nat, e: nat)
    requires WellFormed(m) && j < |m| && m[j].addr >= e
    ensures AllAbove(m[j..], e)
  {
    SortedAround(m, j);
    assert m[j..] == [m[j]] + m[j + 1..];
    assert m[j] in m;
  }

  lemma ExtendUpShape(pre: seq<Entry>, x: Entry, post: seq<Entry>, s: nat, e: nat, t: nat)
    requires WellFormed(pre + [x] + post) && e < U64 && End(x) == s < e && AllAbove(post, e)
    ensures WellFormed(pre + [Entry(x.addr, x.size + (e - s), t)] + post) && AllBelow(pre, x.addr)
  {
    var m := pre + [x] + post;
    assert m[|pre|] == x && m[..|pre|] == pre;
    SortedAround(m, |pre|);
    assert x.size > 0 by { assert x in m; }
    ReplaceRun(pre, [x], [Entry(x.addr, x.size + (e - s), t)], post, x.addr, e);
  }

  lemma ExtendUpMap(pre: seq<Entry>, x: Entry, post: seq<Entry>, s: nat, e: nat, t: nat)
    requires AllBelow(pre, x.addr) && AllAbove(post, e) && End(x) == s < e && x.kind == t
    ensures var r, m := pre + [Entry(x.addr, x.size + (e - s), t)] + post, pre + [x] + post;
      forall p: nat :: Lookup(r, p) == (if s <= p < e then Some(t) else Lookup(m, p))
  {
    var r, m := pre + [Entry(x.addr, x.size + (e - s), t)] + post, pre + [x] + post;
    forall p: nat ensures Lookup(r, p) == (if s <= p < e then Some(t) else Lookup(m, p)) {
      ExtendUpLookup(pre, x, post, s, e, t, p);
    }
  }

  lemma ExtendUpLookup(pre: seq<Entry>, x: Entry, post: seq<Entry>, s: nat, e: nat, t: nat, p: nat)
    requires AllBelow(pre, x.addr) && AllAbove(post, e) && End(x) == s < e && x.kind == t
    ensures Lookup(pre + [Entry(x.addr, x.size + (e - s), t)] + post, p) ==
      if s <= p < e then Some(t) else Lookup(pre + [x] + post, p)
  {
    LookupMid(pre, Entry(x.addr, x.size + (e - s), t), post, p);
    LookupMid(pre, x, post, p);
    if x.addr <= p { LookupBelow(pre, x.addr, p); }
    if p < e { LookupAbove(post, e, p); }
  }

  /** Inserting [s, e) before entry i (the Insert case). */
  lemma AddInsert(m: seq<Entry>, i: nat, s: nat, e: nat, t: nat)
    requires WellFormed(m) && i <= |m| && s < e && e < U64
    requires AllBelow(m[..i], s) && (i == |m| || m[i].addr >= e)
    ensures var r := m[..i] + [Entry(s, e - s, t)] + m[i..];
      WellFormed(r) && forall p: nat :: Lookup(r, p) == (if s <= p < e then Some(t) else Lookup(m, p))
  {
    var pre, post := m[..i], m[i..];
    var z := Entry(s, e - s, t);
    var r := pre + [z] + post;
    assert m == pre + [] + post;
    assert AllAbove(post, e) by {
      if i < |m| {
        SortedAround(m, i);
        assert post == [m[i]] + m[i + 1..];
      }
    }
    ReplaceRun(pre, [], [z], post, s, e);
    forall p: nat ensures Lookup(r, p) == (if s <= p < e then Some(t) else Lookup(m, p)) {
      LookupConcat3(pre, [z], post, p);
      LookupConcat3(pre, [], post, p);
      LookupSingle(z, p);
      if s <= p < e {
        LookupBelow(pre, s, p);
        LookupAbove(post, e, p);
      }
    }
  }

  /**
   * A successful add on a well-formed table maps [s, e) with type t, leaves
   * every other address as it was, and keeps the table well-formed.
   */
  lemma AddRangeSound(m: seq<Entry>, cap: nat, s: nat, e: nat, t: nat)
    requires WellFormed(m) && s < e && e < U64
    requires AddRangeSpec(m, cap, s, e, t).Some?
    ensures var r := AddRangeSpec(m, cap, s, e, t).value;
      WellFormed(r) && forall p: nat :: Lookup(r, p) == (if s <= p < e then Some(t) else Lookup(m, p))
  {
    var step := AddRangeWalk(m, s, e, t, 0);
    var i := step.at;
    assert AllBelow(m[..i], s) by {
      forall x | x in m[..i] ensures End(x) <= s { var j :| 0 <= j < i && m[..i][j] == x; }
    }
    match step {
      case ExtendDown(_) =>
        assert AddRangeSpec(m, cap, s, e, t).value == m[i := Entry(s, End(m[i]) - s, t)];
        AddExtendDown(m, i, s, e, t);
      case ExtendUp(_) =>
        assert AddRangeSpec(m, cap, s, e, t).value == m[i := Entry(m[i].addr, m[i].size + (e - s), t)];
        AddExtendUp(m, i, s, e, t);
      case Insert(_) =>
        assert AddRangeSpec(m, cap, s, e, t).value == m[..i] + [Entry(s, e - s, t)] + m[i..];
        AddInsert(m, i, s, e, t);
    }
  }

  // ---------------------------------------------------------------------
  // clip_to_limit (e820.c:366-419): bytes of RAM at or above the limit
  // ---------------------------------------------------------------------

  function RamAboveEntry(x: Entry, limit: nat): nat {
    if x.kind == RAM && End(x) > limit then End(x) - (if x.addr > limit then x.addr else limit) else 0
  }

  /** Bytes of RAM the table places at or above limit: what clip_to_limit drives to zero. */
  function RamAbove(m: seq<Entry>, limit: nat): nat {
    if m == [] then 0 else RamAboveEntry(m[0], limit) + RamAbove(m[1..], limit)
  }

  lemma {:induction false} RamAboveConcat(a: seq<Entry>, b: seq<Entry>, limit: nat)
    ensures RamAbove(a + b, limit) == RamAbove(a, limit) + RamAbove(b, limit)
  {
    if a == [] {
      assert a + b == b;
    } else {
      assert (a + b)[1..] == a[1..] + b;
      RamAboveConcat(a[1..], b, limit);
    }
  }

  lemma RamAboveReplace(m: seq<Entry>, i: nat, mid2: seq<Entry>, limit: nat)
    requires i < |m|
    ensures RamAbove(m[..i] + mid2 + m[i + 1..], limit) + RamAboveEntry(m[i], limit) ==
      RamAbove(m, limit) + RamAbove(mid2, limit)
  {
    assert m == m[..i] + [m[i]] + m[i + 1..];
    RamAboveConcat(m[..i] + mid2, m[i + 1..], limit);
    RamAboveConcat(m[..i], mid2, limit);
    RamAboveConcat(m[..i] + [m[i]], m[i + 1..], limit);
    RamAboveConcat(m[..i], [m[i]], limit);
    assert [m[i]][1..] == [];
  }

  lemma {:induction false} MergeFromRamAbove(m: seq<Entry>, i: nat, limit: nat)
    ensures RamAbove(MergeFrom(m, i), limit) == RamAbove(m, limit)
    decreases |m|, |m| - i
  {
    if i + 1 >= |m| {
    } else if Mergeable(m[i], m[i + 1]) {
      var z := Merged(m[i], m[i + 1]);
      var m' := m[..i] + [z] + m[i + 2..];
      assert m' == m[..i + 1][..i] + [z] + m[i + 1..][1..];
      assert m[..i + 1] + m[i + 1..] == m;
      RamAboveConcat(m[..i] + [z], m[i + 2..], limit);
      RamAboveConcat(m[..i], [z], limit);
      RamAboveConcat(m[..i] + [m[i], m[i + 1]], m[i + 2..], limit);
      RamAboveConcat(m[..i], [m[i], m[i + 1]], limit);
      assert m == m[..i] + [m[i], m[i + 1]] + m[i + 2..];
      assert [z][1..] == [] && [m[i], m[i + 1]][1..] == [m[i + 1]] && [m[i + 1]][1..] == [];
      MergeFromRamAbove(m', i, limit);
    } else {
      MergeFromRamAbove(m, i + 1, limit);
    }
  }

  /**
   * What one round of clip_to_limit may do to the table: it stays
   * well-formed, nothing below the limit changes, and at or above the limit
   * only RAM changes, to UNUSABLE or to unmapped.
   */
  ghost predicate ClipsTo(m: seq<Entry>, r: seq<Entry>, limit: nat) {
    WellFormed(r) &&
    (forall p: nat :: p < limit ==> Lookup(r, p) == Lookup(m, p)) &&
    (forall p: nat :: limit <= p ==> ClipRelated(Lookup(m, p), Lookup(r, p)))
  }

  /** How clip_to_limit may change the type of an address at or above the limit. */
  predicate ClipRelated(before: Option<nat>, after: Option<nat>) {
    if before == Some(RAM) then after in {Some(RAM), Some(UNUSABLE), None} else after == before
  }

  /** Start of the part of x at or above limit. */
  function ClipStart(x: Entry, limit: nat): nat {
    if x.addr > limit then x.addr else limit
  }

  /**
   * First way clip_to_limit removes RAM entry i above the limit
   * (e820.c:385-391): the part from the limit up becomes UNUSABLE.
   */
  lemma ClipsToTrans(a: seq<Entry>, b: seq<Entry>, c: seq<Entry>, limit: nat)
    requires ClipsTo(a, b, limit) && ClipsTo(b, c, limit)
    ensures ClipsTo(a, c, limit)
  {
  }

  lemma ClipByRetype(m: seq<Entry>, cap: nat, i: nat, limit: nat)
    requires WellFormed(m) && i < |m| && m[i].kind == RAM && End(m[i]) > limit
    requires ChangeRangeTypeSpec(m, cap, ClipStart(m[i], limit), End(m[i]), RAM, UNUSABLE).Some?
    ensures var r := ChangeRangeTypeSpec(m, cap, ClipStart(m[i], limit), End(m[i]), RAM, UNUSABLE).value;
      ClipsTo(m, r, limit) && RamAbove(r, limit) < RamAbove(m, limit)
  {
    var x := m[i];
    var s := ClipStart(x, limit);
    assert x in m;
    ChangeRangeTypeRetypes(m, cap, s, End(x), RAM, UNUSABLE);
    forall p: nat | s <= p < End(x) ensures Lookup(m, p) == Some(RAM) {
      LookupAt(m, i, p);
    }
    ClipRetypeShrinks(m, cap, i, limit);
  }

  lemma ClipRetypeShrinks(m: seq<Entry>, cap: nat, i: nat, limit: nat)
    requires WellFormed(m) && i < |m| && m[i].kind == RAM && End(m[i]) > limit
    requires ChangeRangeTypeSpec(m, cap, ClipStart(m[i], limit), End(m[i]), RAM, UNUSABLE).Some?
    ensures RamAbove(ChangeRangeTypeSpec(m, cap, ClipStart(m[i], limit), End(m[i]), RAM, UNUSABLE).value, limit)
      < RamAbove(m, limit)
  {
    var x := m[i];
    var s := ClipStart(x, limit);
    assert x in m;
    FindContainingAt(m, i, s, End(x));
    var pieces := SplitPieces(x, s, End(x), UNUSABLE);
    ClipPiecesNoRam(x, limit);
    RamAboveReplace(m, i, pieces, limit);
    MergeFromRamAbove(m[..i] + pieces + m[i + 1..], 0, limit);
  }

  /** Retyping the part of a RAM entry x at or above limit leaves no RAM above limit in its pieces. */
  lemma ClipPiecesNoRam(x: Entry, limit: nat)
    requires x.kind == RAM && x.size > 0 && End(x) > limit
    ensures RamAbove(SplitPieces(x, ClipStart(x, limit), End(x), UNUSABLE), limit) == 0
  {
    var pieces := SplitPieces(x, ClipStart(x, limit), End(x), UNUSABLE);
    if x.addr >= limit {
      assert pieces == [Entry(x.addr, x.size, UNUSABLE)];
      assert RamAbove(pieces, limit) == RamAboveEntry(pieces[0], limit) + RamAbove([], limit) by {
        assert pieces[1..] == [];
      }
    } else {
      assert pieces == [Entry(x.addr, limit - x.addr, RAM), Entry(limit, End(x) - limit, UNUSABLE)];
      assert RamAbove(pieces[1..], limit) == RamAboveEntry(pieces[1], limit) + RamAbove([], limit) by {
        assert pieces[1..][1..] == [];
      }
    }
  }

  /**
   * On a well-formed table the retype always succeeds for a RAM entry that
   * starts at or above the limit: the whole entry changes type, which needs
   * no free slot.  So the fallback that deletes such an entry
   * (e820.c:402-406) is not reached on a well-formed table.
   */
  lemma ClipRetypeWholeFits(m: seq<Entry>, cap: nat, i: nat, limit: nat)
    requires WellFormed(m) && i < |m| && m[i].kind == RAM && m[i].addr >= limit && |m| <= cap
    ensures ChangeRangeTypeSpec(m, cap, ClipStart(m[i], limit), End(m[i]), RAM, UNUSABLE).Some?
  {
    assert m[i] in m;
    FindContainingAt(m, i, m[i].addr, End(m[i]));
  }

  /**
   * Second way, when the type change does not fit (e820.c:392-407): the
   * entry is cut short at the limit, or dropped if it starts above it.
   */
  function ClipCut(m: seq<Entry>, i: nat, limit: nat): seq<Entry>
    requires i < |m|
  {
    m[..i] + (if m[i].addr < limit then [Entry(m[i].addr, limit - m[i].addr, m[i].kind)] else []) + m[i + 1..]
  }

  /** Cutting an entry that starts below the limit rewrites it in place. */
  lemma CutInPlace(m: seq<Entry>, i: nat, limit: nat)
    requires i < |m| && m[i].addr < limit
    ensures ClipCut(m, i, limit) == m[i := Entry(m[i].addr, limit - m[i].addr, m[i].kind)]
  {
    UpdateSplit(m, i, Entry(m[i].addr, limit - m[i].addr, m[i].kind));
  }

  lemma ClipByCut(m: seq<Entry>, i: nat, limit: nat)
    requires WellFormed(m) && i < |m| && m[i].kind == RAM && End(m[i]) > limit
    ensures ClipsTo(m, ClipCut(m, i, limit), limit) && RamAbove(ClipCut(m, i, limit), limit) < RamAbove(m, limit)
  {
    var x := m[i];
    assert x in m;
    var mid2 := if x.addr < limit then [Entry(x.addr, limit - x.addr, x.kind)] else [];
    assert RamAbove(mid2, limit) == 0 by {
      if mid2 != [] { assert mid2[1..] == []; }
    }
    var r := ClipCut(m, i, limit);
    assert r == m[..i] + mid2 + m[i + 1..];
    ReplaceOne(m, i, mid2);
    RamAboveReplace(m, i, mid2, limit);
    forall p: nat
      ensures p < limit ==> Lookup(r, p) == Lookup(m, p)
      ensures limit <= p ==> ClipRelated(Lookup(m, p), Lookup(r, p))
    {
      if Holds(x, p) {
        LookupAt(m, i, p);
        if mid2 != [] { LookupSingle(mid2[0], p); }
      }
    }
  }

  // ---------------------------------------------------------------------
  // copy_e820_map (e820.c:306-339) and find_max_pfn (e820.c:345-364)
  // ---------------------------------------------------------------------

  /** On bare metal, p lies in the 640K-1M legacy hole and x is RAM. */
  predicate InHole(x: Entry, bareMetal: bool, p: nat) {
    bareMetal && x.kind == RAM && LEGACY_HOLE_START <= p < LEGACY_HOLE_END
  }

  /**
   * The entries copy_e820_map adds for one firmware entry: on bare metal a
   * RAM entry loses whatever part of it falls in the 640K-1M hole.
   */
  function LegacyFixup(x: Entry, bareMetal: bool): (r: seq<Entry>)
    ensures forall y | y in r :: y.kind == x.kind && x.addr <= y.addr && End(y) <= End(x)
    ensures forall p: nat :: Covers(r, p) <==> Holds(x, p) && !InHole(x, bareMetal, p)
  {
    if bareMetal && x.kind == RAM && x.addr < LEGACY_HOLE_END && End(x) > LEGACY_HOLE_START then
      var low := if x.addr < LEGACY_HOLE_START then [Entry(x.addr, LEGACY_HOLE_START - x.addr, x.kind)] else [];
      var high := if End(x) <= LEGACY_HOLE_END then [] else [Entry(LEGACY_HOLE_END, End(x) - LEGACY_HOLE_END, x.kind)];
      assert forall y | y in low + high :: y in low || y in high;
      assert forall p: nat :: Holds(x, p) && !InHole(x, bareMetal, p) ==>
        (p < LEGACY_HOLE_START && low != [] && Holds(low[0], p)) || (p >= LEGACY_HOLE_END && high != [] && Holds(high[0], p));
      low + high
    else
      [x]
  }

  /** Successive add_memory_region calls: each appends while the table has room (e820.c:75-89). */
  function Append(m: seq<Entry>, cap: nat, adds: seq<Entry>): (r: seq<Entry>)
    requires |m| <= cap
    ensures |m| + |adds| <= cap ==> r == m + adds
    ensures |m| + |adds| > cap ==> r == m + adds[..cap - |m|]
    decreases |adds|
  {
    if adds == [] then m
    else if |m| == cap then Append(m, cap, adds[1..])
    else
      var r := Append(m + [adds[0]], cap, adds[1..]);
      assert m + [adds[0]] + adds[1..] == m + adds;
      assert |m| + |adds| > cap ==> m + [adds[0]] + adds[1..][..cap - |m| - 1] == m + adds[..cap - |m|];
      r
  }

  lemma AppendConcat(m: seq<Entry>, cap: nat, a: seq<Entry>, b: seq<Entry>)
    requires |m| <= cap
    ensures Append(m, cap, a + b) == Append(Append(m, cap, a), cap, b)
  {
    if |m| + |a| <= cap {
      assert m + (a + b) == m + a + b;
      if |m| + |a| + |b| > cap {
        assert (a + b)[..cap - |m|] == a + b[..cap - |m| - |a|];
      }
    } else {
      assert (a + b)[..cap - |m|] == a[..cap - |m|];
      assert b[..0] == [];
    }
  }

  /** Everything copy_e820_map adds for the firmware entries bios, in order. */
  function CopyAdds(bios: seq<Entry>, bareMetal: bool): seq<Entry> {
    if bios == [] then [] else CopyAdds(bios[..|bios| - 1], bareMetal) + LegacyFixup(bios[|bios| - 1], bareMetal)
  }

  /** Index of the first firmware entry whose end overflows 64 bits, or |bios|. */
  function FirstWrap(bios: seq<Entry>): (k: nat)
    ensures k <= |bios|
    ensures k < |bios| ==> bios[k].addr + bios[k].size >= U64
    ensures forall j | 0 <= j < k :: bios[j].addr + bios[j].size < U64
  {
    if bios == [] then 0
    else if bios[0].addr + bios[0].size >= U64 then 0
    else
      var k := FirstWrap(bios[1..]);
      assert forall j | 1 <= j < 1 + k :: bios[j] == bios[1..][j - 1];
      1 + k
  }

  /** Addition of two 64-bit unsigned values, wrapping as the hardware does. */
  function AddU64(a: nat, b: nat): (r: nat)
    requires a < U64 && b < U64
    ensures r < U64
    ensures r == if a + b < U64 then a + b else a + b - U64
  {
    (a + b) % U64
  }

  function PfnUp(x: nat): nat { ((x + PAGE_SIZE - 1) % U64) / PAGE_SIZE }
  function PfnDown(x: nat): nat { x / PAGE_SIZE }

  /** A RAM entry that holds at least one whole page: what find_max_pfn looks at. */
  predicate HasWholePage(x: Entry) { x.kind == RAM && PfnUp(x.addr) < PfnDown(End(x)) }

  // ---------------------------------------------------------------------
  // The table itself: struct e820map
  // ---------------------------------------------------------------------

  class E820Map {
    /** The fixed-size entry array (E820MAX entries) and the number in use. */
    var entries: array<Entry>
    var nrMap: nat

    ghost predicate Valid()
      reads this
    {
      nrMap <= entries.Length
    }

    ghost function Contents(): seq<Entry>
      reads this, entries
      requires Valid()
    {
      entries[..nrMap]
    }

    constructor (capacity: nat)
      ensures Valid() && fresh(entries) && entries.Length == capacity && Contents() == []
    {
      entries := new Entry[capacity](_ => Entry(0, 0, 0));
      nrMap := 0;
    }

    /**
     * e820_all_mapped (e820.c:46-73): on a well-formed table, a non-empty
     * [start, end) is reported mapped exactly when every address in it lies
     * in an entry of type t (any type when t is 0).
     */
    method AllMapped(start: nat, end: nat, t: nat) returns (mapped: bool)
      requires Valid()
      ensures WellFormed(Contents()) && start < end ==> (mapped <==> CoveredBy(Contents(), start, end, t))
    {
      ghost var m := Contents();
      var s := start;
      var i := 0;
      while i < nrMap
        invariant 0 <= i <= nrMap && start <= s
        invariant start < end ==> s < end
        invariant forall p: nat :: start <= p < s ==> HeldBy(m, t, p)
        invariant WellFormed(m) && start < end ==>
          forall j | 0 <= j < i :: !(Matches(m[j], t) && Holds(m[j], s))
      {
        var x := entries[i];
        if !(t != 0 && x.kind != t) && !(x.addr >= end || End(x) <= s) {
          if x.addr <= s {
            forall p: nat | s <= p < End(x) ensures HeldBy(m, t, p) {
              assert Matches(m[i], t) && Holds(m[i], p);
            }
            if WellFormed(m) && start < end {
              forall j | 0 <= j < i ensures !(Matches(m[j], t) && Holds(m[j], End(x))) {
                assert End(m[j]) <= m[i].addr;
              }
            }
            s := End(x);
          }
          if s >= end {
            return true;
          }
        }
        i := i + 1;
      }
      if WellFormed(m) && start < end {
        assert !HeldBy(m, t, s);
      }
      return false;
    }

    /** add_memory_region (e820.c:75-89): append while there is room, otherwise drop the entry. */
    method AddMemoryRegion(start: nat, size: nat, t: nat)
      requires Valid()
      modifies this, entries
      ensures Valid() && entries == old(entries)
      ensures Contents() == Append(old(Contents()), entries.Length, [Entry(start, size, t)])
    {
      if nrMap == entries.Length {
        return;
      }
      entries[nrMap] := Entry(start, size, t);
      nrMap := nrMap + 1;
      assert Contents() == old(Contents()) + [Entry(start, size, t)];
    }

    /** The body of the copy_e820_map loop for one entry that does not wrap (e820.c:320-334). */
    method AddFixedUp(x: Entry, bareMetal: bool)
      requires Valid()
      modifies this, entries
      ensures Valid() && entries == old(entries)
      ensures Contents() == Append(old(Contents()), entries.Length, LegacyFixup(x, bareMetal))
    {
      var start, size, end := x.addr, x.size, x.addr + x.size;
      if bareMetal && x.kind == RAM && start < LEGACY_HOLE_END && end > LEGACY_HOLE_START {
        ghost var low: seq<Entry> := [];
        if start < LEGACY_HOLE_START {
          AddMemoryRegion(start, LEGACY_HOLE_START - start, x.kind);
          low := [Entry(start, LEGACY_HOLE_START - start, x.kind)];
        }
        if end <= LEGACY_HOLE_END {
          assert LegacyFixup(x, bareMetal) == low + [];
          return;
        }
        ghost var mid := Contents();
        start := LEGACY_HOLE_END;
        size := end - start;
        AddMemoryRegion(start, size, x.kind);
        AppendConcat(old(Contents()), entries.Length, low, [Entry(start, size, x.kind)]);
        assert LegacyFixup(x, bareMetal) == low + [Entry(start, size, x.kind)];
      } else {
        AddMemoryRegion(start, size, x.kind);
      }
    }

    /**
     * copy_e820_map (e820.c:306-339): refuses a table of fewer than two
     * entries; otherwise adds each firmware entry (cut around the legacy
     * hole on bare metal) until one whose end overflows 64 bits, which
     * fails the copy with the entries before it already added.
     */
    method CopyE820Map(bios: seq<Entry>, bareMetal: bool) returns (rc: int)
      requires Valid()
      requires forall x | x in bios :: x.addr < U64 && x.size < U64
      modifies this, entries
      ensures Valid() && entries == old(entries)
      ensures |bios| < 2 ==> rc == -1 && Contents() == old(Contents())
      ensures |bios| >= 2 ==>
        var k := FirstWrap(bios);
        rc == (if k < |bios| then -1 else 0) &&
        Contents() == Append(old(Contents()), entries.Length, CopyAdds(bios[..k], bareMetal))
    {
      if |bios| < 2 {
        return -1;
      }
      ghost var m0 := Contents();
      var i := 0;
      assert bios[..0] == [];
      while i < |bios|
        invariant Valid() && entries == old(entries) && |m0| <= entries.Length
        invariant 0 <= i <= FirstWrap(bios)
        invariant Contents() == Append(m0, entries.Length, CopyAdds(bios[..i], bareMetal))
      {
        var x := bios[i];
        var end := AddU64(x.addr, x.size);
        if x.addr > end {
          return -1;
        }
        CopyEntry(bios, i, bareMetal, m0);
        i := i + 1;
      }
      assert bios[..|bios|] == bios;
      return 0;
    }

    /** One round of the copy_e820_map loop: the table grows by the copy of bios[i]. */
    method CopyEntry(bios: seq<Entry>, i: nat, bareMetal: bool, ghost m0: seq<Entry>)
      requires Valid() && |m0| <= entries.Length && i < |bios|
      requires bios[i].addr < U64 && bios[i].size < U64
      requires Contents() == Append(m0, entries.Length, CopyAdds(bios[..i], bareMetal))
      modifies this, entries
      ensures Valid() && entries == old(entries)
      ensures Contents() == Append(m0, entries.Length, CopyAdds(bios[..i + 1], bareMetal))
    {
      AddFixedUp(bios[i], bareMetal);
      assert bios[..i + 1][..i] == bios[..i];
      AppendConcat(m0, entries.Length, CopyAdds(bios[..i], bareMetal), LegacyFixup(bios[i], bareMetal));
    }

    /**
     * find_max_pfn (e820.c:345-364): the highest page frame that ends a RAM
     * entry holding at least one whole page, or 0 if there is none.
     */
    method FindMaxPfn() returns (maxPfn: nat)
      requires Valid()
      ensures forall x | x in Contents() && HasWholePage(x) :: PfnDown(End(x)) <= maxPfn
      ensures maxPfn == 0 || exists x | x in Contents() && HasWholePage(x) :: PfnDown(End(x)) == maxPfn
    {
      maxPfn := 0;
      var i := 0;
      while i < nrMap
        invariant 0 <= i <= nrMap
        invariant forall j | 0 <= j < i && HasWholePage(entries[j]) :: PfnDown(End(entries[j])) <= maxPfn
        invariant maxPfn == 0 || exists j | 0 <= j < i && HasWholePage(entries[j]) :: PfnDown(End(entries[j])) == maxPfn
      {
        if entries[i].kind == RAM {
          var start := PfnUp(entries[i].addr);
          var end := PfnDown(End(entries[i]));
          if start < end && end > maxPfn {
            maxPfn := end;
          }
        }
        i := i + 1;
      }
      assert forall x | x in Contents() :: exists j | 0 <= j < nrMap :: entries[j] == x;
    }

    /** The memmove that opens k slots at index i; what the new slots hold is not specified. */
    method OpenGap(i: nat, k: nat)
      requires Valid() && i <= nrMap && 1 <= k && nrMap + k <= entries.Length
      modifies this, entries
      ensures Valid() && entries == old(entries) && nrMap == old(nrMap) + k
      ensures Contents()[..i] == old(Contents()[..i]) && Contents()[i + k..] == old(Contents()[i..])
    {
      ghost var m := Contents();
      ShiftUp(entries, i, nrMap, k);
      nrMap := nrMap + k;
      GapSlices(Contents(), m, i, k);
    }

    /** The memmove that closes slot i, with the count dropping by one. */
    method RemoveAt(i: nat)
      requires Valid() && i < nrMap
      modifies this, entries
      ensures Valid() && entries == old(entries)
      ensures Contents() == old(Contents()[..i] + Contents()[i + 1..])
    {
      ghost var m := Contents();
      ShiftDown(entries, i, nrMap);
      nrMap := nrMap - 1;
      ClosedSlot(Contents(), m, i);
    }

    /** The search loop of e820_change_range_type (e820.c:592-599). */
    method FindContainingIndex(s: nat, e: nat) returns (i: nat)
      requires Valid()
      ensures i == FindContaining(Contents(), s, e)
    {
      ghost var m := Contents();
      i := 0;
      while i < nrMap
        invariant 0 <= i <= nrMap
        invariant forall j | 0 <= j < i :: !(m[j].addr <= s && e <= End(m[j]))
      {
        if s >= entries[i].addr && e <= End(entries[i]) {
          break;
        }
        i := i + 1;
      }
    }

    /** The merge loop that ends e820_change_range_type (e820.c:650-660). */
    method MergeAdjacent()
      requires Valid()
      modifies this, entries
      ensures Valid() && entries == old(entries)
      ensures Contents() == MergeFrom(old(Contents()), 0)
    {
      ghost var target := MergeFrom(Contents(), 0);
      var k := 0;
      while k + 1 < nrMap
        invariant Valid() && entries == old(entries)
        invariant MergeFrom(Contents(), k) == target
        decreases nrMap, nrMap - k
      {
        if entries[k].kind != entries[k + 1].kind || End(entries[k]) != entries[k + 1].addr {
          k := k + 1;
          continue;
        }
        MergeAt(k);
      }
    }

    /** Entry k absorbs its neighbour k + 1, which closes up behind it (e820.c:655-658). */
    method MergeAt(k: nat)
      requires Valid() && k + 1 < nrMap
      modifies this, entries
      ensures Valid() && entries == old(entries)
      ensures Contents() == old(Contents()[..k] + [Merged(Contents()[k], Contents()[k + 1])] + Contents()[k + 2..])
    {
      ghost var c := Contents();
      entries[k] := Merged(entries[k], entries[k + 1]);
      RemoveAt(k + 1);
      assert Contents() == c[..k] + [Merged(c[k], c[k + 1])] + c[k + 2..];
    }

    /**
     * The split of e820_change_range_type (e820.c:604-645): entry i becomes
     * the pieces of SplitPieces, if the table has room for them.
     */
    method SplitEntry(i: nat, s: nat, e: nat, newType: nat) returns (fits: bool)
      requires Valid() && i < nrMap && entries[i].addr <= s < e <= End(entries[i])
      modifies this, entries
      ensures Valid() && entries == old(entries)
      ensures var pieces := SplitPieces(old(entries[i]), s, e, newType);
        fits == (old(nrMap) + |pieces| - 1 <= entries.Length) &&
        Contents() == if fits then old(Contents()[..i]) + pieces + old(Contents()[i + 1..]) else old(Contents())
    {
      var x := entries[i];
      var rs, re := x.addr, End(x);
      if s == rs && e == re {
        entries[i] := Entry(x.addr, x.size, newType);
      } else if s == rs || e == re {
        if nrMap + 1 > entries.Length {
          return false;
        }
        if s == rs {
          PutTwo(i, Entry(s, e - s, newType), Entry(e, re - e, x.kind));
        } else {
          PutTwo(i, Entry(rs, s - rs, x.kind), Entry(s, e - s, newType));
        }
      } else {
        if nrMap + 2 > entries.Length {
          return false;
        }
        PutThree(i, Entry(rs, s - rs, x.kind), Entry(s, e - s, newType), Entry(e, re - e, x.kind));
      }
      return true;
    }

    /** Entry i becomes the two entries a and b (e820.c:611-627). */
    method PutTwo(i: nat, a: Entry, b: Entry)
      requires Valid() && i < nrMap < entries.Length
      modifies this, entries
      ensures Valid() && entries == old(entries)
      ensures Contents() == old(Contents()[..i]) + [a, b] + old(Contents()[i + 1..])
    {
      ghost var m := Contents();
      OpenGap(i, 1);
      ghost var g := Contents();
      entries[i] := a;
      entries[i + 1] := b;
      assert Contents() == g[i := a][i + 1 := b];
      FillGap2(g, m, i, a, b);
    }

    /** Entry i becomes the three entries a, b and c (e820.c:628-646). */
    method PutThree(i: nat, a: Entry, b: Entry, c: Entry)
      requires Valid() && i < nrMap && nrMap + 2 <= entries.Length
      modifies this, entries
      ensures Valid() && entries == old(entries)
      ensures Contents() == old(Contents()[..i]) + [a, b, c] + old(Contents()[i + 1..])
    {
      ghost var m := Contents();
      OpenGap(i, 2);
      ghost var g := Contents();
      entries[i] := a;
      entries[i + 1] := b;
      entries[i + 2] := c;
      assert Contents() == g[i := a][i + 1 := b][i + 2 := c];
      FillGap3(g, m, i, a, b, c);
    }

    /**
     * e820_change_range_type (e820.c:585-668): retype [s, e) inside the
     * first entry that holds it, if that entry has type orig and the split
     * fits, then merge touching same-type neighbours.
     */
    method ChangeRangeType(s: nat, e: nat, orig: nat, newType: nat) returns (changed: bool)
      requires Valid() && s < e
      modifies this, entries
      ensures Valid() && entries == old(entries)
      ensures var spec := ChangeRangeTypeSpec(old(Contents()), entries.Length, s, e, orig, newType);
        changed == spec.Some? && Contents() == if changed then spec.value else old(Contents())
    {
      ghost var m := Contents();
      var i := FindContainingIndex(s, e);
      if i == nrMap || entries[i].kind != orig {
        return false;
      }
      var fits := SplitEntry(i, s, e, newType);
      if !fits {
        return false;
      }
      MergeAdjacent();
      return true;
    }

    /** reserve_e820_ram (e820.c:671-674): turn RAM in [s, e) into RESERVED. */
    method ReserveE820Ram(s: nat, e: nat) returns (changed: bool)
      requires Valid() && s < e
      modifies this, entries
      ensures Valid() && entries == old(entries)
      ensures var spec := ChangeRangeTypeSpec(old(Contents()), entries.Length, s, e, RAM, RESERVED);
        changed == spec.Some? && Contents() == if changed then spec.value else old(Contents())
    {
      changed := ChangeRangeType(s, e, RAM, RESERVED);
    }

    /** Insert x before entry i, the table having room for it (e820.c:566-575). */
    method InsertAt(i: nat, x: Entry)
      requires Valid() && i <= nrMap < entries.Length
      modifies this, entries
      ensures Valid() && entries == old(entries)
      ensures Contents() == old(Contents()[..i]) + [x] + old(Contents()[i..])
    {
      ghost var m := Contents();
      OpenGap(i, 1);
      ghost var g := Contents();
      entries[i] := x;
      assert Contents() == g[i := x];
      FillGap(g, m, i, x);
    }

    /** The walk of e820_add_range over the table up to its decision (e820.c:540-563). */
    method AddRangeDecide(s: nat, e: nat, t: nat) returns (step: AddStep)
      requires Valid()
      ensures step == AddRangeWalk(Contents(), s, e, t, 0)
    {
      ghost var m := Contents();
      var i := 0;
      while i < nrMap
        invariant 0 <= i <= nrMap
        invariant AddRangeWalk(m, s, e, t, i) == AddRangeWalk(m, s, e, t, 0)
      {
        var rs := entries[i].addr;
        var re := rs + entries[i].size;
        if rs == e && entries[i].kind == t {
          return ExtendDown(i);
        }
        if re == s && entries[i].kind == t && (i + 1 == nrMap || entries[i + 1].addr >= e) {
          return ExtendUp(i);
        }
        if rs >= e {
          return Insert(i);
        }
        if re > s {
          return Overlap(i);
        }
        i := i + 1;
      }
      return Insert(i);
    }

    /** e820_add_range on the global table (e820.c:537-583), as it is evidently meant to work. */
    method AddRange(s: nat, e: nat, t: nat) returns (added: bool)
      requires Valid() && s < e
      modifies this, entries
      ensures Valid() && entries == old(entries)
      ensures var spec := AddRangeSpec(old(Contents()), entries.Length, s, e, t);
        added == spec.Some? && Contents() == if added then spec.value else old(Contents())
    {
      ghost var m := Contents();
      var step := AddRangeDecide(s, e, t);
      match step {
        case ExtendDown(i) =>
          entries[i] := Entry(s, End(entries[i]) - s, t);
          assert Contents() == m[i := Entry(s, End(m[i]) - s, t)];
          added := true;
        case ExtendUp(i) =>
          entries[i] := Entry(entries[i].addr, entries[i].size + (e - s), t);
          assert Contents() == m[i := Entry(m[i].addr, m[i].size + (e - s), t)];
          added := true;
        case Insert(i) =>
          if nrMap >= entries.Length {
            return false;
          }
          InsertAt(i, Entry(s, e - s, t));
          added := true;
        case Overlap(_) =>
          added := false;
      }
    }

    /** One round of clip_to_limit on RAM entry i, which reaches past the limit (e820.c:384-407). */
    method ClipEntry(i: nat, limit: nat)
      requires Valid() && WellFormed(Contents()) && i < nrMap
      requires entries[i].kind == RAM && End(entries[i]) > limit
      modifies this, entries
      ensures Valid() && entries == old(entries)
      ensures ClipsTo(old(Contents()), Contents(), limit)
      ensures RamAbove(Contents(), limit) < RamAbove(old(Contents()), limit)
    {
      ghost var m := Contents();
      var x := entries[i];
      var changed := ChangeRangeType(ClipStart(x, limit), End(x), RAM, UNUSABLE);
      if changed {
        ClipByRetype(m, entries.Length, i, limit);
        return;
      }
      if x.addr < limit {
        entries[i] := Entry(x.addr, limit - x.addr, x.kind);
        assert Contents() == m[i := Entry(x.addr, limit - x.addr, x.kind)];
        CutInPlace(m, i, limit);
        ClipByCut(m, i, limit);
      } else {
        ClipRetypeWholeFits(m, entries.Length, i, limit);
        assert false;
      }
    }

    /** The search of clip_to_limit for a RAM entry reaching past the limit (e820.c:378-383). */
    method FindRamAbove(limit: nat) returns (i: nat)
      requires Valid()
      ensures i <= nrMap
      ensures i < nrMap ==> entries[i].kind == RAM && End(entries[i]) > limit
      ensures i == nrMap ==> forall x | x in Contents() :: x.kind == RAM ==> End(x) <= limit
    {
      i := 0;
      while i < nrMap && !(entries[i].kind == RAM && End(entries[i]) > limit)
        invariant 0 <= i <= nrMap
        invariant forall j | 0 <= j < i :: !(entries[j].kind == RAM && End(entries[j]) > limit)
      {
        i := i + 1;
      }
      if i == nrMap {
        forall x | x in Contents() && x.kind == RAM ensures End(x) <= limit {
          var j :| 0 <= j < nrMap && entries[j] == x;
        }
      }
    }

    /**
     * clip_to_limit (e820.c:366-419): afterwards no RAM lies at or above
     * limit.  Below the limit nothing changes; above it, RAM becomes
     * UNUSABLE where the type change fits and is cut away where it does not,
     * and every other type is kept.
     */
    method ClipToLimit(limit: nat)
      requires Valid() && WellFormed(Contents())
      modifies this, entries
      ensures Valid() && entries == old(entries) && WellFormed(Contents())
      ensures forall x | x in Contents() :: x.kind == RAM ==> End(x) <= limit
      ensures forall p: nat :: p < limit ==> Lookup(Contents(), p) == Lookup(old(Contents()), p)
      ensures forall p: nat :: limit <= p ==>
        if Lookup(old(Contents()), p) == Some(RAM) then Lookup(Contents(), p) in {Some(UNUSABLE), None}
        else Lookup(Contents(), p) == Lookup(old(Contents()), p)
    {
      ghost var m0 := Contents();
      while true
        invariant Valid() && entries == old(entries)
        invariant ClipsTo(m0, Contents(), limit)
        decreases RamAbove(Contents(), limit)
      {
        var i := FindRamAbove(limit);
        if i == nrMap {
          break;
        }
        ghost var m := Contents();
        ClipEntry(i, limit);
        ClipsToTrans(m0, m, Contents(), limit);
      }
    }
  }

  /** memmove(&a[i + k], &a[i], (n - i) entries), copying from the top down. */
  method ShiftUp(a: array<Entry>, i: nat, n: nat, k: nat)
    requires i <= n && 1 <= k && n + k <= a.Length
    modifies a
    ensures forall q {:trigger a[q]} | 0 <= q < i :: a[q] == old(a[q])
    ensures forall q {:trigger a[q]} | i + k <= q < n + k :: a[q] == old(a[q - k])
  {
    var j := n;
    while j > i
      invariant i <= j <= n
      invariant forall q {:trigger a[q]} | 0 <= q < j :: a[q] == old(a[q])
      invariant forall q {:trigger a[q]} | j + k <= q < n + k :: a[q] == old(a[q - k])
    {
      j := j - 1;
      a[j + k] := a[j];
      assert a[j + k] == old(a[j]);
    }
  }

  /** memmove(&a[i], &a[i + 1], (n - i - 1) entries), copying from the bottom up. */
  method ShiftDown(a: array<Entry>, i: nat, n: nat)
    requires i < n <= a.Length
    modifies a
    ensures forall q {:trigger a[q]} | 0 <= q < i :: a[q] == old(a[q])
    ensures forall q {:trigger a[q]} | i <= q < n - 1 :: a[q] == old(a[q + 1])
  {
    var j := i;
    while j + 1 < n
      invariant i <= j < n
      invariant forall q {:trigger a[q]} | 0 <= q < i :: a[q] == old(a[q])
      invariant forall q {:trigger a[q]} | i <= q < j :: a[q] == old(a[q + 1])
      invariant forall q {:trigger a[q]} | j <= q < n :: a[q] == old(a[q])
    {
      a[j] := a[j + 1];
      j := j + 1;
    }
  }

  /** A table that keeps m below i and holds m after i shifted down by one has lost slot i. */
  lemma ClosedSlot(c: seq<Entry>, m: seq<Entry>, i: nat)
    requires |c| + 1 == |m| && i < |m|
    requires forall q | 0 <= q < i :: c[q] == m[q]
    requires forall q | i <= q < |c| :: c[q] == m[q + 1]
    ensures c == m[..i] + m[i + 1..]
  {
  }

  /** A table that keeps m below i and holds m from i on shifted up by k has a k-slot gap at i. */
  lemma GapSlices(c: seq<Entry>, m: seq<Entry>, i: nat, k: nat)
    requires |c| == |m| + k && i <= |m|
    requires forall q | 0 <= q < i :: c[q] == m[q]
    requires forall q | i + k <= q < |c| :: c[q] == m[q - k]
    ensures c[..i] == m[..i] && c[i + k..] == m[i..]
  {
    assert forall q | i + k <= q < |c| :: c[i + k..][q - i - k] == c[q];
  }

  /** Filling the one-slot gap opened at i in m (giving g) inserts x before m[i]. */
  lemma FillGap(g: seq<Entry>, m: seq<Entry>, i: nat, x: Entry)
    requires i < |g| == |m| + 1 && g[..i] == m[..i] && g[i + 1..] == m[i..]
    ensures g[i := x] == m[..i] + [x] + m[i..]
  {
    assert forall q | i < q < |g| :: g[q] == g[i + 1..][q - i - 1];
  }

  /** Writing a and b over slot i and the one-slot gap after it replaces m[i] by a, b. */
  lemma FillGap2(g: seq<Entry>, m: seq<Entry>, i: nat, a: Entry, b: Entry)
    requires i + 1 < |g| == |m| + 1 && g[..i] == m[..i] && g[i + 1..] == m[i..]
    ensures g[i := a][i + 1 := b] == m[..i] + [a, b] + m[i + 1..]
  {
    assert forall q | i + 1 < q < |g| :: g[q] == g[i + 1..][q - i - 1];
  }

  /** Writing a, b and c over slot i and the two-slot gap after it replaces m[i] by a, b, c. */
  lemma FillGap3(g: seq<Entry>, m: seq<Entry>, i: nat, a: Entry, b: Entry, c: Entry)
    requires i + 2 < |g| == |m| + 2 && g[..i] == m[..i] && g[i + 2..] == m[i..]
    ensures g[i := a][i + 1 := b][i + 2 := c] == m[..i] + [a, b, c] + m[i + 1..]
  {
    assert forall q | i + 2 < q < |g| :: g[q] == g[i + 2..][q - i - 2];
  }

  /** Some entry of m of type t (any type when t is 0) holds p. */
  ghost predicate HeldBy(m: seq<Entry>, t: nat, p: nat) {
    exists j :: 0 <= j < |m| && Matches(m[j], t) && Holds(m[j], p)
  }

  /** Every address of [start, end) lies in an entry of type t (any type when t is 0). */
  ghost predicate CoveredBy(m: seq<Entry>, start: nat, end: nat, t: nat) {
    forall p: nat :: start <= p < end ==> HeldBy(m, t, p)
  }
}
