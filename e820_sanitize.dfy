/**
 * sanitize_e820_map (xen/arch/x86/e820.c:124-288): turn a firmware memory
 * map with overlapping entries into a sorted, non-overlapping one in which
 * every address gets the largest type of the entries that cover it.
 *
 * The pointers of the source are modelled by value: a change point carries
 * its BIOS entry together with that entry's index, which stands for the
 * entry's address (pointer equality is equality of BiosRef values).
 */
module E820Sanitize {
  import opened Opt
  import opened E820

  /** A pointer into the BIOS map: the entry's index and the entry itself. */
  datatype BiosRef = BiosRef(idx: nat, entry: Entry)

  /** struct change_member: a start or end address of one BIOS entry. */
  datatype ChangePoint = ChangePoint(addr: nat, pbios: BiosRef)

  predicate IsStart(c: ChangePoint) {
    c.addr == c.pbios.entry.addr
  }

  /** Sort key of a change point: by address, start points before end points. */
  function Key(c: ChangePoint): nat {
    2 * c.addr + (if IsStart(c) then 0 else 1)
  }

  /** The swap test of the change-point sort (e820.c:217-220) compares keys. */
  function OutOfOrder(prev: ChangePoint, cur: ChangePoint): (r: bool)
    ensures r <==> Key(cur) < Key(prev)
  {
    cur.addr < prev.addr || (cur.addr == prev.addr && IsStart(cur) && !IsStart(prev))
  }

  function StartPoint(q: BiosRef): ChangePoint {
    ChangePoint(q.entry.addr, q)
  }

  function EndPoint(q: BiosRef): ChangePoint {
    ChangePoint(End(q.entry), q)
  }

  /** q points at a non-empty entry among bios[..n]. */
  predicate ValidRef(bios: seq<Entry>, n: nat, q: BiosRef) {
    q.idx < n <= |bios| && q.entry == bios[q.idx] && q.entry.size > 0
  }

  predicate Distinct<T(==)>(s: seq<T>) {
    forall i, j | 0 <= i < j < |s| :: s[i] != s[j]
  }

  /** Entry addr + size overflows 64 bits: such a map is refused (e820.c:189-193). */
  predicate Wraps(x: Entry) {
    x.addr + x.size >= U64
  }

  /**
   * The change points recorded for bios[..n] (e820.c:202-212): the start and
   * the end of every non-empty entry, in entry order.
   */
  function ChangePointsOf(bios: seq<Entry>, n: nat): (r: seq<ChangePoint>)
    requires n <= |bios|
    ensures |r| <= 2 * n
  {
    if n == 0 then []
    else if bios[n - 1].size == 0 then ChangePointsOf(bios, n - 1)
    else
      var q := BiosRef(n - 1, bios[n - 1]);
      ChangePointsOf(bios, n - 1) + [StartPoint(q), EndPoint(q)]
  }

  /** Every recorded point is the start or the end of a non-empty entry. */
  lemma {:induction false} ChangePointsValid(bios: seq<Entry>, n: nat)
    requires n <= |bios|
    ensures forall c | c in ChangePointsOf(bios, n) ::
      ValidRef(bios, n, c.pbios) && (c == StartPoint(c.pbios) || c == EndPoint(c.pbios))
  {
    if n > 0 {
      ChangePointsValid(bios, n - 1);
    }
  }

  /** No point is recorded twice. */
  lemma {:induction false} ChangePointsDistinct(bios: seq<Entry>, n: nat)
    requires n <= |bios|
    ensures Distinct(ChangePointsOf(bios, n))
  {
    if n > 0 && bios[n - 1].size != 0 {
      ChangePointsDistinct(bios, n - 1);
      ChangePointsValid(bios, n - 1);
      var prev := ChangePointsOf(bios, n - 1);
      var r := ChangePointsOf(bios, n);
      assert forall i | 0 <= i < |prev| :: r[i] == prev[i] && r[i] in prev && r[i].pbios.idx < n - 1;
    } else if n > 0 {
      ChangePointsDistinct(bios, n - 1);
    }
  }

  /** Both points of every non-empty entry are recorded. */
  lemma {:induction false} ChangePointsComplete(bios: seq<Entry>, n: nat)
    requires n <= |bios|
    ensures forall q: BiosRef | ValidRef(bios, n, q) ::
      StartPoint(q) in ChangePointsOf(bios, n) && EndPoint(q) in ChangePointsOf(bios, n)
  {
    if n > 0 {
      ChangePointsComplete(bios, n - 1);
      forall q: BiosRef | ValidRef(bios, n, q)
        ensures StartPoint(q) in ChangePointsOf(bios, n) && EndPoint(q) in ChangePointsOf(bios, n)
      {
        if q.idx < n - 1 {
          assert ValidRef(bios, n - 1, q);
        }
      }
    }
  }

  /** The recording loop of e820.c:202-212 into a fresh change-point array. */
  method BuildChangePoints(biosmap: array<Entry>, n: nat) returns (cp: array<ChangePoint>, chgNr: nat)
    requires n <= biosmap.Length
    ensures fresh(cp) && chgNr <= cp.Length
    ensures cp[..chgNr] == ChangePointsOf(biosmap[..n], n)
  {
    ghost var bios := biosmap[..n];
    cp := new ChangePoint[2 * n](_ => ChangePoint(0, BiosRef(0, Entry(0, 0, 0))));
    chgNr := 0;
    var i := 0;
    while i < n
      invariant 0 <= i <= n && chgNr <= 2 * i
      invariant cp[..chgNr] == ChangePointsOf(bios, i)
    {
      ghost var before := cp[..chgNr];
      if biosmap[i].size != 0 {
        var q := BiosRef(i, biosmap[i]);
        cp[chgNr] := ChangePoint(biosmap[i].addr, q);
        cp[chgNr + 1] := ChangePoint(biosmap[i].addr + biosmap[i].size, q);
        assert cp[..chgNr + 2] == before + [StartPoint(q), EndPoint(q)];
        chgNr := chgNr + 2;
      }
      i := i + 1;
    }
  }

  // ---------------------------------------------------------------------
  // The change-point sort (e820.c:214-231): bubble sort with a flag
  // ---------------------------------------------------------------------

  predicate KeySorted(s: seq<ChangePoint>) {
    forall i, j | 0 <= i < j < |s| :: Key(s[i]) <= Key(s[j])
  }

  /** s[b..n] is sorted and holds the largest keys of s[..n]. */
  predicate Placed(s: seq<ChangePoint>, n: nat, b: nat) {
    b <= n <= |s| &&
    (forall i, j | b <= i < j < n :: Key(s[i]) <= Key(s[j])) &&
    (forall i, j | 0 <= i < b <= j < n :: Key(s[i]) <= Key(s[j]))
  }

  /** Sorted as soon as every neighbouring pair is in order. */
  lemma {:induction false} AdjacentSorted(s: seq<ChangePoint>)
    requires forall j | 1 <= j < |s| :: Key(s[j - 1]) <= Key(s[j])
    ensures KeySorted(s)
  {
    if |s| > 1 {
      AdjacentSorted(s[..|s| - 1]);
      assert forall i | 0 <= i < |s| - 1 :: Key(s[i]) <= Key(s[|s| - 2]);
    }
  }

  /** cur[..n] is a rearrangement of start[..n], and the rest of cur is that of start. */
  ghost predicate Permuted(start: seq<ChangePoint>, cur: seq<ChangePoint>, n: nat) {
    n <= |cur| == |start| && multiset(cur[..n]) == multiset(start[..n]) && cur[n..] == start[n..]
  }

  /** Swapping two neighbours inside the first n keeps a rearrangement of the first n. */
  lemma SwapPermutes(start: seq<ChangePoint>, cur: seq<ChangePoint>, i: nat, n: nat)
    requires Permuted(start, cur, n) && 1 <= i < n
    ensures Permuted(start, cur[i - 1 := cur[i]][i := cur[i - 1]], n)
  {
    var t := cur[i - 1 := cur[i]][i := cur[i - 1]];
    assert cur[..n] == cur[..i - 1] + [cur[i - 1], cur[i]] + cur[i + 1..n];
    assert t[..n] == cur[..i - 1] + [cur[i], cur[i - 1]] + cur[i + 1..n];
    assert t[n..] == cur[n..];
  }

  /** No key among the first m of cur is larger than that of cur[m - 1]. */
  predicate TopAt(cur: seq<ChangePoint>, m: nat) {
    m <= |cur| && forall j | 0 <= j < m :: Key(cur[j]) <= Key(cur[m - 1])
  }

  /** The first i elements of cur are in key order, neighbour by neighbour. */
  predicate AscendingTo(cur: seq<ChangePoint>, i: nat) {
    i <= |cur| && forall j | 1 <= j < i :: Key(cur[j - 1]) <= Key(cur[j])
  }

  /**
   * The state of a bubble pass over cur[..n] that has reached index i: the
   * placed suffix is still in place, the last element visited before it
   * carries the largest key seen so far, and as long as nothing was swapped
   * the visited part is in order; a swap proves that start was not sorted.
   */
  ghost predicate PassInv(start: seq<ChangePoint>, cur: seq<ChangePoint>, n: nat, i: nat, b: nat, swapped: bool) {
    1 <= i <= n <= |cur| == |start| && 1 <= b &&
    Placed(cur, n, b) &&
    TopAt(cur, if i < b then i else b) &&
    (!swapped ==> cur == start && AscendingTo(cur, i)) &&
    (swapped ==> !KeySorted(start[..n]))
  }

  lemma PassStart(start: seq<ChangePoint>, n: nat, b: nat)
    requires Placed(start, n, b) && 1 <= b <= n
    ensures PassInv(start, start, n, 1, b, false)
  {
  }

  /** Inside the placed suffix the pass finds nothing to swap. */
  lemma NoSwapInPlaced(cur: seq<ChangePoint>, n: nat, i: nat, b: nat)
    requires Placed(cur, n, b) && 1 <= b <= i < n
    ensures Key(cur[i - 1]) <= Key(cur[i])
  {
  }

  /** A swap inside the unplaced prefix keeps the placed suffix placed. */
  lemma SwapKeepsPlaced(cur: seq<ChangePoint>, n: nat, i: nat, b: nat)
    requires Placed(cur, n, b) && 1 <= i < b
    ensures Placed(cur[i - 1 := cur[i]][i := cur[i - 1]], n, b)
  {
    var nxt := cur[i - 1 := cur[i]][i := cur[i - 1]];
    assert forall j | b <= j < n :: nxt[j] == cur[j];
    assert forall j | 0 <= j < b :: nxt[j] == cur[j] || nxt[j] == cur[i] || nxt[j] == cur[i - 1];
  }

  /** Swapping an out-of-order pair carries the largest key seen so far one step on. */
  lemma SwapKeepsTop(cur: seq<ChangePoint>, i: nat)
    requires TopAt(cur, i) && 1 <= i < |cur| && Key(cur[i]) < Key(cur[i - 1])
    ensures TopAt(cur[i - 1 := cur[i]][i := cur[i - 1]], i + 1)
  {
    var nxt := cur[i - 1 := cur[i]][i := cur[i - 1]];
    assert forall j | 0 <= j < i - 1 :: nxt[j] == cur[j];
  }

  /** An in-order pair carries the largest key seen so far one step on. */
  lemma KeepTop(cur: seq<ChangePoint>, i: nat)
    requires TopAt(cur, i) && 1 <= i < |cur| && Key(cur[i - 1]) <= Key(cur[i])
    ensures TopAt(cur, i + 1)
  {
  }

  lemma PassSwap(start: seq<ChangePoint>, cur: seq<ChangePoint>, n: nat, i: nat, b: nat, swapped: bool)
    requires PassInv(start, cur, n, i, b, swapped)
    requires i < n && Key(cur[i]) < Key(cur[i - 1])
    ensures i < b && PassInv(start, cur[i - 1 := cur[i]][i := cur[i - 1]], n, i + 1, b, true)
  {
    if i >= b {
      NoSwapInPlaced(cur, n, i, b);
    }
    SwapKeepsPlaced(cur, n, i, b);
    SwapKeepsTop(cur, i);
    assert !KeySorted(start[..n]) by {
      if !swapped { assert start[..n][i - 1] == cur[i - 1] && start[..n][i] == cur[i]; }
    }
  }

  lemma PassKeep(start: seq<ChangePoint>, cur: seq<ChangePoint>, n: nat, i: nat, b: nat, swapped: bool)
    requires PassInv(start, cur, n, i, b, swapped)
    requires i < n && Key(cur[i - 1]) <= Key(cur[i])
    ensures PassInv(start, cur, n, i + 1, b, swapped)
  {
    if i < b {
      KeepTop(cur, i);
    }
  }

  /** After a full pass the placed suffix has grown by one. */
  lemma PassEnd(start: seq<ChangePoint>, cur: seq<ChangePoint>, n: nat, b: nat, swapped: bool)
    requires PassInv(start, cur, n, n, b, swapped) && b <= n
    ensures Placed(cur, n, b - 1)
    ensures !swapped ==> KeySorted(cur[..n])
  {
    assert TopAt(cur, b);
    if !swapped {
      AdjacentSorted(cur[..n]);
    }
  }

  /** One pass of the bubble sort (e820.c:216-230); swapped is still_changing. */
  method BubblePass(cp: array<ChangePoint>, n: nat, ghost b: nat) returns (swapped: bool)
    requires b <= n && (b == 0 ==> n == 0) && Placed(cp[..], n, b)
    modifies cp
    ensures multiset(cp[..n]) == old(multiset(cp[..n])) && cp[n..] == old(cp[n..])
    ensures Placed(cp[..], n, if b == 0 then 0 else b - 1)
    ensures swapped ==> !KeySorted(old(cp[..n]))
    ensures !swapped ==> KeySorted(cp[..n])
  {
    ghost var start := cp[..];
    swapped := false;
    if n == 0 {
      return;
    }
    var i := 1;
    PassStart(start, n, b);
    while i < n
      invariant Permuted(start, cp[..], n) && PassInv(start, cp[..], n, i, b, swapped)
    {
      swapped := PassStep(cp, n, i, b, start, swapped);
      i := i + 1;
    }
    PassEnd(start, cp[..], n, b, swapped);
  }

  /** One comparison of the pass, with the swap when the pair is out of order (e820.c:220-228). */
  method PassStep(cp: array<ChangePoint>, n: nat, i: nat, ghost b: nat, ghost start: seq<ChangePoint>, swapped: bool)
    returns (swapped': bool)
    requires i < n && Permuted(start, cp[..], n) && PassInv(start, cp[..], n, i, b, swapped)
    modifies cp
    ensures Permuted(start, cp[..], n) && PassInv(start, cp[..], n, i + 1, b, swapped')
  {
    ghost var cur := cp[..];
    if OutOfOrder(cp[i - 1], cp[i]) {
      PassSwap(start, cur, n, i, b, swapped);
      SwapPermutes(start, cur, i, n);
      cp[i - 1], cp[i] := cp[i], cp[i - 1];
      assert cp[..] == cur[i - 1 := cur[i]][i := cur[i - 1]];
      swapped' := true;
    } else {
      PassKeep(start, cur, n, i, b, swapped);
      swapped' := swapped;
    }
  }

  /** The change-point sort: sorted by key and a permutation of its input. */
  method SortChangePoints(cp: array<ChangePoint>, n: nat)
    requires n <= cp.Length
    modifies cp
    ensures KeySorted(cp[..n])
    ensures multiset(cp[..n]) == old(multiset(cp[..n])) && cp[n..] == old(cp[n..])
  {
    var stillChanging := true;
    ghost var b: nat := n;
    while stillChanging
      invariant b <= n && (b == 0 ==> n == 0) && Placed(cp[..], n, b)
      invariant multiset(cp[..n]) == old(multiset(cp[..n])) && cp[n..] == old(cp[n..])
      invariant !stillChanging ==> KeySorted(cp[..n])
      decreases if stillChanging then b + 1 else 0
    {
      stillChanging := BubblePass(cp, n, b);
      if stillChanging {
        assert b >= 2;
        b := b - 1;
      }
    }
  }

  // ---------------------------------------------------------------------
  // The sweep over the sorted change points (e820.c:233-283)
  // ---------------------------------------------------------------------

  /** Largest type on the overlap list, 0 for an empty list (e820.c:257-260). */
  function MaxKind(ov: seq<BiosRef>): (t: nat)
    ensures forall q | q in ov :: q.entry.kind <= t
    ensures t == 0 || exists q | q in ov :: q.entry.kind == t
  {
    if ov == [] then 0
    else
      var t0 := MaxKind(ov[..|ov| - 1]);
      var last := ov[|ov| - 1];
      assert forall q | q in ov :: q in ov[..|ov| - 1] || q == last;
      if last.entry.kind > t0 then last.entry.kind else t0
  }

  /**
   * Removal from the overlap list (e820.c:244-251): every slot holding q
   * takes the last element, then the list shrinks by one.  The source never
   * removes from an empty list (RunInvariant); the model returns [] there.
   */
  function RemoveRef(ov: seq<BiosRef>, q: BiosRef): seq<BiosRef> {
    if ov == [] then []
    else
      var last := ov[|ov| - 1];
      seq(|ov| - 1, j requires 0 <= j < |ov| - 1 => if ov[j] == q then last else ov[j])
  }

  /** Removing a listed reference from a duplicate-free list removes exactly that reference. */
  lemma RemoveRefFacts(ov: seq<BiosRef>, q: BiosRef)
    requires Distinct(ov) && q in ov
    ensures var r := RemoveRef(ov, q);
      |r| == |ov| - 1 && Distinct(r) && forall x :: x in r <==> x in ov && x != q
  {
    var r := RemoveRef(ov, q);
    var i :| 0 <= i < |ov| && ov[i] == q;
    var last := |ov| - 1;
    assert forall j | 0 <= j < last && j != i :: r[j] == ov[j];
    if i < last {
      assert r[i] == ov[last];
    }
    forall x ensures x in r <==> x in ov && x != q {
      if x in ov && x != q {
        var j :| 0 <= j < |ov| && ov[j] == x;
        if j == last {
          assert r[i] == x;
        } else {
          assert r[j] == x;
        }
      }
    }
  }

  /** Unsigned 64-bit subtraction (the size computed at e820.c:265). */
  function SubU64(a: nat, b: nat): (r: nat)
    ensures r < U64
    ensures b <= a < U64 ==> r == a - b
  {
    (a - b) % U64
  }

  /**
   * The sweep's variables between two change points: the overlap list, the
   * completed new_bios entries, last_type and last_addr (the open entry
   * [last_addr, ..) of type last_type when last_type != 0), and whether the
   * loop has broken out because new_bios is full.
   */
  datatype Sweep = Sweep(overlap: seq<BiosRef>, out: seq<Entry>, lastType: nat, lastAddr: nat, full: bool)

  /** The overlap list after change point c (e820.c:241-252). */
  function NewOverlap(ov: seq<BiosRef>, c: ChangePoint): seq<BiosRef> {
    if IsStart(c) then ov + [c.pbios] else RemoveRef(ov, c.pbios)
  }

  /**
   * The new_bios update at change address a once the overlap list is ov
   * (e820.c:253-280): on a change of type, close the open entry (kept only
   * when non-empty, breaking out when new_bios is then full) and open one of
   * the new type unless that type is 0.
   */
  function Emit(s: Sweep, ov: seq<BiosRef>, a: nat, cap: nat): Sweep {
    var cur := MaxKind(ov);
    if cur == s.lastType then s.(overlap := ov)
    else
      var size := SubU64(a, s.lastAddr);
      var out := if s.lastType != 0 && size != 0 then s.out + [Entry(s.lastAddr, size, s.lastType)] else s.out;
      if |out| > |s.out| && |out| >= cap then Sweep(ov, out, s.lastType, s.lastAddr, true)
      else if cur != 0 then Sweep(ov, out, cur, a, false)
      else Sweep(ov, out, cur, s.lastAddr, false)
  }

  /** One iteration of the sweep for change point c (e820.c:239-281). */
  function Step(s: Sweep, c: ChangePoint, cap: nat): Sweep {
    Emit(s, NewOverlap(s.overlap, c), c.addr, cap)
  }

  /** The sweep's state after the first k change points. */
  function Run(cps: seq<ChangePoint>, k: nat, cap: nat): Sweep
    requires k <= |cps|
  {
    if k == 0 then Sweep([], [], 0, 0, false)
    else
      var s := Run(cps, k - 1, cap);
      if s.full then s else Step(s, cps[k - 1], cap)
  }

  /**
   * Reference meaning of the sanitized map: the largest type among the
   * entries of bios[..n] that hold p, 0 when none does.
   */
  function TypeAt(bios: seq<Entry>, n: nat, p: nat): nat
    requires n <= |bios|
  {
    if n == 0 then 0
    else
      var t := TypeAt(bios, n - 1, p);
      if Holds(bios[n - 1], p) && bios[n - 1].kind > t then bios[n - 1].kind else t
  }

  function TypeOpt(t: nat): Option<nat> {
    if t == 0 then None else Some(t)
  }

  /** TypeAt is the largest type of an entry holding p, and is taken by one when non-zero. */
  lemma {:induction false} TypeAtIsMax(bios: seq<Entry>, n: nat, p: nat)
    requires n <= |bios|
    ensures forall q: BiosRef | ValidRef(bios, n, q) && Holds(q.entry, p) :: q.entry.kind <= TypeAt(bios, n, p)
    ensures TypeAt(bios, n, p) == 0 ||
      exists q: BiosRef | ValidRef(bios, n, q) && Holds(q.entry, p) :: q.entry.kind == TypeAt(bios, n, p)
  {
    if n > 0 {
      TypeAtIsMax(bios, n - 1, p);
      forall q: BiosRef | ValidRef(bios, n, q) && Holds(q.entry, p)
        ensures q.entry.kind <= TypeAt(bios, n, p)
      {
        if q.idx < n - 1 {
          assert ValidRef(bios, n - 1, q);
        }
      }
      var t := TypeAt(bios, n, p);
      if t != 0 {
        if t == TypeAt(bios, n - 1, p) {
          var q: BiosRef :| ValidRef(bios, n - 1, q) && Holds(q.entry, p) && q.entry.kind == t;
          assert ValidRef(bios, n, q);
        } else {
          assert ValidRef(bios, n, BiosRef(n - 1, bios[n - 1]));
        }
      }
    }
  }

  /** The overlap list's maximum is TypeAt when the list holds exactly the entries holding p. */
  lemma MaxKindIsTypeAt(bios: seq<Entry>, n: nat, p: nat, ov: seq<BiosRef>)
    requires n <= |bios|
    requires forall q | q in ov :: ValidRef(bios, n, q) && Holds(q.entry, p)
    requires forall q: BiosRef | ValidRef(bios, n, q) && Holds(q.entry, p) :: q in ov
    ensures MaxKind(ov) == TypeAt(bios, n, p)
  {
    TypeAtIsMax(bios, n, p);
    var t := TypeAt(bios, n, p);
    var m := MaxKind(ov);
    if t != 0 {
      var q: BiosRef :| ValidRef(bios, n, q) && Holds(q.entry, p) && q.entry.kind == t;
      assert q in ov;
    }
    if m != 0 {
      var q :| q in ov && q.entry.kind == m;
    }
  }

  /**
   * What the sweep receives: the change points of bios[..n], each once,
   * sorted by key, over a map in which no entry wraps.
   */
  ghost predicate SweepInput(bios: seq<Entry>, n: nat, cps: seq<ChangePoint>) {
    n <= |bios| && KeySorted(cps) && Distinct(cps) &&
    (forall i | 0 <= i < n :: End(bios[i]) < U64) &&
    (forall c | c in cps :: ValidRef(bios, n, c.pbios) && (c == StartPoint(c.pbios) || c == EndPoint(c.pbios))) &&
    (forall q: BiosRef | ValidRef(bios, n, q) :: StartPoint(q) in cps && EndPoint(q) in cps)
  }

  /** Key order implies address order. */
  lemma AddrMono(cps: seq<ChangePoint>, i: nat, j: nat)
    requires KeySorted(cps) && i <= j < |cps|
    ensures cps[i].addr <= cps[j].addr
  {
    if i < j {
      assert Key(cps[i]) <= Key(cps[j]);
    }
  }

  /** Entry q is open after the first k change points: its start is among them, its end is not. */
  ghost predicate Open(cps: seq<ChangePoint>, k: nat, q: BiosRef)
    requires k <= |cps|
  {
    StartPoint(q) in cps[..k] && EndPoint(q) !in cps[..k]
  }

  /** p lies between the k-th and the (k+1)-th change point. */
  predicate InGap(cps: seq<ChangePoint>, k: nat, p: nat)
    requires k <= |cps|
  {
    (k == 0 || cps[k - 1].addr <= p) && (k == |cps| || p < cps[k].addr)
  }

  /** In a duplicate-free list, the element at index i is among the first k exactly when i < k. */
  lemma InPrefix(cps: seq<ChangePoint>, k: nat, i: nat)
    requires Distinct(cps) && k <= |cps| && i < |cps|
    ensures cps[i] in cps[..k] <==> i < k
  {
    if cps[i] in cps[..k] {
      var j :| 0 <= j < k && cps[..k][j] == cps[i];
    }
  }

  /** Between two change points, the open entries are exactly those holding the address. */
  lemma GapCover(cps: seq<ChangePoint>, k: nat, p: nat, q: BiosRef)
    requires KeySorted(cps) && Distinct(cps) && k <= |cps| && InGap(cps, k, p)
    requires q.entry.size > 0 && StartPoint(q) in cps && EndPoint(q) in cps
    ensures Open(cps, k, q) <==> Holds(q.entry, p)
  {
    var si :| 0 <= si < |cps| && cps[si] == StartPoint(q);
    var ei :| 0 <= ei < |cps| && cps[ei] == EndPoint(q);
    assert Key(cps[si]) < Key(cps[ei]);
    InPrefix(cps, k, si);
    InPrefix(cps, k, ei);
    if si < k {
      AddrMono(cps, si, k - 1);
    } else {
      AddrMono(cps, k, si);
    }
    if ei < k {
      AddrMono(cps, ei, k - 1);
    } else {
      AddrMono(cps, k, ei);
    }
  }

  /** The overlap list holds, once each, exactly the entries open after k change points. */
  ghost predicate OverlapIs(bios: seq<Entry>, n: nat, cps: seq<ChangePoint>, k: nat, ov: seq<BiosRef>)
    requires k <= |cps|
  {
    Distinct(ov) &&
    (forall q | q in ov :: ValidRef(bios, n, q) && Open(cps, k, q)) &&
    (forall q: BiosRef | ValidRef(bios, n, q) && Open(cps, k, q) :: q in ov)
  }

  /** The shape of a sanitized map: well formed, and no entry of type 0. */
  predicate OutOk(out: seq<Entry>) {
    WellFormed(out) && forall x | x in out :: x.kind != 0
  }

  /** Every emitted entry has, at each of its addresses, the type TypeAt gives there. */
  ghost predicate Sound(bios: seq<Entry>, n: nat, out: seq<Entry>)
    requires n <= |bios|
  {
    forall x, p: nat | x in out && Holds(x, p) :: x.kind == TypeAt(bios, n, p)
  }

  /** Below bound, the emitted entries give every address the type TypeAt gives it. */
  ghost predicate Complete(bios: seq<Entry>, n: nat, out: seq<Entry>, bound: nat)
    requires n <= |bios|
  {
    forall p: nat | p < bound :: Lookup(out, p) == TypeOpt(TypeAt(bios, n, p))
  }

  /** Address of the k-th change point (last_addr's lower bound), 0 before the first. */
  function Prev(cps: seq<ChangePoint>, k: nat): nat
    requires k <= |cps|
  {
    if k == 0 then 0 else cps[k - 1].addr
  }

  /** Up to where the emitted entries are final: the open entry's start, or the last change point. */
  function Done(s: Sweep, prev: nat): nat {
    if s.lastType != 0 then s.lastAddr else prev
  }

  /** The open entry [last_addr, hi) has type last_type throughout. */
  ghost predicate Pending(bios: seq<Entry>, n: nat, s: Sweep, hi: nat)
    requires n <= |bios|
  {
    s.lastType != 0 ==>
      s.lastAddr <= hi && forall p | s.lastAddr <= p < hi :: TypeAt(bios, n, p) == s.lastType
  }

  /** The invariant of the sweep after k change points. */
  ghost predicate Inv(bios: seq<Entry>, n: nat, cps: seq<ChangePoint>, k: nat, cap: nat, s: Sweep)
    requires n <= |bios| && k <= |cps|
  {
    OutOk(s.out) && Sound(bios, n, s.out) &&
    (s.full ==> |s.out| == cap) &&
    (!s.full ==>
      |s.out| < cap && OverlapIs(bios, n, cps, k, s.overlap) && s.lastType == MaxKind(s.overlap) &&
      Pending(bios, n, s, Prev(cps, k)) &&
      AllBelow(s.out, Done(s, Prev(cps, k))) && Complete(bios, n, s.out, Done(s, Prev(cps, k))))
  }

  /** What the sweep needs to know about the change point at index k. */
  predicate PointFacts(bios: seq<Entry>, n: nat, cps: seq<ChangePoint>, k: nat) {
    k < |cps| && KeySorted(cps) && Distinct(cps) &&
    (var c := cps[k];
     ValidRef(bios, n, c.pbios) && c.addr < U64 &&
     (IsStart(c) ==> c == StartPoint(c.pbios)) && (!IsStart(c) ==> c == EndPoint(c.pbios)) &&
     StartPoint(c.pbios) in cps && EndPoint(c.pbios) in cps)
  }

  lemma PointKind(bios: seq<Entry>, n: nat, cps: seq<ChangePoint>, k: nat)
    requires SweepInput(bios, n, cps) && k < |cps|
    ensures PointFacts(bios, n, cps, k)
  {
    assert cps[k] in cps;
    var q := cps[k].pbios;
    assert End(bios[q.idx]) < U64;
  }

  /** A change point leaves the other entries open or closed as they were. */
  lemma OpenOther(cps: seq<ChangePoint>, k: nat, q: BiosRef)
    requires k < |cps| && q != cps[k].pbios
    ensures Open(cps, k + 1, q) <==> Open(cps, k, q)
  {
    assert cps[..k + 1] == cps[..k] + [cps[k]];
  }

  /** A start point opens its entry, an end point closes it. */
  lemma OpenSelf(bios: seq<Entry>, n: nat, cps: seq<ChangePoint>, k: nat)
    requires PointFacts(bios, n, cps, k)
    ensures var c := cps[k];
      (IsStart(c) ==> !Open(cps, k, c.pbios) && Open(cps, k + 1, c.pbios)) &&
      (!IsStart(c) ==> Open(cps, k, c.pbios) && !Open(cps, k + 1, c.pbios))
  {
    var c := cps[k];
    var q := c.pbios;
    var si :| 0 <= si < |cps| && cps[si] == StartPoint(q);
    var ei :| 0 <= ei < |cps| && cps[ei] == EndPoint(q);
    assert Key(cps[si]) < Key(cps[ei]);
    InPrefix(cps, k, si);
    InPrefix(cps, k, ei);
    InPrefix(cps, k + 1, si);
    InPrefix(cps, k + 1, ei);
  }

  /** How one change point changes the overlap list. */
  lemma OverlapStep(bios: seq<Entry>, n: nat, cps: seq<ChangePoint>, k: nat, ov: seq<BiosRef>)
    requires PointFacts(bios, n, cps, k) && OverlapIs(bios, n, cps, k, ov)
    ensures var c := cps[k];
      (IsStart(c) ==> c.pbios !in ov) && (!IsStart(c) ==> c.pbios in ov) &&
      OverlapIs(bios, n, cps, k + 1, NewOverlap(ov, c))
  {
    var c := cps[k];
    OpenSelf(bios, n, cps, k);
    forall q: BiosRef | q != c.pbios
      ensures Open(cps, k + 1, q) <==> Open(cps, k, q)
    {
      OpenOther(cps, k, q);
    }
    if !IsStart(c) {
      RemoveRefFacts(ov, c.pbios);
    }
  }

  /** Both change points of every non-empty entry are in cps. */
  ghost predicate AllPointsIn(bios: seq<Entry>, n: nat, cps: seq<ChangePoint>) {
    forall q: BiosRef | ValidRef(bios, n, q) :: StartPoint(q) in cps && EndPoint(q) in cps
  }

  /** Between two change points the overlap list's maximum is the type of the address. */
  lemma GapType(bios: seq<Entry>, n: nat, cps: seq<ChangePoint>, k: nat, ov: seq<BiosRef>, p: nat)
    requires n <= |bios| && KeySorted(cps) && Distinct(cps) && AllPointsIn(bios, n, cps)
    requires k <= |cps| && OverlapIs(bios, n, cps, k, ov) && InGap(cps, k, p)
    ensures MaxKind(ov) == TypeAt(bios, n, p)
  {
    forall q | q in ov ensures ValidRef(bios, n, q) && Holds(q.entry, p) {
      GapCover(cps, k, p, q);
    }
    forall q: BiosRef | ValidRef(bios, n, q) && Holds(q.entry, p) ensures q in ov {
      GapCover(cps, k, p, q);
    }
    MaxKindIsTypeAt(bios, n, p, ov);
  }

  /** Emitting the closed entry [a, b) of type t keeps the output sound, and complete up to b. */
  lemma EmitEntry(bios: seq<Entry>, n: nat, out: seq<Entry>, a: nat, b: nat, t: nat)
    requires n <= |bios| && OutOk(out) && Sound(bios, n, out) && AllBelow(out, a) && Complete(bios, n, out, a)
    requires a < b < U64 && t != 0 && forall p | a <= p < b :: TypeAt(bios, n, p) == t
    ensures var out' := out + [Entry(a, b - a, t)];
      OutOk(out') && Sound(bios, n, out') && AllBelow(out', b) && Complete(bios, n, out', b)
  {
    var x := Entry(a, b - a, t);
    var out' := out + [x];
    assert forall y | y in out' :: y in out || y == x;
    assert Sorted(out') by {
      forall i, j | 0 <= i < j < |out'| ensures End(out'[i]) <= out'[j].addr {
        if j == |out| {
          assert out'[i] in out;
        }
      }
    }
    forall p: nat | p < b ensures Lookup(out', p) == TypeOpt(TypeAt(bios, n, p)) {
      LookupConcat(out, [x], p);
      LookupSingle(x, p);
      if p >= a {
        assert !Covers(out, p);
      }
    }
  }

  /** Where no entry is open, the output is complete as far as the next change point. */
  lemma ExtendEmpty(bios: seq<Entry>, n: nat, out: seq<Entry>, lo: nat, hi: nat)
    requires n <= |bios| && AllBelow(out, lo) && Complete(bios, n, out, lo) && lo <= hi
    requires forall p | lo <= p < hi :: TypeAt(bios, n, p) == 0
    ensures AllBelow(out, hi) && Complete(bios, n, out, hi)
  {
    forall p: nat | lo <= p < hi ensures Lookup(out, p) == None {
      assert !Covers(out, p);
    }
  }

  /** Up to the next change point, every address after last_addr has type last_type. */
  lemma PendingGrows(bios: seq<Entry>, n: nat, cps: seq<ChangePoint>, k: nat, s: Sweep)
    requires n <= |bios| && KeySorted(cps) && Distinct(cps) && AllPointsIn(bios, n, cps) && k < |cps|
    requires OverlapIs(bios, n, cps, k, s.overlap) && s.lastType == MaxKind(s.overlap) && Pending(bios, n, s, Prev(cps, k))
    ensures Prev(cps, k) <= cps[k].addr
    ensures forall p | Prev(cps, k) <= p < cps[k].addr :: TypeAt(bios, n, p) == s.lastType
    ensures Pending(bios, n, s, cps[k].addr)
  {
    if k > 0 {
      AddrMono(cps, k - 1, k);
    }
    forall p | Prev(cps, k) <= p < cps[k].addr ensures TypeAt(bios, n, p) == s.lastType {
      GapType(bios, n, cps, k, s.overlap, p);
    }
  }

  /** The part of the sweep invariant that Emit relies on, with the open entry grown to a. */
  ghost predicate BeforeEmit(bios: seq<Entry>, n: nat, s: Sweep, prev: nat, a: nat, cap: nat)
    requires n <= |bios|
  {
    !s.full && OutOk(s.out) && Sound(bios, n, s.out) && |s.out| < cap &&
    prev <= a < U64 && Pending(bios, n, s, a) &&
    (s.lastType == 0 ==> forall p | prev <= p < a :: TypeAt(bios, n, p) == 0) &&
    AllBelow(s.out, Done(s, prev)) && Complete(bios, n, s.out, Done(s, prev))
  }

  /** The part of the sweep invariant that Emit establishes at change address a. */
  ghost predicate AfterEmit(bios: seq<Entry>, n: nat, s: Sweep, ov: seq<BiosRef>, a: nat, cap: nat)
    requires n <= |bios|
  {
    OutOk(s.out) && Sound(bios, n, s.out) && (s.full ==> |s.out| == cap) &&
    (!s.full ==>
      |s.out| < cap && s.overlap == ov && s.lastType == MaxKind(ov) && Pending(bios, n, s, a) &&
      AllBelow(s.out, Done(s, a)) && Complete(bios, n, s.out, Done(s, a)))
  }

  /** No change of type: only the overlap list changes. */
  lemma EmitKeep(bios: seq<Entry>, n: nat, s: Sweep, ov: seq<BiosRef>, prev: nat, a: nat, cap: nat)
    requires n <= |bios| && BeforeEmit(bios, n, s, prev, a, cap) && MaxKind(ov) == s.lastType
    ensures AfterEmit(bios, n, Emit(s, ov, a, cap), ov, a, cap)
  {
    if s.lastType == 0 {
      ExtendEmpty(bios, n, s.out, prev, a);
    }
  }

  /** A change of type with nothing to close: the output stays, a new entry may open. */
  lemma EmitOpen(bios: seq<Entry>, n: nat, s: Sweep, ov: seq<BiosRef>, prev: nat, a: nat, cap: nat)
    requires n <= |bios| && BeforeEmit(bios, n, s, prev, a, cap) && MaxKind(ov) != s.lastType
    requires s.lastType == 0 || a == s.lastAddr
    ensures AfterEmit(bios, n, Emit(s, ov, a, cap), ov, a, cap)
  {
    var s' := Emit(s, ov, a, cap);
    if s.lastType == 0 {
      ExtendEmpty(bios, n, s.out, prev, a);
    } else {
      assert SubU64(a, s.lastAddr) == 0;
    }
    assert s'.out == s.out && !s'.full;
  }

  /** A change of type closes the non-empty open entry [last_addr, a). */
  lemma EmitClose(bios: seq<Entry>, n: nat, s: Sweep, ov: seq<BiosRef>, prev: nat, a: nat, cap: nat)
    requires n <= |bios| && BeforeEmit(bios, n, s, prev, a, cap) && MaxKind(ov) != s.lastType
    requires s.lastType != 0 && a != s.lastAddr
    ensures AfterEmit(bios, n, Emit(s, ov, a, cap), ov, a, cap)
  {
    assert Done(s, prev) == s.lastAddr;
    EmitEntry(bios, n, s.out, s.lastAddr, a, s.lastType);
    var out' := s.out + [Entry(s.lastAddr, a - s.lastAddr, s.lastType)];
    assert SubU64(a, s.lastAddr) == a - s.lastAddr;
    var cur := MaxKind(ov);
    assert Emit(s, ov, a, cap) ==
      if |out'| >= cap then Sweep(ov, out', s.lastType, s.lastAddr, true)
      else if cur != 0 then Sweep(ov, out', cur, a, false)
      else Sweep(ov, out', cur, s.lastAddr, false);
  }

  /** What Emit does to the emitted entries and the open entry, for any new overlap list. */
  lemma EmitInv(bios: seq<Entry>, n: nat, s: Sweep, ov: seq<BiosRef>, prev: nat, a: nat, cap: nat)
    requires n <= |bios| && BeforeEmit(bios, n, s, prev, a, cap)
    ensures AfterEmit(bios, n, Emit(s, ov, a, cap), ov, a, cap)
  {
    if MaxKind(ov) == s.lastType {
      EmitKeep(bios, n, s, ov, prev, a, cap);
    } else if s.lastType == 0 || a == s.lastAddr {
      EmitOpen(bios, n, s, ov, prev, a, cap);
    } else {
      EmitClose(bios, n, s, ov, prev, a, cap);
    }
  }

  /** The sweep invariant holds after every change point. */
  lemma StepInv(bios: seq<Entry>, n: nat, cps: seq<ChangePoint>, k: nat, cap: nat, s: Sweep)
    requires n <= |bios| && PointFacts(bios, n, cps, k) && AllPointsIn(bios, n, cps)
    requires !s.full && Inv(bios, n, cps, k, cap, s)
    ensures Inv(bios, n, cps, k + 1, cap, Step(s, cps[k], cap))
  {
    var c := cps[k];
    OverlapStep(bios, n, cps, k, s.overlap);
    PendingGrows(bios, n, cps, k, s);
    EmitInv(bios, n, s, NewOverlap(s.overlap, c), Prev(cps, k), c.addr, cap);
    assert Prev(cps, k + 1) == c.addr;
  }

  lemma RunStart(bios: seq<Entry>, n: nat, cps: seq<ChangePoint>, cap: nat)
    requires n <= |bios| && cap >= 1
    ensures Inv(bios, n, cps, 0, cap, Run(cps, 0, cap))
  {
    assert forall q: BiosRef :: !Open(cps, 0, q);
  }

  /** The sweep invariant holds after any number of change points. */
  lemma {:induction false} RunInvariant(bios: seq<Entry>, n: nat, cps: seq<ChangePoint>, k: nat, cap: nat)
    requires n <= |bios| && AllPointsIn(bios, n, cps) && (forall j | 0 <= j < |cps| :: PointFacts(bios, n, cps, j))
    requires k <= |cps| && cap >= 1
    ensures Inv(bios, n, cps, k, cap, Run(cps, k, cap))
  {
    if k == 0 {
      RunStart(bios, n, cps, cap);
    } else {
      RunInvariant(bios, n, cps, k - 1, cap);
      var s := Run(cps, k - 1, cap);
      if !s.full {
        StepInv(bios, n, cps, k - 1, cap, s);
      }
    }
  }

  /** The sweep invariant holds after every prefix of a valid sweep input. */
  lemma SweepInv(bios: seq<Entry>, n: nat, cps: seq<ChangePoint>, k: nat, cap: nat)
    requires SweepInput(bios, n, cps) && cap >= 1 && k <= |cps|
    ensures Inv(bios, n, cps, k, cap, Run(cps, k, cap))
  {
    forall j | 0 <= j < |cps| ensures PointFacts(bios, n, cps, j) {
      PointKind(bios, n, cps, j);
    }
    RunInvariant(bios, n, cps, k, cap);
  }

  /** Every entry's end point is among the change points, so after the last one none is open. */
  lemma NoOpenLeft(bios: seq<Entry>, n: nat, cps: seq<ChangePoint>, ov: seq<BiosRef>)
    requires SweepInput(bios, n, cps) && OverlapIs(bios, n, cps, |cps|, ov)
    ensures ov == []
  {
    FirstIn(ov);
    assert cps[..|cps|] == cps;
  }

  /** A non-empty list holds its first element. */
  lemma FirstIn<T>(s: seq<T>)
    ensures |s| > 0 ==> s[0] in s
  {
  }

  /**
   * What the sweep produces, whether it runs through all change points or
   * breaks out at k because new_bios is full: a sorted, non-overlapping map
   * without empty or type-0 entries and with at most cap entries, each giving
   * its addresses the largest type of the input entries holding them; unless
   * new_bios filled up, it gives every address exactly that type.
   */
  lemma SweepCorrect(bios: seq<Entry>, n: nat, cps: seq<ChangePoint>, k: nat, cap: nat)
    requires SweepInput(bios, n, cps) && cap >= 1
    requires k <= |cps| && (k == |cps| || Run(cps, k, cap).full)
    ensures var s := Run(cps, k, cap);
      OutOk(s.out) && |s.out| <= cap && Sound(bios, n, s.out) &&
      (s.full ==> |s.out| == cap) &&
      (!s.full ==> forall p: nat :: Lookup(s.out, p) == TypeOpt(TypeAt(bios, n, p)))
  {
    SweepInv(bios, n, cps, k, cap);
    var s := Run(cps, k, cap);
    if !s.full {
      NoOpenLeft(bios, n, cps, s.overlap);
      forall p: nat | Prev(cps, k) <= p ensures Lookup(s.out, p) == TypeOpt(TypeAt(bios, n, p)) {
        GapType(bios, n, cps, k, s.overlap, p);
        assert !Covers(s.out, p);
      }
    }
  }

  /** A set of indices below n has at most n elements. */
  lemma {:induction false} IndexSetBound(ids: set<nat>, n: nat)
    requires forall x | x in ids :: x < n
    ensures |ids| <= n
  {
    if n > 0 {
      IndexSetBound(ids - {n - 1}, n - 1);
    } else {
      assert ids == {};
    }
  }

  /** The indices the references of ov point at. */
  function Indices(ov: seq<BiosRef>): (r: set<nat>)
    ensures forall x | x in r :: exists i | 0 <= i < |ov| :: ov[i].idx == x
  {
    if ov == [] then {} else Indices(ov[..|ov| - 1]) + {ov[|ov| - 1].idx}
  }

  /** No two references in ov name the same entry of bios. */
  predicate DistinctIdx(ov: seq<BiosRef>) {
    forall i, j | 0 <= i < j < |ov| :: ov[i].idx != ov[j].idx
  }

  /** Distinct valid references name distinct entries, all below n. */
  lemma RefsDistinctIdx(bios: seq<Entry>, n: nat, ov: seq<BiosRef>)
    requires Distinct(ov) && forall q | q in ov :: ValidRef(bios, n, q)
    ensures DistinctIdx(ov) && forall x | x in Indices(ov) :: x < n
  {
    forall i, j | 0 <= i < j < |ov| ensures ov[i].idx != ov[j].idx {
      assert ov[i] in ov && ov[j] in ov;
    }
    forall x | x in Indices(ov) ensures x < n {
      var i :| 0 <= i < |ov| && ov[i].idx == x;
      assert ov[i] in ov;
    }
  }

  /** References with distinct indices have as many indices as references. */
  lemma {:induction false} IndicesCount(ov: seq<BiosRef>)
    requires DistinctIdx(ov)
    ensures |Indices(ov)| == |ov|
  {
    if ov != [] {
      var init := ov[..|ov| - 1];
      IndicesCount(init);
      assert ov[|ov| - 1].idx !in Indices(init);
    }
  }

  /** The overlap list never holds more references than bios[..n] has entries. */
  lemma RefsBound(bios: seq<Entry>, n: nat, ov: seq<BiosRef>)
    requires Distinct(ov) && forall q | q in ov :: ValidRef(bios, n, q)
    ensures |ov| <= n
  {
    RefsDistinctIdx(bios, n, ov);
    IndicesCount(ov);
    IndexSetBound(Indices(ov), n);
  }

  /** The removal loop of e820.c:244-250 followed by the decrement at 251. */
  method RemoveFromOverlap(overlap: array<BiosRef>, ov: nat, q: BiosRef)
    requires 0 < ov <= overlap.Length
    modifies overlap
    ensures overlap[..ov - 1] == RemoveRef(old(overlap[..ov]), q)
  {
    ghost var before := overlap[..ov];
    var i := 0;
    while i < ov
      invariant 0 <= i <= ov
      invariant forall j | i <= j < ov :: overlap[j] == before[j]
      invariant forall j | 0 <= j < i :: overlap[j] == if before[j] == q then before[ov - 1] else before[j]
    {
      if overlap[i] == q {
        overlap[i] := overlap[ov - 1];
      }
      i := i + 1;
    }
  }

  /** The maximum loop of e820.c:256-260. */
  method CurrentType(overlap: array<BiosRef>, ov: nat) returns (t: nat)
    requires ov <= overlap.Length
    ensures t == MaxKind(overlap[..ov])
  {
    t := 0;
    var i := 0;
    while i < ov
      invariant 0 <= i <= ov && t == MaxKind(overlap[..i])
    {
      assert overlap[..i + 1][..i] == overlap[..i];
      if overlap[i].entry.kind > t {
        t := overlap[i].entry.kind;
      }
      i := i + 1;
    }
    assert overlap[..ov] == overlap[..i];
  }

  /**
   * The overlap list has room for the entry a start point opens, and holds
   * the entry an end point closes.
   */
  lemma OverlapRoom(bios: seq<Entry>, n: nat, cps: seq<ChangePoint>, k: nat, cap: nat)
    requires SweepInput(bios, n, cps) && k < |cps| && 1 <= cap && n <= cap && !Run(cps, k, cap).full
    ensures var s := Run(cps, k, cap);
      (IsStart(cps[k]) ==> |s.overlap| < cap) && (!IsStart(cps[k]) ==> |s.overlap| > 0)
  {
    var s := Run(cps, k, cap);
    SweepInv(bios, n, cps, k, cap);
    PointKind(bios, n, cps, k);
    OverlapStep(bios, n, cps, k, s.overlap);
    if IsStart(cps[k]) {
      RefsBound(bios, n, NewOverlap(s.overlap, cps[k]));
    }
  }

  /**
   * At each change point the sweep reaches, the overlap list has room for
   * the entry a start point opens and holds the entry an end point closes.
   */
  predicate RoomAt(cps: seq<ChangePoint>, k: nat, cap: nat)
    requires k < |cps|
  {
    var s := Run(cps, k, cap);
    !s.full ==> (IsStart(cps[k]) ==> |s.overlap| < cap) && (!IsStart(cps[k]) ==> |s.overlap| > 0)
  }

  lemma OverlapsFit(bios: seq<Entry>, n: nat, cps: seq<ChangePoint>, cap: nat)
    requires SweepInput(bios, n, cps) && 1 <= cap && n <= cap
    ensures forall k | 0 <= k < |cps| :: RoomAt(cps, k, cap)
  {
    forall k | 0 <= k < |cps| ensures RoomAt(cps, k, cap) {
      if !Run(cps, k, cap).full {
        OverlapRoom(bios, n, cps, k, cap);
      }
    }
  }

  /** The overlap list update of e820.c:241-252 for change point c. */
  method UpdateOverlap(overlap: array<BiosRef>, ov: nat, c: ChangePoint) returns (ov': nat)
    requires ov <= overlap.Length
    requires (IsStart(c) ==> ov < overlap.Length) && (!IsStart(c) ==> ov > 0)
    modifies overlap
    ensures ov' <= overlap.Length && overlap[..ov'] == NewOverlap(old(overlap[..ov]), c)
  {
    if c.addr == c.pbios.entry.addr {
      overlap[ov] := c.pbios;
      ov' := ov + 1;
      assert overlap[..ov'] == old(overlap[..ov]) + [c.pbios];
    } else {
      RemoveFromOverlap(overlap, ov, c.pbios);
      ov' := ov - 1;
    }
  }

  /**
   * The type change at address a (e820.c:262-281) applied to new_bios, whose
   * first nb entries are s.out and whose entry nb holds the open entry's
   * address and type when lastType != 0.
   */
  method EmitInto(newBios: array<Entry>, nb: nat, lastType: nat, lastAddr: nat, cur: nat, a: nat,
                  ghost s: Sweep, ghost ov: seq<BiosRef>)
    returns (nb': nat, lastType': nat, lastAddr': nat, full: bool)
    requires nb < newBios.Length && !s.full && cur == MaxKind(ov)
    requires s.out == newBios[..nb] && s.lastType == lastType && s.lastAddr == lastAddr
    requires lastType != 0 ==> newBios[nb].addr == lastAddr && newBios[nb].kind == lastType
    modifies newBios
    ensures nb' <= newBios.Length && (!full ==> nb' < newBios.Length)
    ensures Emit(s, ov, a, newBios.Length) == Sweep(ov, newBios[..nb'], lastType', lastAddr', full)
    ensures !full && lastType' != 0 ==> newBios[nb'].addr == lastAddr' && newBios[nb'].kind == lastType'
  {
    nb', lastType', lastAddr', full := nb, lastType, lastAddr, false;
    if cur != lastType {
      if lastType != 0 {
        var size := SubU64(a, lastAddr);
        newBios[nb] := newBios[nb].(size := size);
        if size != 0 {
          assert newBios[..nb + 1] == s.out + [Entry(lastAddr, size, lastType)];
          nb' := nb + 1;
          if nb' >= newBios.Length {
            full := true;
            return;
          }
        }
      }
      if cur != 0 {
        newBios[nb'] := newBios[nb'].(addr := a, kind := cur);
        lastAddr' := a;
      }
      lastType' := cur;
    }
  }

  /** One iteration of the sweep (e820.c:239-281) for change point c. */
  method SweepStep(overlap: array<BiosRef>, ov: nat, newBios: array<Entry>, nb: nat, lastType: nat, lastAddr: nat,
                   c: ChangePoint, ghost cps: seq<ChangePoint>, ghost k: nat)
    returns (ov': nat, nb': nat, lastType': nat, lastAddr': nat, full: bool)
    requires k < |cps| && c == cps[k] && ov <= overlap.Length == newBios.Length && nb < newBios.Length
    requires Run(cps, k, newBios.Length) == Sweep(overlap[..ov], newBios[..nb], lastType, lastAddr, false)
    requires lastType != 0 ==> newBios[nb].addr == lastAddr && newBios[nb].kind == lastType
    requires (IsStart(c) ==> ov < overlap.Length) && (!IsStart(c) ==> ov > 0)
    modifies overlap, newBios
    ensures ov' <= overlap.Length && nb' <= newBios.Length && (!full ==> nb' < newBios.Length)
    ensures Run(cps, k + 1, newBios.Length) == Sweep(overlap[..ov'], newBios[..nb'], lastType', lastAddr', full)
    ensures !full && lastType' != 0 ==> newBios[nb'].addr == lastAddr' && newBios[nb'].kind == lastType'
  {
    ghost var st := Run(cps, k, newBios.Length);
    ov' := UpdateOverlap(overlap, ov, c);
    var cur := CurrentType(overlap, ov');
    nb', lastType', lastAddr', full := EmitInto(newBios, nb, lastType, lastAddr, cur, c.addr, st, overlap[..ov']);
    assert Run(cps, k + 1, newBios.Length) == Step(st, c, newBios.Length);
  }

  /**
   * The sweep of e820.c:233-281 over the sorted change points
   * cp[..chgNr], into a fresh new_bios of cap entries. It ends after the
   * last change point or, when new_bios fills up, after change point stop.
   */
  method SweepChangePoints(cp: array<ChangePoint>, chgNr: nat, cap: nat)
    returns (newBios: array<Entry>, newNr: nat, ghost stop: nat)
    requires chgNr <= cp.Length && 1 <= cap && forall k | 0 <= k < chgNr :: RoomAt(cp[..chgNr], k, cap)
    ensures fresh(newBios) && newBios.Length == cap && newNr <= cap && stop <= chgNr
    ensures (stop == chgNr || Run(cp[..chgNr], stop, cap).full) && newBios[..newNr] == Run(cp[..chgNr], stop, cap).out
  {
    ghost var cps := cp[..chgNr];
    var overlap := new BiosRef[cap](_ => BiosRef(0, Entry(0, 0, 0)));
    newBios := new Entry[cap](_ => Entry(0, 0, 0));
    var ov: nat, nb: nat, lastType: nat, lastAddr: nat := 0, 0, 0, 0;
    var chgidx, full := 0, false;
    while chgidx < chgNr && !full
      invariant chgidx <= chgNr && overlap.Length == cap && newBios.Length == cap
      invariant ov <= cap && nb <= cap && (!full ==> nb < cap)
      invariant Run(cps, chgidx, cap) == Sweep(overlap[..ov], newBios[..nb], lastType, lastAddr, full)
      invariant !full && lastType != 0 ==> newBios[nb].addr == lastAddr && newBios[nb].kind == lastType
    {
      var c := cp[chgidx];
      assert c == cps[chgidx] && RoomAt(cps, chgidx, cap);
      ov, nb, lastType, lastAddr, full := SweepStep(overlap, ov, newBios, nb, lastType, lastAddr, c, cps, chgidx);
      chgidx := chgidx + 1;
    }
    stop := chgidx;
    newNr := nb;
  }

  /** A sequence is Distinct exactly when no element occurs twice in its multiset. */
  lemma {:induction false} DistinctCounts<T>(s: seq<T>)
    ensures Distinct(s) <==> forall x :: multiset(s)[x] <= 1
  {
    if s != [] {
      var init := s[..|s| - 1];
      var y := s[|s| - 1];
      assert s == init + [y];
      DistinctCounts(init);
      assert multiset(s) == multiset(init) + multiset{y};
      assert y in init <==> multiset(init)[y] >= 1;
      if Distinct(s) {
        forall i | 0 <= i < |init| ensures init[i] != y { assert s[i] != s[|s| - 1]; }
        assert Distinct(init);
      } else if forall x :: multiset(s)[x] <= 1 {
        assert multiset(s)[y] <= 1;
        assert forall x :: multiset(init)[x] <= multiset(s)[x];
        forall i, j | 0 <= i < j < |s| ensures s[i] != s[j] {
          if j < |s| - 1 {
            assert s[i] == init[i] && s[j] == init[j];
          } else {
            assert s[i] == init[i] && init[i] in init;
          }
        }
      }
    }
  }

  /** Reordering a sequence keeps it Distinct. */
  lemma PermutedDistinct<T>(s: seq<T>, t: seq<T>)
    requires multiset(s) == multiset(t) && Distinct(s)
    ensures Distinct(t)
  {
    DistinctCounts(s);
    DistinctCounts(t);
  }

  /** The sorted change points of a map without wrapping entries are a valid sweep input. */
  lemma SortedInput(bios: seq<Entry>, n: nat, t: seq<ChangePoint>)
    requires n <= |bios| && KeySorted(t) && multiset(t) == multiset(ChangePointsOf(bios, n))
    requires forall i | 0 <= i < n :: !Wraps(bios[i])
    ensures SweepInput(bios, n, t)
  {
    var s := ChangePointsOf(bios, n);
    ChangePointsValid(bios, n);
    ChangePointsDistinct(bios, n);
    ChangePointsComplete(bios, n);
    PermutedDistinct(s, t);
    assert forall c :: c in t <==> c in s by {
      forall c ensures c in t <==> c in s {
        assert c in t <==> c in multiset(t);
        assert c in s <==> c in multiset(s);
      }
    }
  }

  /** The overflow test of e820.c:190-193, on 64-bit addr and size. */
  lemma WrapTest(x: Entry)
    requires x.addr < U64 && x.size < U64
    ensures (x.addr + x.size) % U64 < x.addr <==> Wraps(x)
  {
    if x.addr + x.size >= U64 {
      assert (x.addr + x.size) % U64 == x.addr + x.size - U64;
    } else {
      assert (x.addr + x.size) % U64 == x.addr + x.size;
    }
  }

  /** The memcpy of e820.c:284: the first n entries of src over those of dst. */
  method CopyEntries(dst: array<Entry>, src: array<Entry>, n: nat)
    requires n <= src.Length && n <= dst.Length && dst != src
    modifies dst
    ensures dst[..n] == src[..n] && dst[n..] == old(dst[n..])
  {
    var i := 0;
    while i < n
      invariant i <= n && dst[..i] == src[..i] && dst[i..] == old(dst[i..])
    {
      dst[i] := src[i];
      i := i + 1;
    }
  }

  /**
   * The part of sanitize_e820_map after its checks (e820.c:195-287): build
   * and sort the change points, sweep them into new_bios and copy the result
   * over biosmap.
   */
  method SanitizeChecked(biosmap: array<Entry>, nrMap: nat, cap: nat) returns (nr: nat)
    requires 1 <= cap && nrMap <= cap <= biosmap.Length
    requires forall i | 0 <= i < nrMap :: !Wraps(biosmap[i])
    modifies biosmap
    ensures nr <= cap && biosmap[nr..] == old(biosmap[nr..])
    ensures OutOk(biosmap[..nr]) && Sound(old(biosmap[..nrMap]), nrMap, biosmap[..nr])
    ensures nr < cap ==> forall p: nat :: Lookup(biosmap[..nr], p) == TypeOpt(TypeAt(old(biosmap[..nrMap]), nrMap, p))
  {
    ghost var bios := biosmap[..nrMap];
    var cp, chgNr := BuildChangePoints(biosmap, nrMap);
    SortChangePoints(cp, chgNr);
    ghost var cps := cp[..chgNr];
    SortedInput(bios, nrMap, cps);
    OverlapsFit(bios, nrMap, cps, cap);
    var newBios; ghost var stop;
    newBios, nr, stop := SweepChangePoints(cp, chgNr, cap);
    SweepCorrect(bios, nrMap, cps, stop, cap);
    CopyEntries(biosmap, newBios, nr);
  }

  /**
   * sanitize_e820_map (e820.c:139-288) on the first nrMap entries of
   * biosmap, with new_bios of cap (E820MAX) entries. It refuses a map of
   * fewer than two entries or one whose entry wraps past 2^64; otherwise it
   * rewrites biosmap[..nr] into a sorted map without overlaps, empty
   * entries or type 0 entries, where each address has the largest type
   * among the input entries holding it (every address, unless the output
   * filled all cap entries).
   */
  method SanitizeE820Map(biosmap: array<Entry>, nrMap: nat, cap: nat) returns (rc: int, nr: nat)
    requires 1 <= cap && nrMap <= cap <= biosmap.Length
    requires forall i | 0 <= i < nrMap :: biosmap[i].addr < U64 && biosmap[i].size < U64
    modifies biosmap
    ensures rc == -1 || rc == 0
    ensures rc == -1 <==> nrMap < 2 || exists i | 0 <= i < nrMap :: Wraps(old(biosmap[i]))
    ensures rc == -1 ==> nr == nrMap && biosmap[..] == old(biosmap[..])
    ensures rc == 0 ==> nr <= cap && biosmap[nr..] == old(biosmap[nr..])
    ensures rc == 0 ==> OutOk(biosmap[..nr]) && Sound(old(biosmap[..nrMap]), nrMap, biosmap[..nr])
    ensures rc == 0 && nr < cap ==>
      forall p: nat :: Lookup(biosmap[..nr], p) == TypeOpt(TypeAt(old(biosmap[..nrMap]), nrMap, p))
  {
    if nrMap < 2 {
      return -1, nrMap;
    }
    var i := 0;
    while i < nrMap
      invariant i <= nrMap && biosmap[..] == old(biosmap[..])
      invariant forall j | 0 <= j < i :: !Wraps(biosmap[j])
    {
      WrapTest(biosmap[i]);
      if (biosmap[i].addr + biosmap[i].size) % U64 < biosmap[i].addr {
        return -1, nrMap;
      }
      i := i + 1;
    }
    nr := SanitizeChecked(biosmap, nrMap, cap);
    rc := 0;
  }
}
