/**
 * gcov profiling data in the format of GCC 4.7 and later
 * (xen/common/coverage/gcc_4_7.c): the list of per-object-file records,
 * resetting their counters, and serialising one record as a .gcda file.
 *
 * The GCC version is a parameter: it fixes the number of counter types,
 * the unit of record lengths and whether the header carries a checksum.
 * Every store is a 32-bit word at a 4-byte-aligned offset, so the output
 * buffer is an array of 32-bit words and byte offsets are four times word
 * indices.
 */
module Gcov {
  const TWO_32: nat := 0x1_0000_0000
  const TWO_64: nat := 0x1_0000_0000_0000_0000

  /** unsigned int: the type of every word the .gcda format stores. */
  type U32 = x: nat | x < TWO_32

  const GCOV_DATA_MAGIC: nat := 0x6763_6461
  const GCOV_TAG_FUNCTION: nat := 0x0100_0000
  const GCOV_TAG_COUNTER_BASE: nat := 0x01a1_0000
  const GCOV_TAG_FUNCTION_LENGTH: nat := 3

  /** GCOV_COUNTERS for a GCC version (4.7 is the oldest this format knows). */
  function GcovCounters(gcc: nat): (n: nat)
    requires gcc >= 40700
    ensures 8 <= n <= 10
  {
    if gcc < 40900 then 8
    else if gcc < 50000 then 9
    else if gcc < 70000 then 10
    else if gcc < 100000 then 9
    else if gcc < 140000 then 8
    else 9
  }

  /** GCOV_UNIT_SIZE: lengths count 4-byte words before GCC 12 and bytes from GCC 12 on. */
  function UnitSize(gcc: nat): (u: nat)
    ensures u == 1 || u == 4
  {
    if gcc < 120000 then 1 else 4
  }

  /** GCOV_TAG_FOR_COUNTER: the counter base tag plus the type shifted left by 17, in unsigned int. */
  function TagForCounter(t: nat): U32
  {
    (GCOV_TAG_COUNTER_BASE + t * 0x2_0000) % TWO_32
  }

  /** The length word of a counter record: two units per value, in unsigned int. */
  function RecordLength(num: nat, unit: nat): U32
  {
    (num * 2 * unit) % TWO_32
  }

  /** The number of active counter types (non-null merge function) below t. */
  function NumActive(merge: seq<bool>, t: nat): (n: nat)
    requires t <= |merge|
    ensures n <= t
  {
    if t == 0 then 0 else NumActive(merge, t - 1) + (if merge[t - 1] then 1 else 0)
  }

  /** counter_active: 1 when the type's merge function is set. */
  function CounterActive(merge: seq<bool>, t: nat): (r: int)
    requires t < |merge|
    ensures r == 1 <==> merge[t]
    ensures r == 0 <==> !merge[t]
  {
    if merge[t] then 1 else 0
  }

  /** A function's identification: ident, lineno_checksum, cfg_checksum. */
  datatype FnInfo = FnInfo(ident: U32, linenoChecksum: U32, cfgChecksum: U32)

  /** gcov_store_uint64: the low word, then the high word. */
  function U64Words(v: nat): (w: seq<nat>)
    requires v < TWO_64
    ensures |w| == 2 && w[0] < TWO_32 && w[1] < TWO_32 && w[0] + w[1] * TWO_32 == v
  {
    [v % TWO_32, v / TWO_32]
  }

  predicate ValuesOk(vals: seq<nat>)
  {
    forall i | 0 <= i < |vals| :: vals[i] < TWO_64
  }

  /** The values of one counter, 64 bits each. */
  function ValueWords(vals: seq<nat>): (w: seq<nat>)
    requires ValuesOk(vals)
    ensures |w| == 2 * |vals|
  {
    if vals == [] then [] else ValueWords(vals[..|vals| - 1]) + U64Words(vals[|vals| - 1])
  }

  /** Every value can be read back from its two words. */
  lemma {:induction false} ValueWordsDecode(vals: seq<nat>, i: nat)
    requires ValuesOk(vals) && i < |vals|
    ensures ValueWords(vals)[2 * i] + ValueWords(vals)[2 * i + 1] * TWO_32 == vals[i]
    decreases |vals|
  {
    var init := vals[..|vals| - 1];
    assert ValueWords(vals) == ValueWords(init) + U64Words(vals[|vals| - 1]);
    if i < |vals| - 1 {
      ValueWordsDecode(init, i);
    }
  }

  /** The counter records of one function for the types below t: tag, length, values, for each active type. */
  function CtrWords(merge: seq<bool>, ctrs: seq<seq<nat>>, t: nat, unit: nat): seq<nat>
    requires t <= |merge| && NumActive(merge, t) <= |ctrs|
    requires forall k | 0 <= k < |ctrs| :: ValuesOk(ctrs[k])
  {
    if t == 0 then []
    else
      CtrWords(merge, ctrs, t - 1, unit)
        + (if merge[t - 1] then CounterRecord(t - 1, ctrs[NumActive(merge, t - 1)], unit) else [])
  }

  /** One function record: tag, length, the three identifiers, then its counter records. */
  function FnWords(fn: FnInfo, merge: seq<bool>, ctrs: seq<seq<nat>>, unit: nat): seq<nat>
    requires NumActive(merge, |merge|) <= |ctrs|
    requires forall k | 0 <= k < |ctrs| :: ValuesOk(ctrs[k])
  {
    [GCOV_TAG_FUNCTION, GCOV_TAG_FUNCTION_LENGTH * unit, fn.ident, fn.linenoChecksum, fn.cfgChecksum]
      + CtrWords(merge, ctrs, |merge|, unit)
  }

  /** The record of everything linked into one object file, as its fields go into a .gcda file. */
  datatype Profile = Profile(version: U32, stamp: U32, merge: seq<bool>, fns: seq<FnInfo>, values: seq<seq<seq<nat>>>)

  /** Each function has one counter per active type, and every value fits in 64 bits. */
  predicate ProfileOk(p: Profile)
  {
    && |p.values| == |p.fns|
    && (forall fi | 0 <= fi < |p.values| :: |p.values[fi]| == NumActive(p.merge, |p.merge|))
    && (forall fi | 0 <= fi < |p.values| :: forall k | 0 <= k < |p.values[fi]| :: ValuesOk(p.values[fi][k]))
  }

  function Header(p: Profile, gcc: nat): (h: seq<nat>)
    ensures |h| == if gcc >= 120000 then 4 else 3
  {
    [GCOV_DATA_MAGIC, p.version, p.stamp] + (if gcc >= 120000 then [0] else [])
  }

  /** The records of the first n functions. */
  function FnsWords(p: Profile, n: nat, unit: nat): seq<nat>
    requires ProfileOk(p) && n <= |p.fns|
  {
    if n == 0 then [] else FnsWords(p, n - 1, unit) + FnWords(p.fns[n - 1], p.merge, p.values[n - 1], unit)
  }

  /** The .gcda file of a profile. */
  function Gcda(p: Profile, gcc: nat): seq<nat>
    requires ProfileOk(p)
  {
    Header(p, gcc) + FnsWords(p, |p.fns|, UnitSize(gcc))
  }

  /** The size of one function's counter records: two words of header and two per value, for each active type. */
  function CtrSize(merge: seq<bool>, ctrs: seq<seq<nat>>, t: nat): nat
    requires t <= |merge| && NumActive(merge, t) <= |ctrs|
  {
    if t == 0 then 0
    else CtrSize(merge, ctrs, t - 1) + (if merge[t - 1] then 2 + 2 * |ctrs[NumActive(merge, t - 1)]| else 0)
  }

  function FnsSize(p: Profile, n: nat): nat
    requires ProfileOk(p) && n <= |p.fns|
  {
    if n == 0 then 0 else FnsSize(p, n - 1) + 5 + CtrSize(p.merge, p.values[n - 1], |p.merge|)
  }

  lemma {:induction false} CtrWordsSize(merge: seq<bool>, ctrs: seq<seq<nat>>, t: nat, unit: nat)
    requires t <= |merge| && NumActive(merge, t) <= |ctrs|
    requires forall k | 0 <= k < |ctrs| :: ValuesOk(ctrs[k])
    ensures |CtrWords(merge, ctrs, t, unit)| == CtrSize(merge, ctrs, t)
  {
    if t > 0 {
      CtrWordsSize(merge, ctrs, t - 1, unit);
    }
  }

  lemma {:induction false} FnsWordsSize(p: Profile, n: nat, unit: nat)
    requires ProfileOk(p) && n <= |p.fns|
    ensures |FnsWords(p, n, unit)| == FnsSize(p, n)
  {
    if n > 0 {
      FnsWordsSize(p, n - 1, unit);
      CtrWordsSize(p.merge, p.values[n - 1], |p.merge|, unit);
    }
  }

  /**
   * The size of the .gcda file: the header, then for each function five
   * words and, for each active counter, two words plus two per value.
   */
  lemma GcdaSize(p: Profile, gcc: nat)
    requires ProfileOk(p)
    ensures |Gcda(p, gcc)| == (if gcc >= 120000 then 4 else 3) + FnsSize(p, |p.fns|)
    ensures Gcda(p, gcc)[..3] == [GCOV_DATA_MAGIC, p.version, p.stamp]
    ensures gcc >= 120000 ==> Gcda(p, gcc)[3] == 0
  {
    FnsWordsSize(p, |p.fns|, UnitSize(gcc));
  }

  /** `ws` written over b from index `at`. */
  function Overwrite(b: seq<nat>, at: nat, ws: seq<nat>): (r: seq<nat>)
    requires at + |ws| <= |b|
    ensures |r| == |b|
  {
    b[..at] + ws + b[at + |ws|..]
  }

  lemma OverwriteAppend(b: seq<nat>, at: nat, w1: seq<nat>, w2: seq<nat>)
    requires at + |w1| + |w2| <= |b|
    ensures Overwrite(Overwrite(b, at, w1), at + |w1|, w2) == Overwrite(b, at, w1 + w2)
  {
  }

  /** The counters of the first n functions set to zero; the other values kept. */
  function ResetBelow(values: seq<seq<seq<nat>>>, n: nat): (r: seq<seq<seq<nat>>>)
    ensures |r| == |values|
  {
    seq(|values|, fi requires 0 <= fi < |values| => if fi < n then ZeroCtrs(values[fi], |values[fi]|) else values[fi])
  }

  /** A function's first n counters with every value zero. */
  function ZeroCtrs(ctrs: seq<seq<nat>>, n: nat): (r: seq<seq<nat>>)
    ensures |r| == |ctrs|
  {
    seq(|ctrs|, k requires 0 <= k < |ctrs| => if k < n then seq(|ctrs[k]|, _ => 0) else ctrs[k])
  }

  /** One object file's profiling data; only the values and the list link change at run time. */
  class GcovInfo {
    const version: U32
    const stamp: U32
    /** Which counter types have a merge function. */
    const merge: seq<bool>
    const fns: seq<FnInfo>
    /** For each function, one array of values per active counter type. */
    var values: seq<seq<seq<nat>>>
    var next: GcovInfo?

    function Data(): Profile
      reads this
    {
      Profile(version, stamp, merge, fns, values)
    }

    constructor (version: U32, stamp: U32, merge: seq<bool>, fns: seq<FnInfo>, values: seq<seq<seq<nat>>>)
      requires ProfileOk(Profile(version, stamp, merge, fns, values))
      ensures Data() == Profile(version, stamp, merge, fns, values) && next == null
    {
      this.version := version;
      this.stamp := stamp;
      this.merge := merge;
      this.fns := fns;
      this.values := values;
      next := null;
    }

    /**
     * gcov_info_reset: every value of every active counter of every
     * function becomes zero. Each function's counters are walked with a
     * cursor that moves on only at active types.
     */
    method Reset()
      requires ProfileOk(Data())
      modifies this
      ensures ProfileOk(Data())
      ensures values == ResetBelow(old(values), |old(values)|)
      ensures next == old(next)
    {
      ghost var v0 := values;
      for fi := 0 to |fns|
        invariant values == ResetBelow(v0, fi) && next == old(next)
      {
        var ci := 0;
        assert ZeroCtrs(v0[fi], 0) == v0[fi];
        for ct := 0 to |merge|
          invariant ci == NumActive(merge, ct) <= NumActive(merge, |merge|)
          invariant values == ResetBelow(v0, fi)[fi := ZeroCtrs(v0[fi], ci)]
          invariant next == old(next)
        {
          NumActiveMono(merge, ct, |merge|);
          if CounterActive(merge, ct) == 0 {
            continue;
          }
          assert ZeroCtrs(v0[fi], ci)[ci := seq(|values[fi][ci]|, _ => 0)] == ZeroCtrs(v0[fi], ci + 1);
          values := values[fi := values[fi][ci := seq(|values[fi][ci]|, _ => 0)]];
          ci := ci + 1;
        }
        assert ZeroCtrs(v0[fi], ci) == ZeroCtrs(v0[fi], |v0[fi]|);
        assert values == ResetBelow(v0, fi + 1);
      }
    }
  }

  /** After a reset every counter value is zero, and no counter changes its length. */
  lemma ResetZeroes(values: seq<seq<seq<nat>>>)
    ensures forall fi, k, j | 0 <= fi < |values| && 0 <= k < |values[fi]| && 0 <= j < |values[fi][k]| ::
      |ResetBelow(values, |values|)[fi][k]| == |values[fi][k]| && ResetBelow(values, |values|)[fi][k][j] == 0
  {
    forall fi, k | 0 <= fi < |values| && 0 <= k < |values[fi]|
      ensures ResetBelow(values, |values|)[fi][k] == seq(|values[fi][k]|, _ => 0)
    {
    }
  }

  /** Each object's next is the one after it in s, and the last one's is null. */
  ghost predicate Linked(s: seq<GcovInfo>)
    reads set i | 0 <= i < |s| :: s[i]
  {
    forall i | 0 <= i < |s| :: s[i].next == if i + 1 < |s| then s[i + 1] else null
  }

  /** One link of a linked chain. */
  lemma LinkedAt(s: seq<GcovInfo>, j: nat)
    requires Linked(s) && j < |s|
    ensures s[j].next == if j + 1 < |s| then s[j + 1] else null
  {
  }

  /** Pushing an object whose next is the old first one keeps the chain linked. */
  lemma LinkedCons(info: GcovInfo, s: seq<GcovInfo>)
    requires Linked(s) && info.next == (if s == [] then null else s[0])
    ensures Linked([info] + s)
  {
    var t := [info] + s;
    forall i | 0 <= i < |t|
      ensures t[i].next == if i + 1 < |t| then t[i + 1] else null
    {
      if i > 0 {
        var j := i - 1;
        assert t[i] == s[j];
        LinkedAt(s, j);
      } else if s != [] {
        assert t[1] == s[0];
      }
    }
    assert Linked(t);
  }

  /** gcov_info_head and the objects linked from it, newest first. */
  class GcovList {
    var head: GcovInfo?
    ghost var infos: seq<GcovInfo>

    ghost predicate Valid()
      reads this, infos
    {
      && (head == if infos == [] then null else infos[0])
      && Linked(infos)
      && (forall i, j | 0 <= i < j < |infos| :: infos[i] != infos[j])
    }

    constructor ()
      ensures Valid() && infos == []
    {
      head := null;
      infos := [];
    }

    /** gcov_info_link: push info onto the head of the list. */
    method Link(info: GcovInfo)
      requires Valid() && info !in infos
      modifies this, info
      ensures Valid()
      ensures infos == [info] + old(infos) && head == info && info.next == old(head)
    {
      ghost var prev := infos;
      assert Linked(prev);
      info.next := head;
      assert forall k | 0 <= k < |prev| :: prev[k] != info;
      assert Linked(prev);
      head := info;
      infos := [info] + prev;
      LinkedCons(info, prev);
    }

    /** gcov_info_next: the head for null, otherwise the object linked after info. */
    function Next(info: GcovInfo?): (r: GcovInfo?)
      reads this, info
    {
      if info == null then head else info.next
    }

    /** Walking with Next from null visits the linked objects newest first and then stops. */
    lemma NextWalks(i: nat)
      requires Valid() && i < |infos|
      ensures Next(null) == infos[0]
      ensures Next(infos[i]) == if i + 1 < |infos| then infos[i + 1] else null
    {
    }
  }

  /** gcov_store_uint32 at byte offset pos: written when there is a buffer; four bytes either way. */
  method StoreU32(buffer: array?<nat>, pos: nat, v: U32) returns (n: nat)
    requires pos % 4 == 0 && (buffer != null ==> pos / 4 < buffer.Length)
    modifies buffer
    ensures n == 4
    ensures buffer != null ==> buffer[..] == Overwrite(old(buffer[..]), pos / 4, [v])
  {
    if buffer != null {
      buffer[pos / 4] := v;
    }
    return 4;
  }

  /** gcov_store_uint64: low word then high word; eight bytes either way. */
  method StoreU64(buffer: array?<nat>, pos: nat, v: nat) returns (n: nat)
    requires v < TWO_64
    requires pos % 4 == 0 && (buffer != null ==> pos / 4 + 2 <= buffer.Length)
    modifies buffer
    ensures n == 8
    ensures buffer != null ==> buffer[..] == Overwrite(old(buffer[..]), pos / 4, U64Words(v))
  {
    if buffer != null {
      buffer[pos / 4] := v % TWO_32;
      buffer[pos / 4 + 1] := v / TWO_32;
    }
    return 8;
  }

  /**
   * The state of the serialiser between stores: `w` has been written over
   * b0 from word `base` on (when there is a buffer), and pos is the byte
   * offset just past it.
   */
  ghost predicate Written(buffer: array?<nat>, pos: nat, b0: seq<nat>, base: nat, w: seq<nat>, room: nat)
    reads buffer
  {
    && pos == 4 * (base + |w|)
    && (buffer != null ==> |b0| == buffer.Length && base + |w| + room <= |b0| && buffer[..] == Overwrite(b0, base, w))
  }

  /** `pos += gcov_store_uint32(buffer, pos, v)`. */
  method Emit32(buffer: array?<nat>, pos: nat, v: U32, ghost b0: seq<nat>, ghost base: nat, ghost w: seq<nat>, ghost room: nat)
    returns (pos': nat)
    requires room >= 1 && Written(buffer, pos, b0, base, w, room)
    modifies buffer
    ensures Written(buffer, pos', b0, base, w + [v], room - 1)
  {
    var n := StoreU32(buffer, pos, v);
    if buffer != null {
      OverwriteAppend(b0, base, w, [v]);
    }
    pos' := pos + n;
  }

  /** `pos += gcov_store_uint64(buffer, pos, v)`. */
  method Emit64(buffer: array?<nat>, pos: nat, v: nat, ghost b0: seq<nat>, ghost base: nat, ghost w: seq<nat>, ghost room: nat)
    returns (pos': nat)
    requires v < TWO_64
    requires room >= 2 && Written(buffer, pos, b0, base, w, room)
    modifies buffer
    ensures Written(buffer, pos', b0, base, w + U64Words(v), room - 2)
  {
    var n := StoreU64(buffer, pos, v);
    if buffer != null {
      OverwriteAppend(b0, base, w, U64Words(v));
    }
    pos' := pos + n;
  }

  /** The innermost loop of gcov_info_to_gcda: the values of one counter. */
  method StoreValues(buffer: array?<nat>, pos0: nat, vals: seq<nat>, ghost b0: seq<nat>, ghost base: nat, ghost w: seq<nat>, ghost room: nat)
    returns (pos: nat)
    requires ValuesOk(vals)
    requires room >= |ValueWords(vals)| && Written(buffer, pos0, b0, base, w, room)
    modifies buffer
    ensures Written(buffer, pos, b0, base, w + ValueWords(vals), room - |ValueWords(vals)|)
  {
    pos := pos0;
    for cv := 0 to |vals|
      invariant Written(buffer, pos, b0, base, w + ValueWords(vals[..cv]), room - 2 * cv)
    {
      assert vals[..cv + 1][..cv] == vals[..cv];
      assert w + ValueWords(vals[..cv + 1]) == w + ValueWords(vals[..cv]) + U64Words(vals[cv]);
      pos := Emit64(buffer, pos, vals[cv], b0, base, w + ValueWords(vals[..cv]), room - 2 * cv);
    }
    assert vals[..|vals|] == vals;
  }

  /** One counter record: its tag, its length and its values. */
  function CounterRecord(t: nat, c: seq<nat>, unit: nat): seq<nat>
    requires ValuesOk(c)
  {
    [TagForCounter(t), RecordLength(|c|, unit)] + ValueWords(c)
  }

  /** One counter record, as the middle loop of gcov_info_to_gcda stores it for an active type. */
  method StoreCounterRecord(buffer: array?<nat>, pos0: nat, t: nat, c: seq<nat>, unit: nat,
                            ghost b0: seq<nat>, ghost base: nat, ghost w: seq<nat>, ghost room: nat)
    returns (pos: nat)
    requires ValuesOk(c)
    requires room >= |CounterRecord(t, c, unit)| && Written(buffer, pos0, b0, base, w, room)
    modifies buffer
    ensures Written(buffer, pos, b0, base, w + CounterRecord(t, c, unit), room - |CounterRecord(t, c, unit)|)
  {
    pos := Emit32(buffer, pos0, TagForCounter(t), b0, base, w, room);
    pos := Emit32(buffer, pos, RecordLength(|c|, unit), b0, base, w + [TagForCounter(t)], room - 1);
    pos := StoreValues(buffer, pos, c, b0, base, w + [TagForCounter(t)] + [RecordLength(|c|, unit)], room - 2);
    assert w + [TagForCounter(t)] + [RecordLength(|c|, unit)] + ValueWords(c) == w + CounterRecord(t, c, unit);
  }

  /** The counter records up to type t + 1 extend those up to t by type t's record when it is active. */
  lemma CtrWordsStep(merge: seq<bool>, ctrs: seq<seq<nat>>, t: nat, unit: nat)
    requires t < |merge| && NumActive(merge, |merge|) <= |ctrs|
    requires forall k | 0 <= k < |ctrs| :: ValuesOk(ctrs[k])
    ensures NumActive(merge, t + 1) <= NumActive(merge, |merge|)
    ensures merge[t] ==> NumActive(merge, t) < |ctrs|
    ensures CtrWords(merge, ctrs, t + 1, unit) == CtrWords(merge, ctrs, t, unit)
      + (if merge[t] then CounterRecord(t, ctrs[NumActive(merge, t)], unit) else [])
    ensures |CtrWords(merge, ctrs, t + 1, unit)| <= |CtrWords(merge, ctrs, |merge|, unit)|
  {
    NumActiveMono(merge, t + 1, |merge|);
    CtrSizeMono(merge, ctrs, t + 1, |merge|);
    CtrWordsSize(merge, ctrs, t + 1, unit);
    CtrWordsSize(merge, ctrs, |merge|, unit);
  }

  /** The middle loop of gcov_info_to_gcda: the counter records of one function, its cursor moving on at active types only. */
  method StoreCounters(buffer: array?<nat>, pos0: nat, merge: seq<bool>, ctrs: seq<seq<nat>>, unit: nat,
                       ghost b0: seq<nat>, ghost base: nat, ghost w: seq<nat>, ghost room: nat)
    returns (pos: nat)
    requires NumActive(merge, |merge|) <= |ctrs|
    requires forall k | 0 <= k < |ctrs| :: ValuesOk(ctrs[k])
    requires room >= |CtrWords(merge, ctrs, |merge|, unit)| && Written(buffer, pos0, b0, base, w, room)
    modifies buffer
    ensures Written(buffer, pos, b0, base, w + CtrWords(merge, ctrs, |merge|, unit), room - |CtrWords(merge, ctrs, |merge|, unit)|)
  {
    pos := pos0;
    var ci := 0;
    for ct := 0 to |merge|
      invariant ci == NumActive(merge, ct) <= NumActive(merge, |merge|)
      invariant |CtrWords(merge, ctrs, ct, unit)| <= |CtrWords(merge, ctrs, |merge|, unit)|
      invariant Written(buffer, pos, b0, base, w + CtrWords(merge, ctrs, ct, unit), room - |CtrWords(merge, ctrs, ct, unit)|)
    {
      CtrWordsStep(merge, ctrs, ct, unit);
      if CounterActive(merge, ct) == 0 {
        continue;
      }
      ghost var u := w + CtrWords(merge, ctrs, ct, unit);
      pos := StoreCounterRecord(buffer, pos, ct, ctrs[ci], unit, b0, base, u, room - |CtrWords(merge, ctrs, ct, unit)|);
      assert u + CounterRecord(ct, ctrs[ci], unit) == w + CtrWords(merge, ctrs, ct + 1, unit);
      ci := ci + 1;
    }
  }

  lemma {:induction false} NumActiveMono(merge: seq<bool>, t: nat, u: nat)
    requires t <= u <= |merge|
    ensures NumActive(merge, t) <= NumActive(merge, u)
    ensures t < u && merge[t] ==> NumActive(merge, t) < NumActive(merge, u)
    decreases u - t
  {
    if t < u {
      NumActiveMono(merge, t, u - 1);
    }
  }

  lemma {:induction false} CtrSizeMono(merge: seq<bool>, ctrs: seq<seq<nat>>, t: nat, u: nat)
    requires t <= u <= |merge| && NumActive(merge, u) <= |ctrs|
    ensures NumActive(merge, t) <= NumActive(merge, u)
    ensures CtrSize(merge, ctrs, t) <= CtrSize(merge, ctrs, u)
    decreases u - t
  {
    NumActiveMono(merge, t, u);
    if t < u {
      NumActiveMono(merge, t, u - 1);
      CtrSizeMono(merge, ctrs, t, u - 1);
    }
  }

  /** The body of the outer loop of gcov_info_to_gcda: one function record. */
  method StoreFunction(buffer: array?<nat>, pos0: nat, fn: FnInfo, merge: seq<bool>, ctrs: seq<seq<nat>>, unit: nat,
                       ghost b0: seq<nat>, ghost base: nat, ghost w: seq<nat>, ghost room: nat)
    returns (pos: nat)
    requires unit == 1 || unit == 4
    requires NumActive(merge, |merge|) <= |ctrs|
    requires forall k | 0 <= k < |ctrs| :: ValuesOk(ctrs[k])
    requires room >= |FnWords(fn, merge, ctrs, unit)| && Written(buffer, pos0, b0, base, w, room)
    modifies buffer
    ensures Written(buffer, pos, b0, base, w + FnWords(fn, merge, ctrs, unit), room - |FnWords(fn, merge, ctrs, unit)|)
  {
    pos := Emit32(buffer, pos0, GCOV_TAG_FUNCTION, b0, base, w, room);
    pos := Emit32(buffer, pos, GCOV_TAG_FUNCTION_LENGTH * unit, b0, base, w + [GCOV_TAG_FUNCTION], room - 1);
    ghost var u := w + [GCOV_TAG_FUNCTION, GCOV_TAG_FUNCTION_LENGTH * unit];
    assert w + [GCOV_TAG_FUNCTION] + [GCOV_TAG_FUNCTION_LENGTH * unit] == u;
    pos := Emit32(buffer, pos, fn.ident, b0, base, u, room - 2);
    pos := Emit32(buffer, pos, fn.linenoChecksum, b0, base, u + [fn.ident], room - 3);
    pos := Emit32(buffer, pos, fn.cfgChecksum, b0, base, u + [fn.ident] + [fn.linenoChecksum], room - 4);
    ghost var h := u + [fn.ident] + [fn.linenoChecksum] + [fn.cfgChecksum];
    pos := StoreCounters(buffer, pos, merge, ctrs, unit, b0, base, h, room - 5);
    assert h + CtrWords(merge, ctrs, |merge|, unit) == w + FnWords(fn, merge, ctrs, unit);
  }

  /** The start of gcov_info_to_gcda: magic, version, stamp and, from gcc 12 on, a zero checksum word. */
  method StoreHeader(buffer: array?<nat>, version: U32, stamp: U32, gcc: nat, ghost p: Profile, ghost b0: seq<nat>, ghost room: nat)
    returns (pos: nat)
    requires p.version == version && p.stamp == stamp
    requires room >= |Header(p, gcc)| && Written(buffer, 0, b0, 0, [], room)
    modifies buffer
    ensures Written(buffer, pos, b0, 0, Header(p, gcc), room - |Header(p, gcc)|)
  {
    pos := Emit32(buffer, 0, GCOV_DATA_MAGIC, b0, 0, [], room);
    pos := Emit32(buffer, pos, version, b0, 0, [GCOV_DATA_MAGIC], room - 1);
    pos := Emit32(buffer, pos, stamp, b0, 0, [GCOV_DATA_MAGIC, version], room - 2);
    if gcc >= 120000 {
      pos := Emit32(buffer, pos, 0, b0, 0, [GCOV_DATA_MAGIC, version, stamp], room - 3);
    }
  }

  /**
   * gcov_info_to_gcda: the number of bytes of the .gcda file of `info`,
   * stored into `buffer` when there is one. The size does not depend on
   * whether a buffer is given.
   */
  method GcovInfoToGcda(buffer: array?<nat>, info: GcovInfo, gcc: nat) returns (pos: nat)
    requires ProfileOk(info.Data())
    requires buffer != null ==> |Gcda(info.Data(), gcc)| <= buffer.Length
    modifies buffer
    ensures pos == 4 * |Gcda(info.Data(), gcc)|
    ensures buffer != null ==> buffer[..] == Overwrite(old(buffer[..]), 0, Gcda(info.Data(), gcc))
  {
    ghost var p := info.Data();
    ghost var b0 := if buffer != null then buffer[..] else [];
    var unit := UnitSize(gcc);
    ghost var head := Header(p, gcc);
    ghost var all := FnsWords(p, |p.fns|, unit);
    assert Gcda(p, gcc) == head + all;
    assert buffer != null ==> Overwrite(b0, 0, []) == b0;
    pos := StoreHeader(buffer, info.version, info.stamp, gcc, p, b0, |head| + |all|);
    pos := StoreFunctions(buffer, pos, info.fns, info.merge, info.values, unit, p, b0, head);
  }

  /** The outer loop of gcov_info_to_gcda: every function record, after the header. */
  method StoreFunctions(buffer: array?<nat>, pos0: nat, fns: seq<FnInfo>, merge: seq<bool>, values: seq<seq<seq<nat>>>, unit: nat,
                        ghost p: Profile, ghost b0: seq<nat>, ghost head: seq<nat>)
    returns (pos: nat)
    requires ProfileOk(p) && p.fns == fns && p.merge == merge && p.values == values
    requires unit == 1 || unit == 4
    requires Written(buffer, pos0, b0, 0, head, |FnsWords(p, |fns|, unit)|)
    modifies buffer
    ensures Written(buffer, pos, b0, 0, head + FnsWords(p, |fns|, unit), 0)
  {
    ghost var all := FnsWords(p, |fns|, unit);
    pos := pos0;
    assert head + FnsWords(p, 0, unit) == head;
    for fi := 0 to |fns|
      invariant |FnsWords(p, fi, unit)| <= |all|
      invariant Written(buffer, pos, b0, 0, head + FnsWords(p, fi, unit), |all| - |FnsWords(p, fi, unit)|)
    {
      FnsStep(p, fi, unit);
      ghost var w := head + FnsWords(p, fi, unit);
      pos := StoreFunction(buffer, pos, fns[fi], merge, values[fi], unit, b0, 0, w, |all| - |FnsWords(p, fi, unit)|);
      assert w + FnWords(fns[fi], merge, values[fi], unit) == head + FnsWords(p, fi + 1, unit);
    }
  }

  /** The records of the first n + 1 functions extend those of the first n, within the whole. */
  lemma FnsStep(p: Profile, n: nat, unit: nat)
    requires ProfileOk(p) && n < |p.fns|
    ensures FnsWords(p, n + 1, unit) == FnsWords(p, n, unit) + FnWords(p.fns[n], p.merge, p.values[n], unit)
    ensures |FnsWords(p, n + 1, unit)| <= |FnsWords(p, |p.fns|, unit)|
  {
    FnsWordsSize(p, n + 1, unit);
    FnsWordsSize(p, |p.fns|, unit);
    FnsSizeMono(p, n + 1, |p.fns|);
  }

  lemma {:induction false} FnsSizeMono(p: Profile, n: nat, m: nat)
    requires ProfileOk(p) && n <= m <= |p.fns|
    ensures FnsSize(p, n) <= FnsSize(p, m)
    decreases m - n
  {
    if n < m {
      FnsSizeMono(p, n, m - 1);
    }
  }
}
