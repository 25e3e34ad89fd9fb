/**
 * Serialising an x86 CPU policy (xen/arch/x86/lib/cpu-policy/) to and from
 * the flat buffers the toolstack exchanges with the hypervisor: CPUID leaves
 * as (leaf, subleaf, a, b, c, d) entries and MSRs as (index, flags, value)
 * entries.  Register values are the 32-bit CPUID outputs described for the
 * CPUID instruction in volume 2A of the Intel SDM; the sizes of the policy's
 * leaf arrays and the serialisation limits are header constants and are
 * parameters here.
 */
module CpuPolicy {
  import opened Errno
  import opened Opt

  /** XEN_CPUID_NO_SUBLEAF: the subleaf field of a leaf without subleaves. */
  const NO_SUBLEAF: nat := 0xffff_ffff
  /** What err_leaf, err_subleaf and err_msr hold when no entry is to blame. */
  const NO_ERROR: nat := 0xffff_ffff

  const LEAF_CACHE: nat := 0x4
  const LEAF_FEAT: nat := 0x7
  const LEAF_TOPO: nat := 0xb
  const LEAF_XSTATE: nat := 0xd
  const LEAF_HV: nat := 0x4000_0000
  const LEAF_HV2: nat := 0x4000_0100
  const LEAF_EXTD: nat := 0x8000_0000

  const MSR_INTEL_PLATFORM_INFO: nat := 0xce
  const MSR_ARCH_CAPABILITIES: nat := 0x10a

  datatype Leaf = Leaf(a: nat, b: nat, c: nat, d: nat)
  datatype CpuidEntry = CpuidEntry(leaf: nat, subleaf: nat, data: Leaf)
  datatype MsrEntry = MsrEntry(idx: nat, flags: nat, val: nat)

  /**
   * The array sizes of struct cpu_policy (basic leaves, and the subleaves
   * of leaves 0x4, 0x7, 0xb and 0xd, and the extended leaves) and the most
   * entries a buffer may carry in.
   */
  datatype Sizes = Sizes(basic: nat, cache: nat, feat: nat, topo: nat, xstate: nat, extd: nat,
                         maxLeaves: nat, maxMsrs: nat)

  /** Every array has the entries the code reads unconditionally, and the leaf ranges do not overlap. */
  predicate SizesOk(z: Sizes)
  {
    1 <= z.basic <= LEAF_HV && 1 <= z.cache < NO_SUBLEAF && 1 <= z.feat < NO_SUBLEAF &&
    1 <= z.topo < NO_SUBLEAF && 2 <= z.xstate < NO_SUBLEAF && 1 <= z.extd <= 0x1_0000
  }

  /** The parts of struct cpu_policy that the buffers carry. */
  datatype Policy = Policy(basic: seq<Leaf>, cache: seq<Leaf>, feat: seq<Leaf>, topo: seq<Leaf>,
                           xstate: seq<Leaf>, extd: seq<Leaf>, hvLimit: nat, hv2Limit: nat,
                           platformInfo: nat, archCaps: nat)

  predicate Shaped(p: Policy, z: Sizes)
  {
    |p.basic| == z.basic && |p.cache| == z.cache && |p.feat| == z.feat &&
    |p.topo| == z.topo && |p.xstate| == z.xstate && |p.extd| == z.extd
  }

  function Min(a: nat, b: nat): nat { if a < b then a else b }

  // ---------------------------------------------------------------------
  // Where a leaf lives in the policy
  // ---------------------------------------------------------------------

  /** A place in the policy that one CPUID entry fills. */
  datatype Slot = Basic(i: nat) | Cache(i: nat) | Feat(i: nat) | Topo(i: nat) | Xstate(i: nat)
                | Extd(i: nat) | HvLimit | Hv2Limit

  predicate ValidSlot(z: Sizes, s: Slot)
  {
    match s
    case Basic(i) => i < z.basic
    case Cache(i) => i < z.cache
    case Feat(i) => i < z.feat
    case Topo(i) => i < z.topo
    case Xstate(i) => i < z.xstate
    case Extd(i) => i < z.extd
    case _ => true
  }

  /**
   * The slot a (leaf, subleaf) pair names: the four leaves with subleaves
   * index their own arrays by subleaf, every other leaf takes
   * XEN_CPUID_NO_SUBLEAF, and the hypervisor leaves and the extended range
   * sit above the basic range.  None when the pair names nothing.
   */
  function SlotOf(z: Sizes, leaf: nat, subleaf: nat): (r: Option<Slot>)
    ensures r.Some? ==> ValidSlot(z, r.value)
  {
    if leaf < z.basic && leaf == LEAF_CACHE then (if subleaf < z.cache then Some(Cache(subleaf)) else None)
    else if leaf < z.basic && leaf == LEAF_FEAT then (if subleaf < z.feat then Some(Feat(subleaf)) else None)
    else if leaf < z.basic && leaf == LEAF_TOPO then (if subleaf < z.topo then Some(Topo(subleaf)) else None)
    else if leaf < z.basic && leaf == LEAF_XSTATE then (if subleaf < z.xstate then Some(Xstate(subleaf)) else None)
    else if subleaf != NO_SUBLEAF then None
    else if leaf < z.basic then Some(Basic(leaf))
    else if leaf == LEAF_HV then Some(HvLimit)
    else if leaf == LEAF_HV2 then Some(Hv2Limit)
    else if LEAF_EXTD <= leaf < LEAF_EXTD + z.extd then Some(Extd(leaf - LEAF_EXTD))
    else None
  }

  /** The leaf a slot holds; the hypervisor limits are register a of their leaf. */
  function ReadSlot(p: Policy, z: Sizes, s: Slot): Leaf
    requires Shaped(p, z) && ValidSlot(z, s)
  {
    match s
    case Basic(i) => p.basic[i]
    case Cache(i) => p.cache[i]
    case Feat(i) => p.feat[i]
    case Topo(i) => p.topo[i]
    case Xstate(i) => p.xstate[i]
    case Extd(i) => p.extd[i]
    case HvLimit => Leaf(p.hvLimit, 0, 0, 0)
    case Hv2Limit => Leaf(p.hv2Limit, 0, 0, 0)
  }

  /** What a slot keeps of a leaf written to it. */
  function Kept(s: Slot, l: Leaf): Leaf
  {
    if s == HvLimit || s == Hv2Limit then Leaf(l.a, 0, 0, 0) else l
  }

  // ---------------------------------------------------------------------
  // x86_cpuid_copy_from_buffer, one entry at a time
  // ---------------------------------------------------------------------

  /**
   * The switch of x86_cpuid_copy_from_buffer (copy-from-buffer.c:76-143):
   * store one entry in the policy, or None for the out_of_range exit.
   */
  function ApplyLeaf(p: Policy, z: Sizes, e: CpuidEntry): (r: Option<Policy>)
    requires Shaped(p, z) && SizesOk(z)
    ensures r.Some? <==> SlotOf(z, e.leaf, e.subleaf).Some?
    ensures r.Some? ==> var s := SlotOf(z, e.leaf, e.subleaf).value;
      Shaped(r.value, z) && ReadSlot(r.value, z, s) == Kept(s, e.data) &&
      r.value.platformInfo == p.platformInfo && r.value.archCaps == p.archCaps &&
      forall t | ValidSlot(z, t) && t != s :: ReadSlot(r.value, z, t) == ReadSlot(p, z, t)
  {
    var leaf, sub, l := e.leaf, e.subleaf, e.data;
    if leaf < z.basic then
      if leaf == LEAF_CACHE then
        if sub >= z.cache then None else Some(p.(cache := p.cache[sub := l]))
      else if leaf == LEAF_FEAT then
        if sub >= z.feat then None else Some(p.(feat := p.feat[sub := l]))
      else if leaf == LEAF_TOPO then
        if sub >= z.topo then None else Some(p.(topo := p.topo[sub := l]))
      else if leaf == LEAF_XSTATE then
        if sub >= z.xstate then None else Some(p.(xstate := p.xstate[sub := l]))
      else if sub != NO_SUBLEAF then None
      else Some(p.(basic := p.basic[leaf := l]))
    else if leaf == LEAF_HV then
      if sub != NO_SUBLEAF then None else Some(p.(hvLimit := l.a))
    else if leaf == LEAF_HV2 then
      if sub != NO_SUBLEAF then None else Some(p.(hv2Limit := l.a))
    else if LEAF_EXTD <= leaf < LEAF_EXTD + z.extd then
      if sub != NO_SUBLEAF then None else Some(p.(extd := p.extd[leaf % 0x1_0000 := l]))
    else None
  }

  /** The result of copying a buffer in: return code, the policy, err_leaf and err_subleaf. */
  datatype FromResult = FromResult(rc: int, p: Policy, errLeaf: nat, errSubleaf: nat)

  /** The entry loop (copy-from-buffer.c:69-156): apply entries in order, stopping at the first rejected one. */
  function ApplyLeaves(p: Policy, z: Sizes, es: seq<CpuidEntry>): (r: FromResult)
    requires Shaped(p, z) && SizesOk(z)
    ensures Shaped(r.p, z) && (r.rc == 0 || r.rc == -ERANGE)
    ensures r.p.platformInfo == p.platformInfo && r.p.archCaps == p.archCaps
    ensures r.rc == 0 ==> r.errLeaf == NO_ERROR && r.errSubleaf == NO_ERROR
    decreases |es|
  {
    if es == [] then FromResult(0, p, NO_ERROR, NO_ERROR)
    else match ApplyLeaf(p, z, es[0])
      case None => FromResult(-ERANGE, p, es[0].leaf, es[0].subleaf)
      case Some(p') => ApplyLeaves(p', z, es[1..])
  }

  /** x86_cpuid_copy_from_buffer as a function of the policy before and the entries. */
  function CpuidFromBuffer(p: Policy, z: Sizes, es: seq<CpuidEntry>): (r: FromResult)
    requires Shaped(p, z) && SizesOk(z)
    ensures |es| > z.maxLeaves ==> r == FromResult(-E2BIG, p, NO_ERROR, NO_ERROR)
  {
    if |es| > z.maxLeaves then FromResult(-E2BIG, p, NO_ERROR, NO_ERROR) else ApplyLeaves(p, z, es)
  }

  // ---------------------------------------------------------------------
  // x86_cpuid_copy_to_buffer: the entries it emits, in order
  // ---------------------------------------------------------------------

  /** CPUID.4 EAX[4:0]: the cache type; 0 ends the list of caches. */
  function CacheType(l: Leaf): nat { l.a % 32 }
  /** CPUID.0xb ECX[15:8]: the level type; 0 ends the list of levels. */
  function TopoType(l: Leaf): nat { (l.c / 256) % 256 }

  /** Subleaves k.. of leaf 0x4, up to and including the first whose cache type is 0. */
  function CacheEntries(raw: seq<Leaf>, k: nat): seq<CpuidEntry>
    decreases |raw| - k
  {
    if k >= |raw| then []
    else [CpuidEntry(LEAF_CACHE, k, raw[k])] + (if CacheType(raw[k]) == 0 then [] else CacheEntries(raw, k + 1))
  }

  /** Subleaves k.. of leaf 0xb, up to and including the first whose level type is 0. */
  function TopoEntries(raw: seq<Leaf>, k: nat): seq<CpuidEntry>
    decreases |raw| - k
  {
    if k >= |raw| then []
    else [CpuidEntry(LEAF_TOPO, k, raw[k])] + (if TopoType(raw[k]) == 0 then [] else TopoEntries(raw, k + 1))
  }

  /** Subleaves k..last of leaf 0x7. */
  function FeatEntries(raw: seq<Leaf>, k: nat, last: nat): seq<CpuidEntry>
    requires last < |raw|
    decreases last + 1 - k
  {
    if k > last then [] else [CpuidEntry(LEAF_FEAT, k, raw[k])] + FeatEntries(raw, k + 1, last)
  }

  /**
   * Subleaves k.. of leaf 0xd while some state component at or above k is
   * supported.  x0 and x1 are XCR0 and XSS shifted right by k: the source
   * shifts their OR, which is zero exactly when both are.
   */
  function XstateEntries(raw: seq<Leaf>, x0: nat, x1: nat, k: nat): seq<CpuidEntry>
    decreases |raw| - k
  {
    if (x0 != 0 || x1 != 0) && k < |raw| then
      [CpuidEntry(LEAF_XSTATE, k, raw[k])] + XstateEntries(raw, x0 / 2, x1 / 2, k + 1)
    else []
  }

  const TWO_32: nat := 0x1_0000_0000
  const TWO_64: nat := 0x1_0000_0000_0000_0000

  /** CPUID.0xd.0 EDX:EAX, the supported XCR0 bits. */
  function Xcr0(p: Policy): nat requires |p.xstate| >= 2 { p.xstate[0].a + p.xstate[0].d * TWO_32 }
  /** CPUID.0xd.1 EDX:ECX, the supported XSS bits. */
  function Xss(p: Policy): nat requires |p.xstate| >= 2 { p.xstate[1].c + p.xstate[1].d * TWO_32 }

  /** The entries for one basic leaf (copy-to-buffer.c:83-129). */
  function LeafEntries(p: Policy, z: Sizes, leaf: nat): seq<CpuidEntry>
    requires Shaped(p, z) && SizesOk(z) && leaf < z.basic
  {
    if leaf == LEAF_CACHE then CacheEntries(p.cache, 0)
    else if leaf == LEAF_FEAT then FeatEntries(p.feat, 0, Min(p.feat[0].a, z.feat - 1))
    else if leaf == LEAF_TOPO then TopoEntries(p.topo, 0)
    else if leaf == LEAF_XSTATE then
      [CpuidEntry(LEAF_XSTATE, 0, p.xstate[0]), CpuidEntry(LEAF_XSTATE, 1, p.xstate[1])] +
      XstateEntries(p.xstate, Xcr0(p) / 4, Xss(p) / 4, 2)
    else [CpuidEntry(leaf, NO_SUBLEAF, p.basic[leaf])]
  }

  /** The entries for basic leaves leaf..last. */
  function BasicEntries(p: Policy, z: Sizes, leaf: nat, last: nat): seq<CpuidEntry>
    requires Shaped(p, z) && SizesOk(z) && last < z.basic
    decreases last + 1 - leaf
  {
    if leaf > last then [] else LeafEntries(p, z, leaf) + BasicEntries(p, z, leaf + 1, last)
  }

  /** The entries for extended leaves 0x80000000|i, i = k..last. */
  function ExtdEntries(p: Policy, z: Sizes, k: nat, last: nat): seq<CpuidEntry>
    requires Shaped(p, z) && last < z.extd
    decreases last + 1 - k
  {
    if k > last then [] else [CpuidEntry(LEAF_EXTD + k, NO_SUBLEAF, p.extd[k])] + ExtdEntries(p, z, k + 1, last)
  }

  /** The last basic leaf emitted: max_leaf (CPUID.0 EAX), capped by the array. */
  function LastBasic(p: Policy, z: Sizes): nat
    requires Shaped(p, z) && SizesOk(z)
  {
    Min(p.basic[0].a, z.basic - 1)
  }

  /** The last extended leaf emitted: the low 16 bits of CPUID.0x80000000 EAX, capped by the array. */
  function LastExtd(p: Policy, z: Sizes): nat
    requires Shaped(p, z) && SizesOk(z)
  {
    Min(p.extd[0].a % 0x1_0000, z.extd - 1)
  }

  /** The two hypervisor leaves, register a only. */
  function HvEntries(p: Policy): seq<CpuidEntry>
  {
    [CpuidEntry(LEAF_HV, NO_SUBLEAF, Leaf(p.hvLimit, 0, 0, 0)),
     CpuidEntry(LEAF_HV2, NO_SUBLEAF, Leaf(p.hv2Limit, 0, 0, 0))]
  }

  /** Everything after the basic leaves. */
  function TailEntries(p: Policy, z: Sizes): seq<CpuidEntry>
    requires Shaped(p, z) && SizesOk(z)
  {
    HvEntries(p) + ExtdEntries(p, z, 0, LastExtd(p, z))
  }

  /** The full CPUID serialisation of a policy. */
  function CpuidEntries(p: Policy, z: Sizes): seq<CpuidEntry>
    requires Shaped(p, z) && SizesOk(z)
  {
    BasicEntries(p, z, 0, LastBasic(p, z)) + TailEntries(p, z)
  }

  /** The MSR serialisation: MSR_INTEL_PLATFORM_INFO, then MSR_ARCH_CAPABILITIES, flags 0. */
  function MsrEntries(p: Policy): seq<MsrEntry>
  {
    [MsrEntry(MSR_INTEL_PLATFORM_INFO, 0, p.platformInfo), MsrEntry(MSR_ARCH_CAPABILITIES, 0, p.archCaps)]
  }

  // ---------------------------------------------------------------------
  // Writing into a bounded buffer
  // ---------------------------------------------------------------------

  /** A return code and the buffer's filled prefix. */
  datatype Outcome<T> = Outcome(rc: int, out: seq<T>)

  /**
   * Writing s after w into a buffer of cap entries, one entry at a time:
   * everything if it fits, else as much as fits and -ENOBUFS.
   */
  function Emit<T>(w: seq<T>, s: seq<T>, cap: nat): (r: Outcome<T>)
    requires |w| <= cap
    ensures |r.out| <= cap && r.out <= w + s
    ensures r.rc == 0 <==> |w| + |s| <= cap
    ensures r.rc == 0 ==> r.out == w + s
    ensures r.rc != 0 ==> r.rc == -ENOBUFS && |r.out| == cap
  {
    if |w| + |s| <= cap then Outcome(0, w + s) else Outcome(-ENOBUFS, (w + s)[..cap])
  }

  /** Writing s then r is writing s + r; a failure while writing s ends it. */
  lemma EmitAppend<T>(w: seq<T>, s: seq<T>, r: seq<T>, cap: nat)
    requires |w| <= cap
    ensures Emit(w, s, cap).rc == 0 ==> Emit(w, s + r, cap) == Emit(w + s, r, cap)
    ensures Emit(w, s, cap).rc != 0 ==> Emit(w, s + r, cap) == Emit(w, s, cap)
  {
    assert w + (s + r) == (w + s) + r;
    if |w| + |s| > cap {
      assert ((w + s) + r)[..cap] == (w + s)[..cap];
    }
  }

  /** An empty remainder writes nothing and succeeds. */
  lemma EmitNothing<T>(w: seq<T>, cap: nat)
    requires |w| <= cap
    ensures Emit(w, [], cap) == Outcome(0, w)
  {
    assert w + [] == w;
  }

  // ---------------------------------------------------------------------
  // x86_cpuid_copy_to_buffer and x86_msr_copy_to_buffer
  // ---------------------------------------------------------------------

  /** copy_leaf_to_buffer: write one entry at curr, or -ENOBUFS when the buffer is full. */
  method PutLeaf(a: array<CpuidEntry>, curr: nat, e: CpuidEntry) returns (rc: int, next: nat)
    requires curr <= a.Length
    modifies a
    ensures next <= a.Length
    ensures Outcome(rc, a[..next]) == Emit(old(a[..curr]), [e], a.Length)
  {
    if curr == a.Length {
      assert (old(a[..curr]) + [e])[..a.Length] == a[..curr];
      return -ENOBUFS, curr;
    }
    a[curr] := e;
    assert a[..curr + 1] == old(a[..curr]) + [e];
    return 0, curr + 1;
  }

  /** The subleaf loop of leaf 0x4 (copy-to-buffer.c:85-93). */
  method PutCache(a: array<CpuidEntry>, curr: nat, raw: seq<Leaf>) returns (rc: int, next: nat)
    requires curr <= a.Length
    modifies a
    ensures next <= a.Length
    ensures Outcome(rc, a[..next]) == Emit(old(a[..curr]), CacheEntries(raw, 0), a.Length)
  {
    ghost var w := a[..curr];
    rc, next := 0, curr;
    var k: nat := 0;
    while k < |raw|
      invariant k <= |raw| && next <= a.Length
      invariant Emit(w, CacheEntries(raw, 0), a.Length) == Emit(a[..next], CacheEntries(raw, k), a.Length)
    {
      var e := CpuidEntry(LEAF_CACHE, k, raw[k]);
      ghost var rest := if CacheType(raw[k]) == 0 then [] else CacheEntries(raw, k + 1);
      EmitAppend(a[..next], [e], rest, a.Length);
      rc, next := PutLeaf(a, next, e);
      if rc != 0 {
        return;
      }
      if CacheType(raw[k]) == 0 {
        EmitNothing(a[..next], a.Length);
        return;
      }
      k := k + 1;
    }
    EmitNothing(a[..next], a.Length);
  }

  /** The subleaf loop of leaf 0xb (copy-to-buffer.c:102-110). */
  method PutTopo(a: array<CpuidEntry>, curr: nat, raw: seq<Leaf>) returns (rc: int, next: nat)
    requires curr <= a.Length
    modifies a
    ensures next <= a.Length
    ensures Outcome(rc, a[..next]) == Emit(old(a[..curr]), TopoEntries(raw, 0), a.Length)
  {
    ghost var w := a[..curr];
    rc, next := 0, curr;
    var k: nat := 0;
    while k < |raw|
      invariant k <= |raw| && next <= a.Length
      invariant Emit(w, TopoEntries(raw, 0), a.Length) == Emit(a[..next], TopoEntries(raw, k), a.Length)
    {
      var e := CpuidEntry(LEAF_TOPO, k, raw[k]);
      ghost var rest := if TopoType(raw[k]) == 0 then [] else TopoEntries(raw, k + 1);
      EmitAppend(a[..next], [e], rest, a.Length);
      rc, next := PutLeaf(a, next, e);
      if rc != 0 {
        return;
      }
      if TopoType(raw[k]) == 0 {
        EmitNothing(a[..next], a.Length);
        return;
      }
      k := k + 1;
    }
    EmitNothing(a[..next], a.Length);
  }

  /** The subleaf loop of leaf 0x7 (copy-to-buffer.c:96-100). */
  method PutFeat(a: array<CpuidEntry>, curr: nat, raw: seq<Leaf>, last: nat) returns (rc: int, next: nat)
    requires curr <= a.Length && last < |raw|
    modifies a
    ensures next <= a.Length
    ensures Outcome(rc, a[..next]) == Emit(old(a[..curr]), FeatEntries(raw, 0, last), a.Length)
  {
    ghost var w := a[..curr];
    rc, next := 0, curr;
    var k: nat := 0;
    while k <= last
      invariant k <= last + 1 && next <= a.Length
      invariant Emit(w, FeatEntries(raw, 0, last), a.Length) == Emit(a[..next], FeatEntries(raw, k, last), a.Length)
    {
      var e := CpuidEntry(LEAF_FEAT, k, raw[k]);
      EmitAppend(a[..next], [e], FeatEntries(raw, k + 1, last), a.Length);
      rc, next := PutLeaf(a, next, e);
      if rc != 0 {
        return;
      }
      k := k + 1;
    }
    EmitNothing(a[..next], a.Length);
  }

  /** The subleaf loop of leaf 0xd from subleaf 2 (copy-to-buffer.c:119-122). */
  method PutXstate(a: array<CpuidEntry>, curr: nat, raw: seq<Leaf>, xcr0: nat, xss: nat) returns (rc: int, next: nat)
    requires curr <= a.Length
    modifies a
    ensures next <= a.Length
    ensures Outcome(rc, a[..next]) == Emit(old(a[..curr]), XstateEntries(raw, xcr0 / 4, xss / 4, 2), a.Length)
  {
    ghost var w := a[..curr];
    rc, next := 0, curr;
    var x0: nat, x1: nat, k: nat := xcr0 / 4, xss / 4, 2;
    while (x0 != 0 || x1 != 0) && k < |raw|
      invariant next <= a.Length
      invariant Emit(w, XstateEntries(raw, xcr0 / 4, xss / 4, 2), a.Length) ==
                Emit(a[..next], XstateEntries(raw, x0, x1, k), a.Length)
      decreases |raw| - k
    {
      var e := CpuidEntry(LEAF_XSTATE, k, raw[k]);
      EmitAppend(a[..next], [e], XstateEntries(raw, x0 / 2, x1 / 2, k + 1), a.Length);
      rc, next := PutLeaf(a, next, e);
      if rc != 0 {
        return;
      }
      x0, x1, k := x0 / 2, x1 / 2, k + 1;
    }
    EmitNothing(a[..next], a.Length);
  }

  /** The switch on one basic leaf (copy-to-buffer.c:83-129). */
  method PutBasicLeaf(p: Policy, z: Sizes, a: array<CpuidEntry>, curr: nat, leaf: nat) returns (rc: int, next: nat)
    requires Shaped(p, z) && SizesOk(z) && leaf < z.basic && curr <= a.Length
    modifies a
    ensures next <= a.Length
    ensures Outcome(rc, a[..next]) == Emit(old(a[..curr]), LeafEntries(p, z, leaf), a.Length)
  {
    if leaf == LEAF_CACHE {
      rc, next := PutCache(a, curr, p.cache);
    } else if leaf == LEAF_FEAT {
      rc, next := PutFeat(a, curr, p.feat, Min(p.feat[0].a, z.feat - 1));
    } else if leaf == LEAF_TOPO {
      rc, next := PutTopo(a, curr, p.topo);
    } else if leaf == LEAF_XSTATE {
      var e0 := CpuidEntry(LEAF_XSTATE, 0, p.xstate[0]);
      var e1 := CpuidEntry(LEAF_XSTATE, 1, p.xstate[1]);
      ghost var xs := XstateEntries(p.xstate, Xcr0(p) / 4, Xss(p) / 4, 2);
      assert LeafEntries(p, z, leaf) == [e0] + ([e1] + xs);
      EmitAppend(a[..curr], [e0], [e1] + xs, a.Length);
      rc, next := PutLeaf(a, curr, e0);
      if rc != 0 {
        return;
      }
      EmitAppend(a[..next], [e1], xs, a.Length);
      rc, next := PutLeaf(a, next, e1);
      if rc != 0 {
        return;
      }
      rc, next := PutXstate(a, next, p.xstate, Xcr0(p), Xss(p));
    } else {
      rc, next := PutLeaf(a, curr, CpuidEntry(leaf, NO_SUBLEAF, p.basic[leaf]));
    }
  }

  /** The loop over the basic leaves (copy-to-buffer.c:80-130). */
  method PutBasic(p: Policy, z: Sizes, a: array<CpuidEntry>) returns (rc: int, curr: nat)
    requires Shaped(p, z) && SizesOk(z)
    modifies a
    ensures curr <= a.Length
    ensures Outcome(rc, a[..curr]) == Emit([], BasicEntries(p, z, 0, LastBasic(p, z)), a.Length)
  {
    ghost var all := BasicEntries(p, z, 0, LastBasic(p, z));
    rc, curr := 0, 0;
    assert a[..0] == [];
    var last := Min(p.basic[0].a, z.basic - 1);
    var leaf: nat := 0;
    while leaf <= last
      invariant leaf <= last + 1 && curr <= a.Length
      invariant Emit([], all, a.Length) == Emit(a[..curr], BasicEntries(p, z, leaf, last), a.Length)
    {
      EmitAppend(a[..curr], LeafEntries(p, z, leaf), BasicEntries(p, z, leaf + 1, last), a.Length);
      rc, curr := PutBasicLeaf(p, z, a, curr, leaf);
      if rc != 0 {
        return;
      }
      leaf := leaf + 1;
    }
    EmitNothing(a[..curr], a.Length);
  }

  /** The hypervisor leaves and the loop over the extended leaves (copy-to-buffer.c:132-141). */
  method PutTail(p: Policy, z: Sizes, a: array<CpuidEntry>, curr: nat) returns (rc: int, next: nat)
    requires Shaped(p, z) && SizesOk(z) && curr <= a.Length
    modifies a
    ensures next <= a.Length
    ensures Outcome(rc, a[..next]) == Emit(old(a[..curr]), TailEntries(p, z), a.Length)
  {
    var lastExtd := Min(p.extd[0].a % 0x1_0000, z.extd - 1);
    ghost var extd := ExtdEntries(p, z, 0, lastExtd);
    var h1 := CpuidEntry(LEAF_HV, NO_SUBLEAF, Leaf(p.hvLimit, 0, 0, 0));
    var h2 := CpuidEntry(LEAF_HV2, NO_SUBLEAF, Leaf(p.hv2Limit, 0, 0, 0));
    assert TailEntries(p, z) == [h1] + ([h2] + extd);
    EmitAppend(a[..curr], [h1], [h2] + extd, a.Length);
    rc, next := PutLeaf(a, curr, h1);
    if rc != 0 {
      return;
    }
    EmitAppend(a[..next], [h2], extd, a.Length);
    rc, next := PutLeaf(a, next, h2);
    if rc != 0 {
      return;
    }
    var k: nat := 0;
    while k <= lastExtd
      invariant k <= lastExtd + 1 && next <= a.Length
      invariant Emit(old(a[..curr]), TailEntries(p, z), a.Length) == Emit(a[..next], ExtdEntries(p, z, k, lastExtd), a.Length)
    {
      var e := CpuidEntry(LEAF_EXTD + k, NO_SUBLEAF, p.extd[k]);
      EmitAppend(a[..next], [e], ExtdEntries(p, z, k + 1, lastExtd), a.Length);
      rc, next := PutLeaf(a, next, e);
      if rc != 0 {
        return;
      }
      k := k + 1;
    }
    EmitNothing(a[..next], a.Length);
  }

  /**
   * x86_cpuid_copy_to_buffer (copy-to-buffer.c:64-148): the whole
   * serialisation when it fits, with its length as the new *nr_entries_p;
   * otherwise -ENOBUFS, the buffer filled with the first entries, and
   * *nr_entries_p left as it was.
   */
  method CpuidCopyToBuffer(p: Policy, z: Sizes, a: array<CpuidEntry>) returns (rc: int, nrEntries: nat)
    requires Shaped(p, z) && SizesOk(z)
    modifies a
    ensures rc == 0 ==> nrEntries == |CpuidEntries(p, z)| <= a.Length && a[..nrEntries] == CpuidEntries(p, z)
    ensures rc != 0 ==> rc == -ENOBUFS && nrEntries == a.Length < |CpuidEntries(p, z)| &&
                        a[..] == CpuidEntries(p, z)[..a.Length]
  {
    var curr: nat;
    EmitAppend([], BasicEntries(p, z, 0, LastBasic(p, z)), TailEntries(p, z), a.Length);
    rc, curr := PutBasic(p, z, a);
    if rc == 0 {
      rc, curr := PutTail(p, z, a, curr);
    }
    ghost var r := Emit([], CpuidEntries(p, z), a.Length);
    assert r == Outcome(rc, a[..curr]);
    if rc != 0 {
      assert a[..] == a[..curr];
      return rc, a.Length;
    }
    return 0, curr;
  }

  /** copy_msr_to_buffer: write one MSR entry with flags 0, or -ENOBUFS when the buffer is full. */
  method PutMsr(a: array<MsrEntry>, curr: nat, idx: nat, val: nat) returns (rc: int, next: nat)
    requires curr <= a.Length
    modifies a
    ensures next <= a.Length
    ensures Outcome(rc, a[..next]) == Emit(old(a[..curr]), [MsrEntry(idx, 0, val)], a.Length)
  {
    if curr == a.Length {
      assert (old(a[..curr]) + [MsrEntry(idx, 0, val)])[..a.Length] == a[..curr];
      return -ENOBUFS, curr;
    }
    a[curr] := MsrEntry(idx, 0, val);
    assert a[..curr + 1] == old(a[..curr]) + [MsrEntry(idx, 0, val)];
    return 0, curr + 1;
  }

  /** x86_msr_copy_to_buffer (copy-to-buffer.c:172-194). */
  method MsrCopyToBuffer(p: Policy, a: array<MsrEntry>) returns (rc: int, nrEntries: nat)
    modifies a
    ensures rc == 0 ==> nrEntries == 2 <= a.Length && a[..nrEntries] == MsrEntries(p)
    ensures rc != 0 ==> rc == -ENOBUFS && nrEntries == a.Length < 2 && a[..] == MsrEntries(p)[..a.Length]
  {
    var cap := a.Length;
    var curr: nat := 0;
    assert a[..0] == [];
    EmitAppend([], [MsrEntry(MSR_INTEL_PLATFORM_INFO, 0, p.platformInfo)],
               [MsrEntry(MSR_ARCH_CAPABILITIES, 0, p.archCaps)], cap);
    rc, curr := PutMsr(a, curr, MSR_INTEL_PLATFORM_INFO, p.platformInfo);
    if rc != 0 {
      assert a[..] == a[..curr];
      return rc, cap;
    }
    rc, curr := PutMsr(a, curr, MSR_ARCH_CAPABILITIES, p.archCaps);
    if rc != 0 {
      assert a[..] == a[..curr];
      return rc, cap;
    }
    return 0, curr;
  }

  // ---------------------------------------------------------------------
  // x86_msr_copy_from_buffer, one entry at a time
  // ---------------------------------------------------------------------

  /** The bound on the value of an MSR the policy holds: its field is 32 or 64 bits wide. */
  function MsrLimit(idx: nat): Option<nat>
  {
    if idx == MSR_INTEL_PLATFORM_INFO then Some(TWO_32)
    else if idx == MSR_ARCH_CAPABILITIES then Some(TWO_64)
    else None
  }

  /** The value the policy holds for an MSR, if it holds that MSR. */
  function ReadMsr(p: Policy, idx: nat): Option<nat>
  {
    if idx == MSR_INTEL_PLATFORM_INFO then Some(p.platformInfo)
    else if idx == MSR_ARCH_CAPABILITIES then Some(p.archCaps)
    else None
  }

  datatype MsrStep = Stored(p: Policy) | Refused(rc: int)

  /**
   * The loop body of x86_msr_copy_from_buffer (copy-from-buffer.c:188-218):
   * nonzero flags are -EINVAL, an MSR the policy does not hold is -ERANGE,
   * and a value its field would truncate is -EOVERFLOW.
   */
  function ApplyMsr(p: Policy, e: MsrEntry): (r: MsrStep)
    ensures r.Stored? <==> e.flags == 0 && MsrLimit(e.idx).Some? && e.val < MsrLimit(e.idx).value
    ensures r.Refused? && e.flags != 0 ==> r.rc == -EINVAL
    ensures r.Refused? && e.flags == 0 && MsrLimit(e.idx).None? ==> r.rc == -ERANGE
    ensures r.Refused? && e.flags == 0 && MsrLimit(e.idx).Some? ==> r.rc == -EOVERFLOW
    ensures r.Stored? ==>
      && ReadMsr(r.p, e.idx) == Some(e.val)
      && (forall j | j != e.idx :: ReadMsr(r.p, j) == ReadMsr(p, j))
      && r.p.(platformInfo := p.platformInfo, archCaps := p.archCaps) == p
  {
    if e.flags != 0 then Refused(-EINVAL)
    else if e.idx == MSR_INTEL_PLATFORM_INFO then
      if e.val >= TWO_32 then Refused(-EOVERFLOW) else Stored(p.(platformInfo := e.val))
    else if e.idx == MSR_ARCH_CAPABILITIES then
      if e.val >= TWO_64 then Refused(-EOVERFLOW) else Stored(p.(archCaps := e.val))
    else Refused(-ERANGE)
  }

  /** The result of copying MSRs in: return code, the policy and err_msr. */
  datatype MsrResult = MsrResult(rc: int, p: Policy, errMsr: nat)

  /** The entry loop (copy-from-buffer.c:183-227): apply entries in order, stopping at the first refused one. */
  function ApplyMsrs(p: Policy, es: seq<MsrEntry>): (r: MsrResult)
    ensures r.rc == 0 || r.rc == -EINVAL || r.rc == -ERANGE || r.rc == -EOVERFLOW
    ensures r.rc == 0 ==> r.errMsr == NO_ERROR
    ensures r.p.(platformInfo := p.platformInfo, archCaps := p.archCaps) == p
    decreases |es|
  {
    if es == [] then MsrResult(0, p, NO_ERROR)
    else match ApplyMsr(p, es[0])
      case Refused(rc) => MsrResult(rc, p, es[0].idx)
      case Stored(p') => ApplyMsrs(p', es[1..])
  }

  /** x86_msr_copy_from_buffer as a function of the policy before and the entries. */
  function MsrFromBuffer(p: Policy, maxMsrs: nat, es: seq<MsrEntry>): (r: MsrResult)
    ensures |es| > maxMsrs ==> r == MsrResult(-E2BIG, p, NO_ERROR)
  {
    if |es| > maxMsrs then MsrResult(-E2BIG, p, NO_ERROR) else ApplyMsrs(p, es)
  }

  // ---------------------------------------------------------------------
  // The policy object the copy-from functions update in place
  // ---------------------------------------------------------------------

  /** The fields of struct cpu_policy that the buffers carry. */
  class PolicyState {
    var basic: seq<Leaf>
    var cache: seq<Leaf>
    var feat: seq<Leaf>
    var topo: seq<Leaf>
    var xstate: seq<Leaf>
    var extd: seq<Leaf>
    var hvLimit: nat
    var hv2Limit: nat
    var platformInfo: nat
    var archCaps: nat

    function Value(): Policy
      reads this
    {
      Policy(basic, cache, feat, topo, xstate, extd, hvLimit, hv2Limit, platformInfo, archCaps)
    }

    constructor (p: Policy)
      ensures Value() == p
    {
      basic, cache, feat, topo, xstate, extd := p.basic, p.cache, p.feat, p.topo, p.xstate, p.extd;
      hvLimit, hv2Limit, platformInfo, archCaps := p.hvLimit, p.hv2Limit, p.platformInfo, p.archCaps;
    }

    /** One pass of the switch (copy-from-buffer.c:76-143): store e, or false for out_of_range. */
    method StoreLeaf(z: Sizes, e: CpuidEntry) returns (ok: bool)
      requires Shaped(Value(), z) && SizesOk(z)
      modifies this
      ensures ok <==> ApplyLeaf(old(Value()), z, e).Some?
      ensures Value() == if ok then ApplyLeaf(old(Value()), z, e).value else old(Value())
    {
      var leaf, sub, l := e.leaf, e.subleaf, e.data;
      ok := true;
      if leaf < z.basic {
        if leaf == LEAF_CACHE {
          if sub >= z.cache { return false; }
          cache := cache[sub := l];
        } else if leaf == LEAF_FEAT {
          if sub >= z.feat { return false; }
          feat := feat[sub := l];
        } else if leaf == LEAF_TOPO {
          if sub >= z.topo { return false; }
          topo := topo[sub := l];
        } else if leaf == LEAF_XSTATE {
          if sub >= z.xstate { return false; }
          xstate := xstate[sub := l];
        } else {
          if sub != NO_SUBLEAF { return false; }
          basic := basic[leaf := l];
        }
      } else if leaf == LEAF_HV {
        if sub != NO_SUBLEAF { return false; }
        hvLimit := l.a;
      } else if leaf == LEAF_HV2 {
        if sub != NO_SUBLEAF { return false; }
        hv2Limit := l.a;
      } else if LEAF_EXTD <= leaf < LEAF_EXTD + z.extd {
        if sub != NO_SUBLEAF { return false; }
        extd := extd[leaf % 0x1_0000 := l];
      } else {
        ok := false;
      }
    }

    /**
     * x86_cpuid_copy_from_buffer (copy-from-buffer.c:43-157): err_leaf and
     * err_subleaf start as -1; more than maxLeaves entries is -E2BIG before
     * anything is read; the entries are stored in order and the first one
     * out of range ends the copy with -ERANGE, naming it in err_leaf and
     * err_subleaf and keeping what was stored before it.  recalc says that
     * x86_cpu_policy_recalc_synth ran, which it does exactly on success.
     */
    method CpuidCopyFromBuffer(z: Sizes, leaves: seq<CpuidEntry>)
      returns (rc: int, errLeaf: nat, errSubleaf: nat, recalc: bool)
      requires Shaped(Value(), z) && SizesOk(z)
      modifies this
      ensures var r := CpuidFromBuffer(old(Value()), z, leaves);
        rc == r.rc && Value() == r.p && errLeaf == r.errLeaf && errSubleaf == r.errSubleaf
      ensures recalc <==> rc == 0
    {
      errLeaf, errSubleaf, recalc := NO_ERROR, NO_ERROR, false;
      if |leaves| > z.maxLeaves {
        return -E2BIG, errLeaf, errSubleaf, recalc;
      }
      var i := 0;
      while i < |leaves|
        invariant i <= |leaves| && Shaped(Value(), z)
        invariant CpuidFromBuffer(old(Value()), z, leaves) == ApplyLeaves(Value(), z, leaves[i..])
      {
        assert leaves[i..][0] == leaves[i] && leaves[i..][1..] == leaves[i + 1..];
        var ok := StoreLeaf(z, leaves[i]);
        if !ok {
          return -ERANGE, leaves[i].leaf, leaves[i].subleaf, false;
        }
        i := i + 1;
      }
      return 0, errLeaf, errSubleaf, true;
    }

    /** One pass of the loop body (copy-from-buffer.c:188-218): store e, or the error code. */
    method StoreMsr(e: MsrEntry) returns (rc: int)
      modifies this
      ensures rc == 0 <==> ApplyMsr(old(Value()), e).Stored?
      ensures rc != 0 ==> rc == ApplyMsr(old(Value()), e).rc && Value() == old(Value())
      ensures rc == 0 ==> Value() == ApplyMsr(old(Value()), e).p
    {
      if e.flags != 0 {
        return -EINVAL;
      }
      if e.idx == MSR_INTEL_PLATFORM_INFO {
        if e.val >= TWO_32 {
          return -EOVERFLOW;
        }
        platformInfo := e.val;
      } else if e.idx == MSR_ARCH_CAPABILITIES {
        if e.val >= TWO_64 {
          return -EOVERFLOW;
        }
        archCaps := e.val;
      } else {
        return -ERANGE;
      }
      return 0;
    }

    /**
     * x86_msr_copy_from_buffer (copy-from-buffer.c:159-228): err_msr starts
     * as -1; more than maxMsrs entries is -E2BIG; the entries are stored in
     * order and the first refused one ends the copy, naming its index in
     * err_msr and keeping what was stored before it.
     */
    method MsrCopyFromBuffer(maxMsrs: nat, msrs: seq<MsrEntry>) returns (rc: int, errMsr: nat)
      modifies this
      ensures var r := MsrFromBuffer(old(Value()), maxMsrs, msrs);
        rc == r.rc && Value() == r.p && errMsr == r.errMsr
    {
      errMsr := NO_ERROR;
      if |msrs| > maxMsrs {
        return -E2BIG, errMsr;
      }
      var i := 0;
      while i < |msrs|
        invariant i <= |msrs|
        invariant MsrFromBuffer(old(Value()), maxMsrs, msrs) == ApplyMsrs(Value(), msrs[i..])
      {
        assert msrs[i..][0] == msrs[i] && msrs[i..][1..] == msrs[i + 1..];
        rc := StoreMsr(msrs[i]);
        if rc != 0 {
          return rc, msrs[i].idx;
        }
        i := i + 1;
      }
      return 0, errMsr;
    }
  }
}
