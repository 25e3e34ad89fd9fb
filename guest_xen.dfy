/**
 * Xen running as a guest of Xen (xen/arch/x86/guest/xen/xen.c): finding
 * the hypervisor's CPUID leaves, choosing the hypercall instruction,
 * masking and scanning the two-level event-channel bitmaps of the shared
 * info page, and mapping each vCPU's vcpu_info. Bitmap words are sets of
 * bit positions, as in BitSet.
 */
module GuestXen {
  import opened Opt
  import opened BitSet

  /** sizeof(xen_ulong_t) * 8 words of pending and of mask bits in the shared info page. */
  const EVTCHN_WORDS: nat := 64
  /** The vcpu_info slots of the shared info page. */
  const XEN_LEGACY_MAX_VCPUS: nat := 32
  const TWO_32: nat := 0x1_0000_0000

  /** Port numbers: word l1's bits offset by l1 * BITS_PER_LONG. */
  function Offset(base: nat, bits: seq<nat>): (r: seq<nat>)
    ensures |r| == |bits|
  {
    seq(|bits|, k requires 0 <= k < |bits| => base + bits[k])
  }

  lemma OffsetAppend(base: nat, bits: seq<nat>, b: nat)
    ensures Offset(base, bits + [b]) == Offset(base, bits) + [base + b]
  {
  }

  /** The ports of word l1 whose bits are e, lowest first. */
  function WordPorts(l1: nat, e: set<nat>): seq<nat>
  {
    Offset(l1 * BITS_PER_LONG, Below(e, BITS_PER_LONG))
  }

  /** The ports of the first n words the selector names, each word's unmasked pending bits in order. */
  function PortsTo(sel: set<nat>, pending: seq<set<nat>>, mask: seq<set<nat>>, n: nat): seq<nat>
    requires |pending| == EVTCHN_WORDS && |mask| == EVTCHN_WORDS && n <= EVTCHN_WORDS
  {
    if n == 0 then []
    else
      PortsTo(sel, pending, mask, n - 1)
        + (if n - 1 in sel then WordPorts(n - 1, pending[n - 1] - mask[n - 1]) else [])
  }

  /** The ports one upcall handles. */
  function Ports(sel: set<nat>, pending: seq<set<nat>>, mask: seq<set<nat>>): seq<nat>
    requires |pending| == EVTCHN_WORDS && |mask| == EVTCHN_WORDS
  {
    PortsTo(sel, pending, mask, EVTCHN_WORDS)
  }

  lemma {:induction false} PortsToSkip(sel: set<nat>, pending: seq<set<nat>>, mask: seq<set<nat>>, lo: nat, hi: nat)
    requires |pending| == EVTCHN_WORDS && |mask| == EVTCHN_WORDS && lo <= hi <= EVTCHN_WORDS
    requires forall x | lo <= x < hi :: x !in sel
    ensures PortsTo(sel, pending, mask, hi) == PortsTo(sel, pending, mask, lo)
    decreases hi - lo
  {
    if lo < hi {
      PortsToSkip(sel, pending, mask, lo, hi - 1);
    }
  }

  /** The ports of one word are those of its bits, offset by the word's first port, in ascending order. */
  lemma WordPortsSpec(l1: nat, e: set<nat>)
    ensures forall p :: p in WordPorts(l1, e) <==> p / BITS_PER_LONG == l1 && p % BITS_PER_LONG in e
    ensures forall k | 0 <= k < |WordPorts(l1, e)| ::
      l1 * BITS_PER_LONG <= WordPorts(l1, e)[k] < (l1 + 1) * BITS_PER_LONG
    ensures forall j, k | 0 <= j < k < |WordPorts(l1, e)| :: WordPorts(l1, e)[j] < WordPorts(l1, e)[k]
  {
    BelowSpec(e, BITS_PER_LONG);
    var bits := Below(e, BITS_PER_LONG);
    var word := WordPorts(l1, e);
    forall p
      ensures p in word <==> p / BITS_PER_LONG == l1 && p % BITS_PER_LONG in e
    {
      if p in word {
        var k :| 0 <= k < |word| && word[k] == p;
        assert p == l1 * BITS_PER_LONG + bits[k];
      }
      if p / BITS_PER_LONG == l1 && p % BITS_PER_LONG in e {
        var b := p % BITS_PER_LONG;
        assert b in bits;
        var k :| 0 <= k < |bits| && bits[k] == b;
        assert word[k] == p;
      }
    }
  }

  lemma {:induction false} PortsToSpec(sel: set<nat>, pending: seq<set<nat>>, mask: seq<set<nat>>, n: nat)
    requires |pending| == EVTCHN_WORDS && |mask| == EVTCHN_WORDS && n <= EVTCHN_WORDS
    ensures forall p :: p in PortsTo(sel, pending, mask, n) <==>
      p / BITS_PER_LONG < n && p / BITS_PER_LONG in sel
      && p % BITS_PER_LONG in pending[p / BITS_PER_LONG] && p % BITS_PER_LONG !in mask[p / BITS_PER_LONG]
    ensures forall j, k | 0 <= j < k < |PortsTo(sel, pending, mask, n)| ::
      PortsTo(sel, pending, mask, n)[j] < PortsTo(sel, pending, mask, n)[k]
    ensures forall k | 0 <= k < |PortsTo(sel, pending, mask, n)| :: PortsTo(sel, pending, mask, n)[k] < n * BITS_PER_LONG
  {
    if n > 0 {
      var l1 := n - 1;
      PortsToSpec(sel, pending, mask, l1);
      WordPortsSpec(l1, pending[l1] - mask[l1]);
    }
  }

  /** An upcall handles the ports pending, selected and unmasked, each once and in ascending order. */
  lemma PortsSpec(sel: set<nat>, pending: seq<set<nat>>, mask: seq<set<nat>>, p: nat)
    requires |pending| == EVTCHN_WORDS && |mask| == EVTCHN_WORDS
    ensures p in Ports(sel, pending, mask) <==>
      p / BITS_PER_LONG in sel && p / BITS_PER_LONG < EVTCHN_WORDS
      && p % BITS_PER_LONG in pending[p / BITS_PER_LONG] && p % BITS_PER_LONG !in mask[p / BITS_PER_LONG]
    ensures forall j, k | 0 <= j < k < |Ports(sel, pending, mask)| :: Ports(sel, pending, mask)[j] < Ports(sel, pending, mask)[k]
  {
    PortsToSpec(sel, pending, mask, EVTCHN_WORDS);
  }

  lemma {:induction false} PortsToMasked(sel: set<nat>, pending: seq<set<nat>>, mask: seq<set<nat>>, n: nat)
    requires |pending| == EVTCHN_WORDS && |mask| == EVTCHN_WORDS && n <= EVTCHN_WORDS
    requires forall i | 0 <= i < EVTCHN_WORDS :: mask[i] == AllBits()
    requires forall i | 0 <= i < EVTCHN_WORDS :: WordOk(pending[i])
    ensures PortsTo(sel, pending, mask, n) == []
  {
    if n > 0 {
      PortsToMasked(sel, pending, mask, n - 1);
      var w := pending[n - 1];
      forall b | b in w
        ensures b in mask[n - 1]
      {
        assert b < BITS_PER_LONG;
      }
      assert pending[n - 1] - mask[n - 1] == {};
      BelowEmpty(BITS_PER_LONG);
    }
  }

  /** With every mask word ~0, as map_shared_info leaves them, an upcall handles no port. */
  lemma MaskedHandlesNothing(sel: set<nat>, pending: seq<set<nat>>, mask: seq<set<nat>>)
    requires |pending| == EVTCHN_WORDS && |mask| == EVTCHN_WORDS
    requires forall i | 0 <= i < EVTCHN_WORDS :: mask[i] == AllBits()
    requires forall i | 0 <= i < EVTCHN_WORDS :: WordOk(pending[i])
    ensures Ports(sel, pending, mask) == []
  {
    PortsToMasked(sel, pending, mask, EVTCHN_WORDS);
  }

  /** What the upcall does with a port: the PV console's port goes to the console, others to the shim's guest. */
  datatype Action = ConsoleRx | ShimInject(port: nat) | Ignored(port: nat)

  datatype Routing = Routing(pvConsole: bool, consolePort: nat, pvShim: bool)

  function Route(port: nat, r: Routing): Action
  {
    if r.pvConsole && port == r.consolePort then ConsoleRx
    else if r.pvShim then ShimInject(port)
    else Ignored(port)
  }

  function RouteAll(ports: seq<nat>, r: Routing): (acts: seq<Action>)
    ensures |acts| == |ports|
  {
    seq(|ports|, k requires 0 <= k < |ports| => Route(ports[k], r))
  }

  lemma RouteAllAppend(a: seq<nat>, b: seq<nat>, r: Routing)
    ensures RouteAll(a + b, r) == RouteAll(a, r) + RouteAll(b, r)
  {
  }

  /** The shared info page's event-channel bitmaps. */
  class SharedInfo {
    var evtchnPending: array<set<nat>>
    var evtchnMask: array<set<nat>>

    ghost predicate Valid()
      reads this, evtchnPending, evtchnMask
    {
      && evtchnPending.Length == EVTCHN_WORDS && evtchnMask.Length == EVTCHN_WORDS
      && evtchnPending != evtchnMask
      && (forall i | 0 <= i < EVTCHN_WORDS :: WordOk(evtchnPending[i]))
      && (forall i | 0 <= i < EVTCHN_WORDS :: WordOk(evtchnMask[i]))
    }

    constructor ()
      ensures Valid() && fresh(evtchnPending) && fresh(evtchnMask)
      ensures forall i | 0 <= i < EVTCHN_WORDS :: evtchnPending[i] == {} && evtchnMask[i] == {}
    {
      evtchnPending := new set<nat>[EVTCHN_WORDS](_ => {});
      evtchnMask := new set<nat>[EVTCHN_WORDS](_ => {});
    }

    /** The mask loop of map_shared_info: every event channel masked. */
    method MaskAllUpcalls()
      requires Valid()
      modifies evtchnMask
      ensures Valid()
      ensures forall i | 0 <= i < EVTCHN_WORDS :: evtchnMask[i] == AllBits()
    {
      for i := 0 to evtchnMask.Length
        invariant forall k | 0 <= k < i :: evtchnMask[k] == AllBits()
        invariant forall k | 0 <= k < EVTCHN_WORDS :: WordOk(evtchnMask[k])
      {
        evtchnMask[i] := AllBits();
      }
    }
  }

  /** The parts of this CPU's vcpu_info the upcall uses. */
  class VcpuInfo {
    var upcallPending: bool
    var pendingSel: set<nat>

    constructor (sel: set<nat>)
      ensures upcallPending && pendingSel == sel
    {
      upcallPending := true;
      pendingSel := sel;
    }
  }

  /** The inner loop of xen_evtchn_upcall: the set bits of one word, lowest first, as ports. */
  method DrainWord(l1: nat, e: set<nat>, r: Routing) returns (acts: seq<Action>)
    requires WordOk(e)
    ensures acts == RouteAll(WordPorts(l1, e), r)
  {
    var evtchn := e;
    acts := [];
    ghost var lo: nat := 0;
    while evtchn != {}
      invariant lo <= BITS_PER_LONG
      invariant forall y :: y in evtchn <==> y in e && lo <= y
      invariant acts == RouteAll(Offset(l1 * BITS_PER_LONG, Below(e, lo)), r)
      decreases |evtchn|
    {
      var port := Lowest(evtchn, 0);
      LowestStep(e, evtchn, lo, port);
      DrainStep(l1, e, lo, port, r);
      evtchn := evtchn - {port};
      acts := acts + [Route(l1 * BITS_PER_LONG + port, r)];
      lo := port + 1;
    }
    BelowSkip(e, lo, BITS_PER_LONG);
  }

  /** Handling the lowest bit left, `port`, extends the handled prefix of the word by that one port. */
  lemma DrainStep(l1: nat, e: set<nat>, lo: nat, port: nat, r: Routing)
    requires lo <= port && port in e
    requires forall x | lo <= x < port :: x !in e
    ensures RouteAll(Offset(l1 * BITS_PER_LONG, Below(e, port + 1)), r)
      == RouteAll(Offset(l1 * BITS_PER_LONG, Below(e, lo)), r) + [Route(l1 * BITS_PER_LONG + port, r)]
  {
    BelowNext(e, lo, port);
    OffsetAppend(l1 * BITS_PER_LONG, Below(e, port), port);
    RouteAllAppend(Offset(l1 * BITS_PER_LONG, Below(e, port)), [l1 * BITS_PER_LONG + port], r);
  }

  /**
   * xen_evtchn_upcall: clears the upcall flag and the selector, then, for
   * each selected word from the lowest, takes and zeroes the pending word
   * (masked bits included) and handles its unmasked bits from the lowest.
   */
  method XenEvtchnUpcall(v: VcpuInfo, sh: SharedInfo, r: Routing) returns (acts: seq<Action>)
    requires sh.Valid() && WordOk(v.pendingSel)
    modifies v, sh.evtchnPending
    ensures sh.Valid()
    ensures !v.upcallPending && v.pendingSel == {}
    ensures acts == RouteAll(Ports(old(v.pendingSel), old(sh.evtchnPending[..]), sh.evtchnMask[..]), r)
    ensures forall i | 0 <= i < EVTCHN_WORDS ::
      sh.evtchnPending[i] == if i in old(v.pendingSel) then {} else old(sh.evtchnPending[i])
  {
    ghost var sel := v.pendingSel;
    ghost var pend := sh.evtchnPending[..];
    ghost var mask := sh.evtchnMask[..];
    v.upcallPending := false;
    var pending := v.pendingSel;
    v.pendingSel := {};
    acts := [];
    ghost var lo: nat := 0;
    while pending != {}
      invariant lo <= EVTCHN_WORDS
      invariant forall y :: y in pending <==> y in sel && lo <= y
      invariant sh.evtchnMask[..] == mask
      invariant sh.evtchnPending[..] == ClearedBelow(pend, sel, lo)
      invariant sh.Valid()
      invariant acts == RouteAll(PortsTo(sel, pend, mask, lo), r)
      invariant !v.upcallPending && v.pendingSel == {}
      decreases |pending|
    {
      var l1 := Lowest(pending, 0);
      UpcallStep(sel, pend, mask, pending, lo, l1, r);
      pending := pending - {l1};
      assert sh.evtchnPending[l1] == pend[l1] && sh.evtchnMask[l1] == mask[l1];
      var wordActs := TakeWord(sh, l1, r);
      acts := acts + wordActs;
      lo := l1 + 1;
    }
    UpcallDone(sel, pend, mask, pending, lo);
  }

  /**
   * One pass of xen_evtchn_upcall's outer loop: with `pending` holding the
   * selector bits from lo up, its lowest bit l1 skips no selected word,
   * and handling word l1 extends both the handled ports and the zeroed
   * words by that word.
   */
  lemma UpcallStep(sel: set<nat>, pend: seq<set<nat>>, mask: seq<set<nat>>, pending: set<nat>, lo: nat, l1: nat, r: Routing)
    requires |pend| == EVTCHN_WORDS && |mask| == EVTCHN_WORDS && l1 < EVTCHN_WORDS
    requires forall y :: y in pending <==> y in sel && lo <= y
    requires l1 in pending && forall x | x in pending :: l1 <= x
    ensures lo <= l1
    ensures forall y :: y in pending - {l1} <==> y in sel && l1 + 1 <= y
    ensures ClearedBelow(pend, sel, lo)[l1 := {}] == ClearedBelow(pend, sel, l1 + 1)
    ensures RouteAll(PortsTo(sel, pend, mask, l1 + 1), r)
      == RouteAll(PortsTo(sel, pend, mask, lo), r) + RouteAll(WordPorts(l1, pend[l1] - mask[l1]), r)
  {
    LowestStep(sel, pending, lo, l1);
    PortsToSkip(sel, pend, mask, lo, l1);
    ClearedStep(pend, sel, lo, l1);
    RouteAllAppend(PortsTo(sel, pend, mask, l1), WordPorts(l1, pend[l1] - mask[l1]), r);
  }

  /** When the selector is exhausted every selected word has been handled and zeroed. */
  lemma UpcallDone(sel: set<nat>, pend: seq<set<nat>>, mask: seq<set<nat>>, pending: set<nat>, lo: nat)
    requires |pend| == EVTCHN_WORDS && |mask| == EVTCHN_WORDS && lo <= EVTCHN_WORDS
    requires forall y :: y in pending <==> y in sel && lo <= y
    requires pending == {}
    ensures PortsTo(sel, pend, mask, lo) == Ports(sel, pend, mask)
    ensures forall i | 0 <= i < EVTCHN_WORDS :: ClearedBelow(pend, sel, lo)[i] == if i in sel then {} else pend[i]
  {
    assert forall y | lo <= y :: y !in sel by {
      forall y | lo <= y
        ensures y !in sel
      {
        assert y in sel ==> y in pending;
      }
    }
    PortsToSkip(sel, pend, mask, lo, EVTCHN_WORDS);
    ClearedAll(pend, sel, lo);
  }

  /** The body of the outer loop of xen_evtchn_upcall for word l1: take and zero it, then handle its unmasked bits. */
  method TakeWord(sh: SharedInfo, l1: nat, r: Routing) returns (acts: seq<Action>)
    requires sh.Valid() && l1 < EVTCHN_WORDS
    modifies sh.evtchnPending
    ensures sh.Valid()
    ensures sh.evtchnPending[..] == old(sh.evtchnPending[..])[l1 := {}]
    ensures acts == RouteAll(WordPorts(l1, old(sh.evtchnPending[l1]) - sh.evtchnMask[l1]), r)
  {
    var evtchn := sh.evtchnPending[l1];
    sh.evtchnPending[l1] := {};
    evtchn := evtchn - sh.evtchnMask[l1];
    acts := DrainWord(l1, evtchn, r);
  }

  /** The pending words once the selected ones below lo are zeroed. */
  function ClearedBelow(pend: seq<set<nat>>, sel: set<nat>, lo: nat): (r: seq<set<nat>>)
    ensures |r| == |pend|
  {
    seq(|pend|, i requires 0 <= i < |pend| => if i in sel && i < lo then {} else pend[i])
  }

  lemma ClearedStep(pend: seq<set<nat>>, sel: set<nat>, lo: nat, l1: nat)
    requires lo <= l1 < |pend| && l1 in sel
    requires forall x | lo <= x < l1 :: x !in sel
    ensures ClearedBelow(pend, sel, lo)[l1 := {}] == ClearedBelow(pend, sel, l1 + 1)
  {
  }

  lemma ClearedAll(pend: seq<set<nat>>, sel: set<nat>, lo: nat)
    requires |pend| <= lo || forall x | lo <= x < |pend| :: x !in sel
    ensures forall i | 0 <= i < |pend| :: ClearedBelow(pend, sel, lo)[i] == if i in sel then {} else pend[i]
  {
  }

  // ---------------------------------------------------------------------
  // Hypercall instruction and CPUID leaves.

  datatype Vendor = UnknownVendor | Intel | Amd | Centaur | Shanghai | Hygon

  /** The instruction early hypercalls use: 0 for VMCALL, 1 for VMMCALL; `useVmcall` is X86_FEATURE_USE_VMCALL. */
  datatype HypercallInsn = HypercallInsn(insn: int, vendor: Vendor, useVmcall: bool)

  /**
   * early_hypercall_setup: `insn` must still be -1 and the vendor (looked
   * up from CPUID leaf 0, `cpuidVendor`, when not known yet) must be one of
   * the five; anything else is a BUG, None here.
   */
  function EarlyHypercallSetup(insn: int, vendor: Vendor, cpuidVendor: Vendor): (r: Option<HypercallInsn>)
    ensures var v := if vendor == UnknownVendor then cpuidVendor else vendor;
      && (r.Some? <==> insn == -1 && v != UnknownVendor)
      && (r.Some? ==> r.value.vendor == v)
      && (r.Some? ==> (r.value.insn == 0 <==> v in {Intel, Centaur, Shanghai}))
      && (r.Some? ==> (r.value.insn == 1 <==> v in {Amd, Hygon}))
      && (r.Some? ==> (r.value.useVmcall <==> r.value.insn == 0))
  {
    if insn != -1 then None
    else
      var v := if vendor == UnknownVendor then cpuidVendor else vendor;
      match v
      case Intel => Some(HypercallInsn(0, v, true))
      case Centaur => Some(HypercallInsn(0, v, true))
      case Shanghai => Some(HypercallInsn(0, v, true))
      case Amd => Some(HypercallInsn(1, v, false))
      case Hygon => Some(HypercallInsn(1, v, false))
      case UnknownVendor => None
  }

  const XEN_CPUID_FIRST_LEAF: nat := 0x4000_0000
  /** "XenVMMXenVMM" in ebx, ecx, edx. */
  const XEN_CPUID_SIGNATURE_EBX: nat := 0x566e_6558
  const XEN_CPUID_SIGNATURE_ECX: nat := 0x6558_4d4d
  const XEN_CPUID_SIGNATURE_EDX: nat := 0x4d4d_566e

  datatype CpuidRegs = CpuidRegs(eax: nat, ebx: nat, ecx: nat, edx: nat)

  /** The leaf at `base` is Xen's: the signature, and at least two leaves above the base (eax - base in 32-bit unsigned). */
  predicate IsXenBase(regs: CpuidRegs, base: nat)
  {
    && regs.ebx == XEN_CPUID_SIGNATURE_EBX
    && regs.ecx == XEN_CPUID_SIGNATURE_ECX
    && regs.edx == XEN_CPUID_SIGNATURE_EDX
    && (regs.eax + TWO_32 - base % TWO_32) % TWO_32 >= 2
  }

  predicate IsCandidate(base: nat)
  {
    XEN_CPUID_FIRST_LEAF <= base < XEN_CPUID_FIRST_LEAF + 0x1_0000 && base % 0x100 == 0
  }

  /** The first candidate base at or above `base` whose leaf is Xen's. */
  function FindFrom(cpuid: nat -> CpuidRegs, base: nat): Option<nat>
    decreases XEN_CPUID_FIRST_LEAF + 0x1_0000 - base
  {
    if base >= XEN_CPUID_FIRST_LEAF + 0x1_0000 then None
    else if IsXenBase(cpuid(base), base) then Some(base)
    else FindFrom(cpuid, base + 0x100)
  }

  lemma {:induction false} FindFromSpec(cpuid: nat -> CpuidRegs, base: nat)
    requires base % 0x100 == 0 && base >= XEN_CPUID_FIRST_LEAF
    ensures FindFrom(cpuid, base).Some? ==>
      && IsCandidate(FindFrom(cpuid, base).value)
      && base <= FindFrom(cpuid, base).value
      && IsXenBase(cpuid(FindFrom(cpuid, base).value), FindFrom(cpuid, base).value)
    ensures forall b: nat | IsCandidate(b) && base <= b && (FindFrom(cpuid, base).None? || b < FindFrom(cpuid, base).value) ::
      !IsXenBase(cpuid(b), b)
    decreases XEN_CPUID_FIRST_LEAF + 0x1_0000 - base
  {
    if base < XEN_CPUID_FIRST_LEAF + 0x1_0000 && !IsXenBase(cpuid(base), base) {
      FindFromSpec(cpuid, base + 0x100);
      forall b: nat | IsCandidate(b) && base <= b && b < base + 0x100
        ensures b == base
      {
      }
    }
  }

  /** find_xen_leaves picks the lowest candidate base whose leaf is Xen's, or leaves xen_cpuid_base unset. */
  lemma FindXenLeavesSpec(cpuid: nat -> CpuidRegs)
    ensures FindFrom(cpuid, XEN_CPUID_FIRST_LEAF).Some? ==>
      && IsCandidate(FindFrom(cpuid, XEN_CPUID_FIRST_LEAF).value)
      && IsXenBase(cpuid(FindFrom(cpuid, XEN_CPUID_FIRST_LEAF).value), FindFrom(cpuid, XEN_CPUID_FIRST_LEAF).value)
    ensures forall b: nat | IsCandidate(b) && (FindFrom(cpuid, XEN_CPUID_FIRST_LEAF).None? || b < FindFrom(cpuid, XEN_CPUID_FIRST_LEAF).value) ::
      !IsXenBase(cpuid(b), b)
  {
    FindFromSpec(cpuid, XEN_CPUID_FIRST_LEAF);
  }

  /** find_xen_leaves: the loop over candidate bases, with `cpuid` the CPUID instruction. */
  method FindXenLeaves(cpuid: nat -> CpuidRegs) returns (xenCpuidBase: Option<nat>)
    ensures xenCpuidBase == FindFrom(cpuid, XEN_CPUID_FIRST_LEAF)
  {
    var base := XEN_CPUID_FIRST_LEAF;
    while base < XEN_CPUID_FIRST_LEAF + 0x1_0000
      invariant FindFrom(cpuid, base) == FindFrom(cpuid, XEN_CPUID_FIRST_LEAF)
      decreases XEN_CPUID_FIRST_LEAF + 0x1_0000 - base
    {
      var regs := cpuid(base);
      if IsXenBase(regs, base) {
        return Some(base);
      }
      base := base + 0x100;
    }
    return None;
  }

  // ---------------------------------------------------------------------
  // vcpu_info mapping and the vCPU limit.

  /** Where this CPU's vcpu_info pointer points: the shared info page's slot, or the registered array's. */
  datatype VcpuInfoLoc = NoVcpuInfo | SharedSlot(vcpu: nat) | ArraySlot(vcpu: nat)

  /** A location the hypervisor keeps up to date: a legacy slot, or an array slot that was registered. */
  predicate Usable(loc: VcpuInfoLoc, mapped: set<nat>)
  {
    (loc.SharedSlot? && loc.vcpu < XEN_LEGACY_MAX_VCPUS) || (loc.ArraySlot? && loc.vcpu in mapped)
  }

  /** The vCPUs present after the clamp loop: every vCPU from lo up to hi removed. */
  method ClearCpus(present: set<nat>, lo: nat, hi: nat) returns (p: set<nat>)
    ensures p == present - Span(lo, hi)
  {
    p := present;
    var i := lo;
    while i < hi
      invariant lo <= i && (i <= hi || i == lo)
      invariant p == present - Span(lo, i)
      decreases hi - i
    {
      p := p - {i};
      i := i + 1;
    }
  }

  /** The guest's vcpu_info state: the array (if any), the bitmap of registered slots, the current CPU's pointer, and the CPU limits. */
  class XenGuest {
    var haveArray: bool
    var mapped: set<nat>
    var current: VcpuInfoLoc
    var nrCpuIds: nat
    var present: set<nat>

    constructor (nrCpus: nat, cpus: set<nat>)
      ensures !haveArray && mapped == {} && current == NoVcpuInfo
      ensures nrCpuIds == nrCpus && present == cpus
    {
      haveArray := false;
      mapped := {};
      current := NoVcpuInfo;
      nrCpuIds := nrCpus;
      present := cpus;
    }

    /**
     * map_vcpuinfo for vCPU `vcpu`, with `registerRc` the answer of
     * VCPUOP_register_vcpu_info: no array means the legacy slot; a slot
     * already registered is reused; a successful registration marks the
     * slot; a failed one falls back to the legacy slot when there is one
     * and is an error otherwise.
     */
    method MapVcpuInfo(vcpu: nat, registerRc: int) returns (rc: int)
      modifies this
      ensures haveArray == old(haveArray) && nrCpuIds == old(nrCpuIds) && present == old(present)
      ensures !haveArray ==> rc == 0 && current == SharedSlot(vcpu) && mapped == old(mapped)
      ensures haveArray && vcpu in old(mapped) ==> rc == 0 && current == ArraySlot(vcpu) && mapped == old(mapped)
      ensures haveArray && vcpu !in old(mapped) && registerRc == 0 ==>
        rc == 0 && current == ArraySlot(vcpu) && mapped == old(mapped) + {vcpu}
      ensures haveArray && vcpu !in old(mapped) && registerRc != 0 ==>
        && mapped == old(mapped)
        && (vcpu < XEN_LEGACY_MAX_VCPUS ==> rc == 0 && current == SharedSlot(vcpu))
        && (vcpu >= XEN_LEGACY_MAX_VCPUS ==> rc == registerRc && current == old(current))
      ensures haveArray && rc == 0 ==> Usable(current, mapped)
    {
      if !haveArray {
        current := SharedSlot(vcpu);
        return 0;
      }
      if vcpu in mapped {
        current := ArraySlot(vcpu);
        return 0;
      }
      rc := registerRc;
      if rc == 0 {
        current := ArraySlot(vcpu);
        mapped := mapped + {vcpu};
      } else if vcpu < XEN_LEGACY_MAX_VCPUS {
        rc := 0;
        current := SharedSlot(vcpu);
      }
    }

    /**
     * The vcpu_info part of setup() for the boot vCPU: allocate the array
     * (`allocOk`), map this vCPU, drop the array if that fails, and without
     * an array limit the vCPUs to the legacy slots.
     */
    method SetupVcpuInfo(vcpu: nat, allocOk: bool, registerRc: int)
      modifies this
      ensures mapped == old(mapped) + (if allocOk && vcpu !in old(mapped) && registerRc == 0 then {vcpu} else {})
      ensures haveArray == (allocOk && (vcpu in old(mapped) || registerRc == 0 || vcpu < XEN_LEGACY_MAX_VCPUS))
      ensures !allocOk ==> current == SharedSlot(vcpu)
      ensures allocOk && (vcpu in old(mapped) || registerRc == 0) ==> current == ArraySlot(vcpu)
      ensures allocOk && vcpu !in old(mapped) && registerRc != 0 ==>
        current == if vcpu < XEN_LEGACY_MAX_VCPUS then SharedSlot(vcpu) else old(current)
      ensures haveArray ==> Usable(current, mapped)
      ensures !haveArray && old(nrCpuIds) > XEN_LEGACY_MAX_VCPUS ==>
        && nrCpuIds == XEN_LEGACY_MAX_VCPUS
        && present == old(present) - Span(XEN_LEGACY_MAX_VCPUS, old(nrCpuIds))
      ensures !(!haveArray && old(nrCpuIds) > XEN_LEGACY_MAX_VCPUS) ==>
        nrCpuIds == old(nrCpuIds) && present == old(present)
      ensures !haveArray ==> forall c | c in present && c < old(nrCpuIds) :: c < XEN_LEGACY_MAX_VCPUS
    {
      haveArray := allocOk;
      var rc := MapVcpuInfo(vcpu, registerRc);
      if rc != 0 {
        haveArray := false;
      }
      if !haveArray && nrCpuIds > XEN_LEGACY_MAX_VCPUS {
        present := ClearCpus(present, XEN_LEGACY_MAX_VCPUS, nrCpuIds);
        nrCpuIds := XEN_LEGACY_MAX_VCPUS;
      }
    }
  }
}
