/**
 * Arm domain life-cycle checks and resumable teardown (xen/arch/arm/domain.c):
 * the checkpointed phase machines of domain_relinquish_resources and
 * arch_domain_teardown, the validation of a domain configuration and of a
 * guest vCPU context, relinquish_memory's page walk, the argument rules of
 * hypercall continuations and the event-channel upcall flag.  The work each
 * phase does, page references, preemption and the GIC are oracles.
 */
module ArmDomain {
  import opened Opt
  import Errno

  const TWO_32: nat := 0x1_0000_0000

  // ---------------------------------------------------------------------
  // Checkpointed phase machines
  // ---------------------------------------------------------------------

  /**
   * Run the phases from p on, in order, until one fails or `done` is
   * reached: the result and the phase recorded.  work(q) is what phase q
   * returns.
   */
  function RunPhases(p: nat, done: nat, work: nat -> int): (r: (int, nat))
    requires p <= done
    ensures p <= r.1 <= done
    ensures r.0 == 0 <==> r.1 == done
    decreases done - p
  {
    if p == done then (0, done)
    else if work(p) != 0 then (work(p), p)
    else RunPhases(p + 1, done, work)
  }

  /**
   * The phase recorded is the first from p on that fails, and the call
   * returns that phase's error; every phase before it succeeded.  So the
   * next call resumes at the phase that failed, and a call in state done
   * does nothing and returns 0.
   */
  lemma {:induction false} RunPhasesSpec(p: nat, done: nat, work: nat -> int)
    requires p <= done
    ensures var (ret, q) := RunPhases(p, done, work);
      && (forall k | p <= k < q :: work(k) == 0)
      && (q < done ==> ret == work(q) && ret != 0)
    decreases done - p
  {
    if p < done && work(p) == 0 {
      RunPhasesSpec(p + 1, done, work);
    }
  }

  /** Resuming after a failure repeats the failed phase and then carries on as one uninterrupted run would. */
  lemma {:induction false} RunPhasesResume(p: nat, done: nat, work: nat -> int, work2: nat -> int)
    requires p <= done
    requires RunPhases(p, done, work).1 < done
    requires forall k | RunPhases(p, done, work).1 < k < done :: work2(k) == work(k)
    ensures var q := RunPhases(p, done, work).1;
      work2(q) == 0 ==> RunPhases(q, done, work2) == RunPhases(q + 1, done, work)
    decreases done - p
  {
    var q := RunPhases(p, done, work).1;
    if q == p {
      Agree(q + 1, done, work, work2);
    } else {
      RunPhasesResume(p + 1, done, work, work2);
    }
  }

  lemma {:induction false} Agree(p: nat, done: nat, work: nat -> int, work2: nat -> int)
    requires p <= done
    requires forall k | p <= k < done :: work2(k) == work(k)
    ensures RunPhases(p, done, work2) == RunPhases(p, done, work)
    decreases done - p
  {
    if p < done {
      Agree(p + 1, done, work, work2);
    }
  }

  // domain_relinquish_resources progress markers (domain.c:1036-1046); 0 is the initial state
  const PROG_pci: nat := 1
  const PROG_tee: nat := 2
  const PROG_xen: nat := 3
  const PROG_page: nat := 4
  const PROG_mapping: nat := 5
  const PROG_p2m_root: nat := 6
  const PROG_p2m: nat := 7
  const PROG_p2m_pool: nat := 8
  const PROG_done: nat := 9

  /** What each relinquish phase returns: clearing the p2m root pages cannot fail. */
  function RelWork(work: nat -> int): nat -> int
  {
    (p: nat) => if p == PROG_p2m_root then 0 else work(p)
  }

  // arch_domain_teardown progress markers (domain.c:818-822)
  const TD_none: nat := 0
  const TD_tee: nat := 1
  const TD_done: nat := 2

  /** What each teardown phase returns: only the TEE phase does any work. */
  function TeardownWork(teeRc: int): nat -> int
  {
    (p: nat) => if p == TD_tee then teeRc else 0
  }

  class ArmDomain {
    /** d->arch.rel_priv */
    var relPriv: nat
    /** d->teardown.arch_val */
    var teardownVal: nat

    constructor ()
      ensures relPriv == 0 && teardownVal == 0
    {
      relPriv, teardownVal := 0, 0;
    }

    /**
     * domain_relinquish_resources (domain.c:1053-1122): enter the phase
     * sequence at the recorded phase and fall through the rest, recording
     * each phase before running it and returning at the first failure.
     * work(p) is what phase p returns (for phase 0, iommu_release_dt_devices).
     */
    method RelinquishResources(work: nat -> int) returns (ret: int)
      requires relPriv <= PROG_done
      modifies this
      ensures (ret, relPriv) == RunPhases(old(relPriv), PROG_done, RelWork(work))
      ensures teardownVal == old(teardownVal)
    {
      var start := relPriv;
      ghost var w := RelWork(work);
      if start == 0 {
        ret := work(0);
        if ret != 0 {
          return;
        }
      }
      assert RunPhases(start, PROG_done, w) == RunPhases(if start <= PROG_pci then PROG_pci else start, PROG_done, w);
      if start <= PROG_pci {
        relPriv := PROG_pci;
        ret := work(PROG_pci);
        if ret != 0 {
          return;
        }
      }
      assert RunPhases(start, PROG_done, w) == RunPhases(if start <= PROG_tee then PROG_tee else start, PROG_done, w);
      if start <= PROG_tee {
        relPriv := PROG_tee;
        ret := work(PROG_tee);
        if ret != 0 {
          return;
        }
      }
      assert RunPhases(start, PROG_done, w) == RunPhases(if start <= PROG_xen then PROG_xen else start, PROG_done, w);
      if start <= PROG_xen {
        relPriv := PROG_xen;
        ret := work(PROG_xen);
        if ret != 0 {
          return;
        }
      }
      assert RunPhases(start, PROG_done, w) == RunPhases(if start <= PROG_page then PROG_page else start, PROG_done, w);
      if start <= PROG_page {
        relPriv := PROG_page;
        ret := work(PROG_page);
        if ret != 0 {
          return;
        }
      }
      assert RunPhases(start, PROG_done, w) == RunPhases(if start <= PROG_mapping then PROG_mapping else start, PROG_done, w);
      if start <= PROG_mapping {
        relPriv := PROG_mapping;
        ret := work(PROG_mapping);
        if ret != 0 {
          return;
        }
      }
      assert RunPhases(start, PROG_done, w) == RunPhases(if start <= PROG_p2m_root then PROG_p2m_root else start, PROG_done, w);
      if start <= PROG_p2m_root {
        relPriv := PROG_p2m_root;
      }
      assert RunPhases(start, PROG_done, w) == RunPhases(if start <= PROG_p2m then PROG_p2m else start, PROG_done, w);
      if start <= PROG_p2m {
        relPriv := PROG_p2m;
        ret := work(PROG_p2m);
        if ret != 0 {
          return;
        }
      }
      assert RunPhases(start, PROG_done, w) == RunPhases(if start <= PROG_p2m_pool then PROG_p2m_pool else start, PROG_done, w);
      if start <= PROG_p2m_pool {
        relPriv := PROG_p2m_pool;
        ret := work(PROG_p2m_pool);
        if ret != 0 {
          return;
        }
      }
      assert RunPhases(start, PROG_done, w) == RunPhases(PROG_done, PROG_done, w);
      relPriv := PROG_done;
      return 0;
    }

    /**
     * arch_domain_teardown (domain.c:810-840): the same scheme with phases
     * none, tee and done; teeRc is what tee_domain_teardown returns.
     */
    method ArchDomainTeardown(teeRc: int) returns (ret: int)
      requires teardownVal <= TD_done
      modifies this
      ensures (ret, teardownVal) == RunPhases(old(teardownVal), TD_done, TeardownWork(teeRc))
      ensures relPriv == old(relPriv)
    {
      var start := teardownVal;
      ghost var w := TeardownWork(teeRc);
      assert RunPhases(start, TD_done, w) == RunPhases(if start <= TD_tee then TD_tee else start, TD_done, w);
      if start <= TD_tee {
        teardownVal := TD_tee;
        ret := teeRc;
        if ret != 0 {
          return;
        }
      }
      teardownVal := TD_done;
      return 0;
    }
  }

  // ---------------------------------------------------------------------
  // Domain configuration
  // ---------------------------------------------------------------------

  // XEN_DOMCTL_CDF_* bit positions
  const CDF_hvm: nat := 0
  const CDF_hap: nat := 1
  const CDF_xs_domain: nat := 4
  const CDF_iommu: nat := 5
  const CDF_vpmu: nat := 7
  const CDF_trap_unmapped_accesses: nat := 8
  /** XEN_DOMCTL_IOMMU_no_sharept's bit position in iommu_opts. */
  const IOMMU_no_sharept: nat := 0

  const FLAGS_REQUIRED: set<nat> := {CDF_hvm, CDF_hap}
  const FLAGS_OPTIONAL: set<nat> := {CDF_iommu, CDF_vpmu, CDF_xs_domain, CDF_trap_unmapped_accesses}

  const GIC_NATIVE: nat := 0
  const GIC_V2: nat := 1
  const GIC_V3: nat := 2
  const TEE_NONE: nat := 0
  /** sve_decode_vl: the configured SVE vector length is in units of 128 bits. */
  const SVE_VL_MULTIPLIER: nat := 128

  /** The fields of xen_domctl_createdomain the Arm checks read; flag words are sets of bit positions. */
  datatype DomainConfig = DomainConfig(flags: set<nat>, iommuOpts: set<nat>, sveVl: nat, gicVersion: nat,
                                       maxVcpus: nat, teeType: nat, altp2mOpts: nat)

  datatype GicHw = GicHwV2 | GicHwV3 | GicHwOther

  /**
   * The host: the longest SVE vector it supports in bits (0 without SVE),
   * its GIC, how many vCPUs a virtual GIC of each version supports,
   * MAX_VIRT_CPUS and the TEE mediator in use.
   */
  datatype Platform = Platform(zcrMaxBits: nat, gicHw: GicHw, vgicMaxVcpus: nat -> nat, maxVirtCpus: nat, teeType: nat)

  function Min(a: nat, b: nat): nat { if a <= b then a else b }

  /** The GIC version a configuration asks for, with "native" resolved to the host's (None if the host's is unknown). */
  function ResolvedGic(c: DomainConfig, hw: Platform): Option<nat>
  {
    if c.gicVersion != GIC_NATIVE then Some(c.gicVersion)
    else match hw.gicHw
      case GicHwV2 => Some(GIC_V2)
      case GicHwV3 => Some(GIC_V3)
      case GicHwOther => None
  }

  /**
   * arch_sanitise_domain_config (domain.c:611-703): None for -EINVAL;
   * otherwise the configuration with a native GIC version replaced by the
   * host's.
   */
  function SanitiseDomainConfig(c: DomainConfig, hw: Platform): (r: Option<DomainConfig>)
    ensures r.Some? <==>
      && FLAGS_REQUIRED <= c.flags <= FLAGS_REQUIRED + FLAGS_OPTIONAL
      && (c.sveVl > 0 ==> c.sveVl * SVE_VL_MULTIPLIER <= hw.zcrMaxBits)
      && IOMMU_no_sharept !in c.iommuOpts
      && ResolvedGic(c, hw).Some?
      && 0 < Min(hw.vgicMaxVcpus(ResolvedGic(c, hw).value), hw.maxVirtCpus)
      && c.maxVcpus <= Min(hw.vgicMaxVcpus(ResolvedGic(c, hw).value), hw.maxVirtCpus)
      && (c.teeType == TEE_NONE || c.teeType == hw.teeType)
      && c.altp2mOpts == 0
    ensures r.Some? ==> r.value == c.(gicVersion := ResolvedGic(c, hw).value) && r.value.gicVersion != GIC_NATIVE
  {
    var sveVlBits := c.sveVl * SVE_VL_MULTIPLIER;
    if c.flags - FLAGS_OPTIONAL != FLAGS_REQUIRED then
      None
    else if sveVlBits > 0 && (hw.zcrMaxBits == 0 || sveVlBits > hw.zcrMaxBits) then
      None
    else if IOMMU_no_sharept in c.iommuOpts then
      None
    else
      var gic :=
        if c.gicVersion != GIC_NATIVE then Some(c.gicVersion)
        else if hw.gicHw == GicHwV2 then Some(GIC_V2)
        else if hw.gicHw == GicHwV3 then Some(GIC_V3)
        else None;
      if gic.None? then None
      else
        var maxVcpus := Min(hw.vgicMaxVcpus(gic.value), hw.maxVirtCpus);
        if maxVcpus == 0 || c.maxVcpus > maxVcpus then None
        else if c.teeType != TEE_NONE && c.teeType != hw.teeType then None
        else if c.altp2mOpts != 0 then None
        else Some(c.(gicVersion := gic.value))
  }

  /** Sanitising is idempotent: a sanitised configuration passes again unchanged. */
  lemma SanitiseIdempotent(c: DomainConfig, hw: Platform)
    requires SanitiseDomainConfig(c, hw).Some?
    ensures SanitiseDomainConfig(SanitiseDomainConfig(c, hw).value, hw) == SanitiseDomainConfig(c, hw)
  {
    var c' := SanitiseDomainConfig(c, hw).value;
    assert ResolvedGic(c', hw) == ResolvedGic(c, hw);
  }

  // ---------------------------------------------------------------------
  // Guest PSR values
  // ---------------------------------------------------------------------

  const PSR_MODE_MASK: nat := 0x1f
  /** Set in AArch32 modes, clear in AArch64 ones. */
  const PSR_MODE_BIT: nat := 0x10
  const PSR_MODE_USR: nat := 0x10
  const PSR_MODE_FIQ: nat := 0x11
  const PSR_MODE_IRQ: nat := 0x12
  const PSR_MODE_SVC: nat := 0x13
  const PSR_MODE_MON: nat := 0x16
  const PSR_MODE_ABT: nat := 0x17
  const PSR_MODE_HYP: nat := 0x1a
  const PSR_MODE_UND: nat := 0x1b
  const PSR_MODE_SYS: nat := 0x1f
  const PSR_MODE_EL3h: nat := 0x0d
  const PSR_MODE_EL3t: nat := 0x0c
  const PSR_MODE_EL2h: nat := 0x09
  const PSR_MODE_EL2t: nat := 0x08
  const PSR_MODE_EL1h: nat := 0x05
  const PSR_MODE_EL1t: nat := 0x04
  const PSR_MODE_EL0t: nat := 0x00

  /** is_guest_pv32_psr (domain.c:883-899): an AArch32 mode other than Monitor or Hyp. */
  predicate IsGuestPv32Psr(psr: nat)
  {
    var mode := psr % 32;
    mode == PSR_MODE_USR || mode == PSR_MODE_FIQ || mode == PSR_MODE_IRQ || mode == PSR_MODE_SVC ||
    mode == PSR_MODE_ABT || mode == PSR_MODE_UND || mode == PSR_MODE_SYS
  }

  /** is_guest_pv64_psr (domain.c:903-922): an AArch64 mode at EL1 or EL0. */
  predicate IsGuestPv64Psr(psr: nat)
  {
    if (psr / PSR_MODE_BIT) % 2 == 1 then false
    else
      var mode := psr % 32;
      mode == PSR_MODE_EL1h || mode == PSR_MODE_EL1t || mode == PSR_MODE_EL0t
  }

  /**
   * What the classifiers admit: an accepted AArch32 PSR has the mode bit
   * set and is never Monitor or Hyp; an accepted AArch64 PSR has it clear
   * and its exception level (bits 3:2) is at most 1.  No PSR passes both.
   */
  lemma PsrClassifiers(psr: nat)
    ensures IsGuestPv32Psr(psr) ==> (psr / PSR_MODE_BIT) % 2 == 1 && psr % 32 != PSR_MODE_MON && psr % 32 != PSR_MODE_HYP
    ensures IsGuestPv64Psr(psr) ==> (psr / PSR_MODE_BIT) % 2 == 0 && (psr % 16) / 4 <= 1
    ensures !(IsGuestPv32Psr(psr) && IsGuestPv64Psr(psr))
  {
    var mode := psr % 32;
    assert (psr / 16) % 2 == mode / 16;
    assert psr % 16 == mode % 16;
  }

  // ---------------------------------------------------------------------
  // vCPUs
  // ---------------------------------------------------------------------

  /** The parts of vcpu_guest_context that arch_set_info_guest checks or copies. */
  datatype GuestContext = GuestContext(
    cpsr: nat, spsrSvc: nat, spsrAbt: nat, spsrUnd: nat, spsrIrq: nat, spsrFiq: nat, spsrEl1: nat,
    userRegs: seq<nat>, sctlr: nat, ttbr0: nat, ttbr1: nat, ttbcr: nat, online: bool)

  /** A banked SPSR is acceptable when it is zero or a valid guest PSR. */
  predicate SpsrOk(spsr: nat, is32: bool)
  {
    spsr == 0 || (if is32 then IsGuestPv32Psr(spsr) else IsGuestPv64Psr(spsr))
  }

  /** The context check of arch_set_info_guest (domain.c:935-959). */
  predicate ContextValid(is32: bool, c: GuestContext)
  {
    if is32 then
      IsGuestPv32Psr(c.cpsr) && SpsrOk(c.spsrSvc, true) && SpsrOk(c.spsrAbt, true) &&
      SpsrOk(c.spsrUnd, true) && SpsrOk(c.spsrIrq, true) && SpsrOk(c.spsrFiq, true)
    else
      IsGuestPv64Psr(c.cpsr) && SpsrOk(c.spsrEl1, false)
  }

  /** The format characters hypercall_create_continuation accepts: 'i', 'l' and 'h'. */
  predicate FmtChar(ch: char) { ch == 'i' || ch == 'l' || ch == 'h' }

  /** The length of the longest prefix of the format made of accepted characters. */
  function ValidPrefix(fmt: seq<char>): (n: nat)
    ensures n <= |fmt|
    ensures forall k | 0 <= k < n :: FmtChar(fmt[k])
    ensures n < |fmt| ==> !FmtChar(fmt[n])
  {
    if fmt == [] || !FmtChar(fmt[0]) then 0 else 1 + ValidPrefix(fmt[1..])
  }

  /** NEXT_ARG: 'i' reads an unsigned int, 'l' and 'h' a full register. */
  function NextArg(ch: char, arg: nat): nat
  {
    if ch == 'i' then arg % TWO_32 else arg
  }

  /** The register values the first n arguments are stored as. */
  function DecodeArgs(fmt: seq<char>, args: seq<nat>, n: nat): (r: seq<nat>)
    requires n <= |fmt| && n <= |args|
    ensures |r| == n
    ensures forall k | 0 <= k < n :: r[k] == NextArg(fmt[k], args[k])
  {
    if n == 0 then [] else DecodeArgs(fmt, args, n - 1) + [NextArg(fmt[n - 1], args[n - 1])]
  }

  /** ARRAY_SIZE(mcs->call.args) and the registers x0-x4 (r0-r4) that carry arguments. */
  const MC_ARGS: nat := 6
  const REG_ARGS: nat := 5
  /** The register holding the hypercall number: x16 for AArch64 guests, r12 for AArch32 ones. */
  const REG_OP_64: nat := 16
  const REG_OP_32: nat := 12

  /**
   * The argument loop of hypercall_create_continuation (domain.c:392-397,
   * 411-425, 435-447): store NEXT_ARG of each format character in turn,
   * stopping at a character other than i, l or h or at the argument past
   * the limit.  The multicall loop tests the limit before reading the
   * argument and the register loops after; either way nothing is stored.
   */
  method StoreArgs(dst: array<nat>, fmt: seq<char>, args: seq<nat>, limit: nat) returns (ok: bool)
    requires |args| >= |fmt| && limit <= dst.Length
    modifies dst
    ensures ok <==> ValidPrefix(fmt) == |fmt| && |fmt| <= limit
    ensures var stored := Min(ValidPrefix(fmt), limit);
      && dst[..stored] == DecodeArgs(fmt, args, stored)
      && forall k | stored <= k < dst.Length :: dst[k] == old(dst[k])
  {
    var i: nat := 0;
    while i < |fmt|
      invariant i <= ValidPrefix(fmt) && i <= limit
      invariant dst[..i] == DecodeArgs(fmt, args, i)
      invariant forall k | i <= k < dst.Length :: dst[k] == old(dst[k])
    {
      if i >= limit {
        assert Min(ValidPrefix(fmt), limit) == i;
        return false;
      }
      if !FmtChar(fmt[i]) {
        assert ValidPrefix(fmt) == i;
        return false;
      }
      assert ValidPrefix(fmt) > i;
      var arg := NextArg(fmt[i], args[i]);
      dst[i] := arg;
      assert DecodeArgs(fmt, args, i + 1) == DecodeArgs(fmt, args, i) + [arg];
      i := i + 1;
    }
    assert ValidPrefix(fmt) == |fmt| == i;
    return true;
  }

  class ArmVcpu {
    var userRegs: seq<nat>
    var sctlr: nat
    var ttbr0: nat
    var ttbr1: nat
    var ttbcr: nat
    var isInitialised: bool
    /** The _VPF_down pause flag. */
    var down: bool
    /** vcpu_info's evtchn_upcall_pending. */
    var upcallPending: bool
    /** How many times the event-channel interrupt has been injected. */
    var irqsInjected: nat
    var hcallPreempted: bool
    var inMulticall: bool
    /** mcs->call.args and mcs->call.result. */
    var mcArgs: array<nat>
    var mcResult: nat
    /** The guest's general-purpose registers x0-x16 (r0-r12 alias the low ones). */
    var regs: array<nat>
    var crashed: bool

    ghost predicate Valid()
      reads this
    {
      mcArgs.Length == MC_ARGS && regs.Length == 17 && mcArgs != regs
    }

    constructor ()
      ensures Valid() && fresh(mcArgs) && fresh(regs)
      ensures !isInitialised && down && !upcallPending && irqsInjected == 0 && !crashed && !inMulticall
    {
      userRegs, sctlr, ttbr0, ttbr1, ttbcr := [], 0, 0, 0, 0;
      isInitialised, down, upcallPending, irqsInjected := false, true, false, 0;
      hcallPreempted, inMulticall, crashed := false, false, false;
      mcArgs := new nat[MC_ARGS];
      mcResult := 0;
      regs := new nat[17];
    }

    /**
     * arch_set_info_guest (domain.c:932-974): -EINVAL for a context whose
     * CPSR or any nonzero SPSR is not a valid guest PSR; otherwise load
     * the context, mark the vCPU initialised and set _VPF_down exactly
     * when VGCF_online is clear.
     */
    method SetInfoGuest(is32: bool, c: GuestContext) returns (ret: int)
      modifies this
      ensures ret == 0 <==> ContextValid(is32, c)
      ensures ret != 0 ==>
        && ret == -Errno.EINVAL && userRegs == old(userRegs) && sctlr == old(sctlr)
        && ttbr0 == old(ttbr0) && ttbr1 == old(ttbr1) && ttbcr == old(ttbcr)
        && isInitialised == old(isInitialised) && down == old(down)
      ensures ret == 0 ==>
        && userRegs == c.userRegs && sctlr == c.sctlr && ttbr0 == c.ttbr0 && ttbr1 == c.ttbr1
        && ttbcr == c.ttbcr && isInitialised && (down <==> !c.online)
      ensures upcallPending == old(upcallPending) && irqsInjected == old(irqsInjected)
      ensures mcArgs == old(mcArgs) && regs == old(regs) && crashed == old(crashed) && inMulticall == old(inMulticall)
      ensures hcallPreempted == old(hcallPreempted) && mcResult == old(mcResult)
    {
      if is32 {
        if !IsGuestPv32Psr(c.cpsr) {
          return -Errno.EINVAL;
        }
        if c.spsrSvc != 0 && !IsGuestPv32Psr(c.spsrSvc) {
          return -Errno.EINVAL;
        }
        if c.spsrAbt != 0 && !IsGuestPv32Psr(c.spsrAbt) {
          return -Errno.EINVAL;
        }
        if c.spsrUnd != 0 && !IsGuestPv32Psr(c.spsrUnd) {
          return -Errno.EINVAL;
        }
        if c.spsrIrq != 0 && !IsGuestPv32Psr(c.spsrIrq) {
          return -Errno.EINVAL;
        }
        if c.spsrFiq != 0 && !IsGuestPv32Psr(c.spsrFiq) {
          return -Errno.EINVAL;
        }
      } else {
        if !IsGuestPv64Psr(c.cpsr) {
          return -Errno.EINVAL;
        }
        if c.spsrEl1 != 0 && !IsGuestPv64Psr(c.spsrEl1) {
          return -Errno.EINVAL;
        }
      }
      userRegs := c.userRegs;
      sctlr, ttbr0, ttbr1, ttbcr := c.sctlr, c.ttbr0, c.ttbr1, c.ttbcr;
      isInitialised := true;
      down := !c.online;
      return 0;
    }

    /**
     * vcpu_mark_events_pending (domain.c:1166-1174): set the upcall flag
     * and inject the event-channel interrupt only if it was clear.
     */
    method MarkEventsPending() returns (injected: bool)
      modifies this
      ensures upcallPending
      ensures injected <==> !old(upcallPending)
      ensures irqsInjected == old(irqsInjected) + (if injected then 1 else 0)
      ensures userRegs == old(userRegs) && down == old(down) && isInitialised == old(isInitialised)
      ensures mcArgs == old(mcArgs) && regs == old(regs) && crashed == old(crashed)
    {
      var alreadyPending := upcallPending;
      upcallPending := true;
      if alreadyPending {
        return false;
      }
      irqsInjected := irqsInjected + 1;
      return true;
    }

    /**
     * hypercall_create_continuation (domain.c:376-462): store the
     * arguments the format describes, one per character, in the multicall
     * entry (at most six) or in x0-x4/r0-r4 (at most five) with the
     * hypercall number in x16/r12.  A character other than i, l or h, or
     * one argument too many, crashes the domain and returns 0; the
     * arguments before it have already been stored.  args are the
     * variadic arguments.
     */
    method CreateContinuation(op: nat, is32: bool, fmt: seq<char>, args: seq<nat>) returns (rc: nat)
      requires Valid() && |args| >= |fmt|
      modifies this, mcArgs, regs
      ensures Valid() && mcArgs == old(mcArgs) && regs == old(regs) && hcallPreempted
      ensures var limit := if inMulticall then MC_ARGS else REG_ARGS;
        var ok := ValidPrefix(fmt) == |fmt| && |fmt| <= limit;
        var stored := Min(ValidPrefix(fmt), limit);
        var opReg := if is32 then REG_OP_32 else REG_OP_64;
        && (crashed <==> old(crashed) || !ok)
        && (inMulticall ==>
             && mcArgs[..stored] == DecodeArgs(fmt, args, stored)
             && (forall k | stored <= k < MC_ARGS :: mcArgs[k] == old(mcArgs[k]))
             && regs[..] == old(regs[..])
             && rc == (if ok then mcResult else 0))
        && (!inMulticall ==>
             && regs[..stored] == DecodeArgs(fmt, args, stored)
             && regs[opReg] == op
             && (forall k | stored <= k < regs.Length && k != opReg :: regs[k] == old(regs[k]))
             && mcArgs[..] == old(mcArgs[..])
             && rc == (if ok then regs[0] else 0))
      ensures inMulticall == old(inMulticall) && mcResult == old(mcResult)
      ensures userRegs == old(userRegs) && down == old(down) && upcallPending == old(upcallPending)
    {
      hcallPreempted := true;
      var ok;
      if inMulticall {
        ok := StoreArgs(mcArgs, fmt, args, MC_ARGS);
        rc := mcResult;
      } else {
        if is32 {
          regs[REG_OP_32] := op;
        } else {
          regs[REG_OP_64] := op;
        }
        ok := StoreArgs(regs, fmt, args, REG_ARGS);
        rc := regs[0];
      }
      if !ok {
        crashed := true;
        rc := 0;
      }
    }
  }

  // ---------------------------------------------------------------------
  // relinquish_memory
  // ---------------------------------------------------------------------

  /**
   * relinquish_memory (domain.c:992-1024) over the page list: pages whose
   * reference cannot be taken are skipped and stay on the list; every
   * other page has its allocation reference dropped, after which a
   * preemption check may stop the walk with -ERESTART.  getOk(pg) says
   * whether get_page succeeds and preempt(k) whether the check after the
   * k-th page fires.  Returns the result and the pages released, in order.
   */
  function ReleasePages(pages: seq<nat>, from: nat, getOk: nat -> bool, preempt: nat -> bool): (r: (int, seq<nat>))
    requires from <= |pages|
    ensures r.0 == 0 || r.0 == -Errno.ERESTART
    ensures forall pg | pg in r.1 :: pg in pages[from..] && getOk(pg)
    decreases |pages| - from
  {
    if from == |pages| then (0, [])
    else if !getOk(pages[from]) then ReleasePages(pages, from + 1, getOk, preempt)
    else if preempt(from) then (-Errno.ERESTART, [pages[from]])
    else
      var rest := ReleasePages(pages, from + 1, getOk, preempt);
      (rest.0, [pages[from]] + rest.1)
  }

  /** Without preemption every page whose reference can be taken is released, in list order, and no other. */
  lemma {:induction false} ReleaseAll(pages: seq<nat>, from: nat, getOk: nat -> bool, preempt: nat -> bool)
    requires from <= |pages|
    requires forall k | from <= k < |pages| :: !preempt(k)
    ensures ReleasePages(pages, from, getOk, preempt) == (0, Filter(pages[from..], getOk))
    decreases |pages| - from
  {
    if from < |pages| {
      ReleaseAll(pages, from + 1, getOk, preempt);
      assert pages[from..] == [pages[from]] + pages[from + 1..];
      FilterCons(pages[from], pages[from + 1..], getOk);
      var rest := ReleasePages(pages, from + 1, getOk, preempt);
      assert rest == (0, Filter(pages[from + 1..], getOk));
      if getOk(pages[from]) {
        assert ReleasePages(pages, from, getOk, preempt) == (rest.0, [pages[from]] + rest.1);
      } else {
        assert ReleasePages(pages, from, getOk, preempt) == rest;
        assert [] + Filter(pages[from + 1..], getOk) == Filter(pages[from + 1..], getOk);
      }
    } else {
      assert pages[from..] == [];
    }
  }

  function Filter(s: seq<nat>, keep: nat -> bool): seq<nat>
  {
    if s == [] then [] else Filter(s[..|s| - 1], keep) + (if keep(s[|s| - 1]) then [s[|s| - 1]] else [])
  }

  lemma {:induction false} FilterCons(x: nat, s: seq<nat>, keep: nat -> bool)
    ensures Filter([x] + s, keep) == (if keep(x) then [x] else []) + Filter(s, keep)
    decreases |s|
  {
    if s != [] {
      var init := s[..|s| - 1];
      FilterCons(x, init, keep);
      assert ([x] + s)[..|[x] + s| - 1] == [x] + init;
    }
  }

  method RelinquishMemory(pages: seq<nat>, getOk: nat -> bool, preempt: nat -> bool) returns (ret: int, released: seq<nat>)
    ensures (ret, released) == ReleasePages(pages, 0, getOk, preempt)
  {
    ret, released := 0, [];
    var n: nat := 0;
    assert released + ReleasePages(pages, 0, getOk, preempt).1 == ReleasePages(pages, 0, getOk, preempt).1;
    while n < |pages|
      invariant n <= |pages|
      invariant ReleasePages(pages, 0, getOk, preempt) ==
        (ReleasePages(pages, n, getOk, preempt).0, released + ReleasePages(pages, n, getOk, preempt).1)
    {
      if !getOk(pages[n]) {
        n := n + 1;
        continue;
      }
      ghost var rest := ReleasePages(pages, n + 1, getOk, preempt);
      assert !preempt(n) ==> ReleasePages(pages, n, getOk, preempt) == (rest.0, [pages[n]] + rest.1);
      assert released + ([pages[n]] + rest.1) == (released + [pages[n]]) + rest.1;
      released := released + [pages[n]];
      if preempt(n) {
        return -Errno.ERESTART, released;
      }
      n := n + 1;
    }
    assert released + [] == released;
  }
}
