/**
 * The x86 part of xenoprof (xen/arch/x86/oprofile/xenoprof.c): the
 * hypercalls that configure one performance counter or the AMD IBS unit,
 * and the classification of a sample by the mode the CPU was in.
 */
module Xenoprof {
  import opened Opt
  import opened Errno

  /** The number of counter_config slots (op_counter.h is not part of this model; its value is 8). */
  const OP_MAX_COUNTER: nat := 8

  /** struct xenoprof_counter, as the guest passes it. */
  datatype Counter = Counter(ind: nat, count: nat, enabled: nat, event: nat, kernel: nat, user: nat, unitMask: nat)

  /** struct op_counter_config: one slot of counter_config. */
  datatype CounterConfig = CounterConfig(count: nat, enabled: nat, event: nat, kernel: nat, user: nat, unitMask: nat)

  /** struct xenoprof_ibs_counter and struct op_ibs_config have the same six fields. */
  datatype IbsConfig = IbsConfig(opEnabled: nat, fetchEnabled: nat, maxCntFetch: nat, maxCntOp: nat, randEn: nat, dispatchedOps: nat)

  /** The slot configuration a counter request asks for. */
  function Requested(c: Counter): (r: CounterConfig)
    ensures r.count == c.count && r.enabled == c.enabled && r.event == c.event
    ensures r.kernel == c.kernel && r.user == c.user && r.unitMask == c.unitMask
  {
    CounterConfig(c.count, c.enabled, c.event, c.kernel, c.user, c.unitMask)
  }

  /**
   * The counter table after a request: the addressed slot takes the six
   * requested fields when the index is in range, and nothing changes
   * otherwise.
   */
  function Configure(cfg: seq<CounterConfig>, c: Counter): (r: seq<CounterConfig>)
    ensures |r| == |cfg|
    ensures forall i | 0 <= i < |cfg| && i != c.ind :: r[i] == cfg[i]
    ensures c.ind < |cfg| ==> r[c.ind] == Requested(c)
  {
    if c.ind < |cfg| then cfg[c.ind := Requested(c)] else cfg
  }

  /** Repeating a request changes nothing more. */
  lemma ConfigureIdempotent(cfg: seq<CounterConfig>, c: Counter)
    ensures Configure(Configure(cfg, c), c) == Configure(cfg, c)
  {
  }

  /** Requests for two different slots can be made in either order. */
  lemma ConfigureCommutes(cfg: seq<CounterConfig>, c: Counter, d: Counter)
    requires c.ind != d.ind
    ensures Configure(Configure(cfg, c), d) == Configure(Configure(cfg, d), c)
  {
    var l := Configure(Configure(cfg, c), d);
    var r := Configure(Configure(cfg, d), c);
    assert forall i | 0 <= i < |cfg| :: l[i] == r[i];
  }

  /** A later request for the same slot wins outright. */
  lemma ConfigureOverwrites(cfg: seq<CounterConfig>, c: Counter, d: Counter)
    requires c.ind == d.ind
    ensures Configure(Configure(cfg, c), d) == Configure(cfg, d)
  {
    var l := Configure(Configure(cfg, c), d);
    var r := Configure(cfg, d);
    assert forall i | 0 <= i < |cfg| :: l[i] == r[i];
  }

  /** The return code of xenoprof_arch_counter for a copy result (None: the copy from the guest failed). */
  function CounterRc(arg: Option<Counter>): (rc: int)
    ensures rc == 0 || rc == -EFAULT || rc == -E2BIG
    ensures rc == -EFAULT <==> arg == None
    ensures rc == 0 <==> arg.Some? && arg.value.ind < OP_MAX_COUNTER
  {
    match arg
    case None => -EFAULT
    case Some(c) => if c.ind >= OP_MAX_COUNTER then -E2BIG else 0
  }

  /** The counter_config table and ibs_config, which the two hypercalls update field by field. */
  class Oprofile {
    const counterConfig: array<CounterConfig>
    var ibsConfig: IbsConfig

    ghost predicate Valid()
      reads this
    {
      counterConfig.Length == OP_MAX_COUNTER
    }

    /** Static storage starts zeroed. */
    constructor ()
      ensures Valid()
      ensures forall i | 0 <= i < OP_MAX_COUNTER :: counterConfig[i] == CounterConfig(0, 0, 0, 0, 0, 0)
      ensures ibsConfig == IbsConfig(0, 0, 0, 0, 0, 0)
    {
      counterConfig := new CounterConfig[OP_MAX_COUNTER](_ => CounterConfig(0, 0, 0, 0, 0, 0));
      ibsConfig := IbsConfig(0, 0, 0, 0, 0, 0);
    }

    /**
     * xenoprof_arch_counter (and compat_oprof_arch_counter, which differs
     * only in the guest layout): -EFAULT when the copy fails, -E2BIG for an
     * index past the table, both before anything is written; otherwise
     * the addressed slot's six fields are set and 0 returned.
     */
    method ArchCounter(arg: Option<Counter>) returns (rc: int)
      requires Valid()
      modifies counterConfig
      ensures rc == CounterRc(arg)
      ensures rc != 0 ==> counterConfig[..] == old(counterConfig[..])
      ensures rc == 0 ==> counterConfig[..] == Configure(old(counterConfig[..]), arg.value)
    {
      if arg.None? {
        return -EFAULT;
      }
      var counter := arg.value;
      if counter.ind >= OP_MAX_COUNTER {
        return -E2BIG;
      }
      var i := counter.ind;
      counterConfig[i] := counterConfig[i].(count := counter.count);
      counterConfig[i] := counterConfig[i].(enabled := counter.enabled);
      counterConfig[i] := counterConfig[i].(event := counter.event);
      counterConfig[i] := counterConfig[i].(kernel := counter.kernel);
      counterConfig[i] := counterConfig[i].(user := counter.user);
      counterConfig[i] := counterConfig[i].(unitMask := counter.unitMask);
      rc := 0;
    }

    /**
     * xenoprof_arch_ibs_counter: -EFAULT with nothing written when the copy
     * fails; otherwise all six IBS fields take the guest's values and the
     * call returns 0.
     */
    method ArchIbsCounter(arg: Option<IbsConfig>) returns (rc: int)
      modifies this
      ensures rc == 0 <==> arg.Some?
      ensures arg.None? ==> rc == -EFAULT && ibsConfig == old(ibsConfig)
      ensures arg.Some? ==> ibsConfig == arg.value
    {
      if arg.None? {
        return -EFAULT;
      }
      var ibs := arg.value;
      ibsConfig := ibsConfig.(opEnabled := ibs.opEnabled);
      ibsConfig := ibsConfig.(fetchEnabled := ibs.fetchEnabled);
      ibsConfig := ibsConfig.(maxCntFetch := ibs.maxCntFetch);
      ibsConfig := ibsConfig.(maxCntOp := ibs.maxCntOp);
      ibsConfig := ibsConfig.(randEn := ibs.randEn);
      ibsConfig := ibsConfig.(dispatchedOps := ibs.dispatchedOps);
      rc := 0;
    }
  }

  /** What hvm_guest_x86_mode reports. */
  datatype X86Mode = Real | Vm86 | Bits16 | Bits32 | Bits64

  /** oprofile's sample classes: user, kernel, hypervisor. */
  const USER_MODE: int := 0
  const KERNEL_MODE: int := 1
  const XEN_MODE: int := 2

  /**
   * xenoprofile_get_mode: a sample taken in Xen itself is XEN_MODE; a PV
   * guest's is KERNEL_MODE exactly when guest_kernel_mode says so; an HVM
   * guest in real mode counts as kernel, in VM86 mode as user, and in a
   * protected mode as kernel unless it runs at CPL 3.
   */
  function GetMode(guestMode: bool, hvm: bool, guestKernelMode: bool, mode: X86Mode, cpl: nat): (r: int)
    ensures r == XEN_MODE <==> !guestMode
    ensures r == USER_MODE || r == KERNEL_MODE || r == XEN_MODE
    ensures guestMode && !hvm ==> (r == KERNEL_MODE <==> guestKernelMode)
    ensures guestMode && hvm ==> (r == KERNEL_MODE <==> mode == Real || (mode != Vm86 && cpl != 3))
  {
    if !guestMode then 2
    else if !hvm then (if guestKernelMode then 1 else 0)
    else match mode
      case Real => 1
      case Vm86 => 0
      case _ => if cpl != 3 then 1 else 0
  }
}
