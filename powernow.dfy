/**
 * The AMD architectural P-state cpufreq driver
 * (xen/arch/x86/acpi/cpufreq/powernow.c): the core-frequency fix-up from
 * the P-state definition MSRs, the frequency table built at CPU init, the
 * target operation that switches P-state, and the core performance boost
 * bit.
 *
 * MSR contents, the CPU model and the answers of the generic cpufreq
 * helpers are parameters; MSR writes are returned as values.
 */
module Powernow {
  import opened Opt
  import opened Errno

  const TWO_32: nat := 0x1_0000_0000
  const TWO_64: nat := 0x1_0000_0000_0000_0000

  const HW_PSTATE_MASK: nat := 7
  /** Bit 25 of MSR_K8_HWCR: core performance boost disabled. */
  const MSR_HWCR_CPBDIS_MASK: bv64 := 0x0200_0000
  /** The terminator of a frequency table: ~1 as an unsigned int. */
  const CPUFREQ_TABLE_END: nat := 0xFFFF_FFFE

  datatype SharedType = SharedNone | SharedHw | SharedAll | SharedAny
  /** CPUFREQ_SHARED_TYPE_ALL and _ANY: the policy would span several CPUs, which this driver refuses. */
  predicate Coordinated(t: SharedType)
  {
    t == SharedAll || t == SharedAny
  }

  datatype Turbo = TurboDisabled | TurboUnsupported | TurboEnabled

  /** One ACPI performance state: MHz, microseconds and the control value. */
  datatype Px = Px(coreFrequency: nat, transitionLatency: nat, control: nat)

  /** An MSR read as its low and high 32-bit halves. */
  datatype Msr = Msr(lo: nat, hi: nat)

  /** One entry of a cpufreq frequency table: P-state index and kHz. */
  datatype FreqEntry = FreqEntry(index: nat, frequency: nat)

  /** x shifted right by n bits: n halvings, each rounding down. */
  function Shr(x: nat, n: nat): (r: nat)
    ensures r <= x
  {
    if n == 0 then x else Shr(x, n - 1) / 2
  }

  // ---------------------------------------------------------------------
  // amd_fixup_frequency
  // ---------------------------------------------------------------------

  /** Families 10h before model 10, and 11h, report the wrong frequency in ACPI and are recomputed. */
  predicate NeedsFixup(family: nat, model: nat)
  {
    !((family != 0x10 || model >= 10) && family != 0x11)
  }

  /** Bit 63 of a P-state definition MSR (bit 31 of its high half): PstateEn. */
  predicate PstateEnabled(m: Msr)
  {
    (m.hi / 0x8000_0000) % 2 == 1
  }

  /** CpuFid: bits 5:0 of the low half. */
  function Fid(lo: nat): (r: nat)
    ensures r < 64
  {
    lo % 64
  }

  /** CpuDid: bits 8:6 of the low half. */
  function Did(lo: nat): (r: nat)
    ensures r < 8
  {
    (lo / 64) % 8
  }

  /** The current operating frequency in MHz: 100 * (fid + 16) for family 10h, 100 * (fid + 8) for 11h, shifted right by did. */
  function Cof(family: nat, fid: nat, did: nat): nat
  {
    Shr(100 * (fid + (if family == 0x10 then 16 else 8)), did)
  }

  /**
   * amd_fixup_frequency: the state's frequency recomputed from the P-state
   * definition MSR its control value selects (defs[control & 7]), when the
   * family needs it and the P-state is enabled; otherwise the state as is.
   */
  function FixupFrequency(family: nat, model: nat, defs: seq<Msr>, px: Px): (r: Px)
    requires |defs| == 8
    ensures r.transitionLatency == px.transitionLatency && r.control == px.control
    ensures !NeedsFixup(family, model) || !PstateEnabled(defs[px.control % 8]) ==> r == px
    ensures NeedsFixup(family, model) && PstateEnabled(defs[px.control % 8]) ==>
      r.coreFrequency == Cof(family, Fid(defs[px.control % 8].lo), Did(defs[px.control % 8].lo))
  {
    var m := defs[px.control % 8];
    if !NeedsFixup(family, model) || !PstateEnabled(m) then px
    else px.(coreFrequency := Cof(family, Fid(m.lo), Did(m.lo)))
  }

  /** Shifting preserves order. */
  lemma {:induction false} ShrMono(x: nat, y: nat, n: nat)
    requires x <= y
    ensures Shr(x, n) <= Shr(y, n)
  {
    if n > 0 {
      ShrMono(x, y, n - 1);
    }
  }

  /** Shifting further never gives more. */
  lemma {:induction false} ShrMore(x: nat, n: nat, m: nat)
    requires n <= m
    ensures Shr(x, m) <= Shr(x, n)
    decreases m
  {
    if n < m {
      ShrMore(x, n, m - 1);
    }
  }

  /** The recomputed frequency lies between 12 and 7900 MHz for family 10h and between 6 and 7100 MHz for 11h. */
  lemma CofBounds(family: nat, fid: nat, did: nat)
    requires fid < 64 && did < 8
    ensures family == 0x10 ==> 12 <= Cof(family, fid, did) <= 7900
    ensures family != 0x10 ==> 6 <= Cof(family, fid, did) <= 7100
  {
    var k := if family == 0x10 then 16 else 8;
    if family == 0x10 {
      assert Shr(1600, 7) == 12;
    } else {
      assert Shr(800, 7) == 6;
    }
    ShrMore(100 * k, did, 7);
    ShrMono(100 * k, 100 * (fid + k), did);
  }

  /** A larger frequency ID never gives a slower frequency, a larger divisor ID never a faster one. */
  lemma CofMonotone(family: nat, fid1: nat, fid2: nat, did1: nat, did2: nat)
    requires fid1 <= fid2 && did2 <= did1
    ensures Cof(family, fid1, did1) <= Cof(family, fid2, did2)
  {
    var k := if family == 0x10 then 16 else 8;
    ShrMore(100 * (fid1 + k), did2, did1);
    ShrMono(100 * (fid1 + k), 100 * (fid2 + k), did2);
  }

  /** HW_PSTATE_MAX: bits 7:4 of the current limit MSR. */
  function MaxHwPstate(curLimit: nat): (r: nat)
    ensures r < 16
  {
    (curLimit / 16) % 16
  }

  /** The first index at which `i < stateCount && i <= maxHw` fails. */
  function LoopEnd(stateCount: nat, maxHw: nat): (r: nat)
    ensures r <= stateCount && r <= maxHw + 1
    ensures r == stateCount || r == maxHw + 1
  {
    if stateCount <= maxHw + 1 then stateCount else maxHw + 1
  }

  // ---------------------------------------------------------------------
  // The frequency table
  // ---------------------------------------------------------------------

  /** The table entry of a state: index control & HW_PSTATE_MASK, frequency in kHz as an unsigned int. */
  function Entry(px: Px): FreqEntry
  {
    FreqEntry(px.control % 8, (px.coreFrequency * 1000) % TWO_32)
  }

  /** A state whose frequency is not below the last kept entry's, in MHz, is skipped. */
  predicate NotSlower(px: Px, last: FreqEntry)
  {
    px.coreFrequency >= last.frequency / 1000
  }

  /**
   * The entries the table loop of powernow_cpufreq_cpu_init keeps from the
   * first n states: state 0, then each state up to maxHw whose frequency is
   * below the last kept entry's.
   */
  function Table(states: seq<Px>, maxHw: nat, n: nat): (t: seq<FreqEntry>)
    requires n <= |states|
    ensures |t| <= n
    ensures n >= 1 ==> |t| >= 1
  {
    if n == 0 then []
    else
      var t := Table(states, maxHw, n - 1);
      var i := n - 1;
      if i > maxHw then t
      else if i > 0 && NotSlower(states[i], t[|t| - 1]) then t
      else t + [Entry(states[i])]
  }

  /** A state is kept only when its frequency, in kHz, is below the previous entry's. */
  lemma KeptSlower(core: nat, last: nat)
    requires core < last / 1000
    ensures (core * 1000) % TWO_32 < last
    ensures core * 1000 < TWO_32 || last >= TWO_32
  {
    assert core * 1000 + 1000 <= (last / 1000) * 1000 <= last;
  }

  /** The table starts with state 0's entry. */
  lemma {:induction false} TableFirst(states: seq<Px>, maxHw: nat, n: nat)
    requires 1 <= n <= |states|
    ensures Table(states, maxHw, n)[0] == Entry(states[0])
  {
    if n > 1 {
      TableFirst(states, maxHw, n - 1);
      var t := Table(states, maxHw, n - 1);
      assert Table(states, maxHw, n)[0] == t[0];
    }
  }

  /** The table's frequencies strictly decrease. */
  lemma {:induction false} TableDecreasing(states: seq<Px>, maxHw: nat, n: nat)
    requires n <= |states|
    ensures forall j, k | 0 <= j < k < |Table(states, maxHw, n)| ::
      Table(states, maxHw, n)[j].frequency > Table(states, maxHw, n)[k].frequency
  {
    if n > 0 {
      TableDecreasing(states, maxHw, n - 1);
      var t := Table(states, maxHw, n - 1);
      var m := n - 1;
      if m <= maxHw && !(m > 0 && NotSlower(states[m], t[|t| - 1])) {
        var t' := t + [Entry(states[m])];
        assert Table(states, maxHw, n) == t';
        if m > 0 {
          KeptSlower(states[m].coreFrequency, t[|t| - 1].frequency);
        }
        forall j, k | 0 <= j < k < |t'|
          ensures t'[j].frequency > t'[k].frequency
        {
          if k == |t| && m > 0 {
            assert t'[j].frequency >= t[|t| - 1].frequency;
          }
        }
      }
    }
  }

  /** Each entry of the table is the entry of a state at most maxHw. */
  lemma {:induction false} TableFromStates(states: seq<Px>, maxHw: nat, n: nat)
    requires n <= |states|
    ensures forall k | 0 <= k < |Table(states, maxHw, n)| ::
      exists i :: 0 <= i < n && i <= maxHw && Table(states, maxHw, n)[k] == Entry(states[i])
  {
    if n > 0 {
      TableFromStates(states, maxHw, n - 1);
      var t := Table(states, maxHw, n - 1);
      var m := n - 1;
      forall k | 0 <= k < |Table(states, maxHw, n)|
        ensures exists i :: 0 <= i < n && i <= maxHw && Table(states, maxHw, n)[k] == Entry(states[i])
      {
        if k < |t| {
          assert Table(states, maxHw, n)[k] == t[k];
          var i :| 0 <= i < n - 1 && i <= maxHw && t[k] == Entry(states[i]);
        } else {
          assert Table(states, maxHw, n)[k] == Entry(states[m]);
        }
      }
    } else {
      assert |Table(states, maxHw, n)| == 0;
    }
  }

  /** Beyond the end of the loop no further state is considered. */
  lemma {:induction false} TableStops(states: seq<Px>, maxHw: nat, n: nat)
    requires LoopEnd(|states|, maxHw) <= n <= |states|
    ensures Table(states, maxHw, n) == Table(states, maxHw, LoopEnd(|states|, maxHw))
    decreases n
  {
    if n > LoopEnd(|states|, maxHw) {
      TableStops(states, maxHw, n - 1);
    }
  }

  /**
   * When the states are listed fastest first, strictly decreasing, and fit
   * an unsigned int in kHz, every state up to maxHw is kept, in order.
   */
  lemma {:induction false} TableKeepsDecreasing(states: seq<Px>, maxHw: nat, n: nat)
    requires n <= |states|
    requires forall i | 0 <= i < |states| :: states[i].coreFrequency * 1000 < TWO_32
    requires forall i | 0 < i < |states| :: states[i].coreFrequency < states[i - 1].coreFrequency
    ensures Table(states, maxHw, n) == seq(LoopEnd(n, maxHw), i requires 0 <= i < n => Entry(states[i]))
  {
    if n > 0 {
      TableKeepsDecreasing(states, maxHw, n - 1);
      var t := Table(states, maxHw, n - 1);
      var i := n - 1;
      if i <= maxHw {
        assert |t| == i;
        if i > 0 {
          assert t[i - 1] == Entry(states[i - 1]);
          assert t[i - 1].frequency / 1000 == states[i - 1].coreFrequency;
        }
      }
    }
  }

  /** The latency loop of powernow_cpufreq_cpu_init over the first n states: latency * 1000 in 64 bits, kept in an unsigned int. */
  function MaxLatency(states: seq<Px>, n: nat): (r: nat)
    requires n <= |states|
    ensures r < TWO_32
  {
    if n == 0 then 0
    else
      var cur := MaxLatency(states, n - 1);
      var l := (states[n - 1].transitionLatency * 1000) % TWO_64;
      if l > cur then l % TWO_32 else cur
  }

  /** When every latency fits an unsigned int in nanoseconds, the loop finds the largest one (0 for none). */
  lemma {:induction false} MaxLatencySpec(states: seq<Px>, n: nat)
    requires n <= |states|
    requires forall i | 0 <= i < n :: states[i].transitionLatency * 1000 < TWO_32
    ensures forall i | 0 <= i < n :: states[i].transitionLatency * 1000 <= MaxLatency(states, n)
    ensures MaxLatency(states, n) == 0 || exists i :: 0 <= i < n && MaxLatency(states, n) == states[i].transitionLatency * 1000
  {
    if n > 0 {
      MaxLatencySpec(states, n - 1);
      var l := states[n - 1].transitionLatency * 1000;
      assert l % TWO_64 == l && l % TWO_32 == l;
      if l > MaxLatency(states, n - 1) {
        assert MaxLatency(states, n) == l;
      } else {
        assert MaxLatency(states, n) == MaxLatency(states, n - 1);
      }
    }
  }

  // ---------------------------------------------------------------------
  // update_cpb and powernow_cpufreq_update
  // ---------------------------------------------------------------------

  /** MSR_K8_HWCR with CPBDIS cleared when boost is enabled and set otherwise; every other bit kept. */
  function CpbValue(enabled: bool, hwcr: bv64): (v: bv64)
    ensures (v & MSR_HWCR_CPBDIS_MASK) == 0 <==> enabled
    ensures (v & !MSR_HWCR_CPBDIS_MASK) == (hwcr & !MSR_HWCR_CPBDIS_MASK)
  {
    if enabled then hwcr & !MSR_HWCR_CPBDIS_MASK else hwcr | MSR_HWCR_CPBDIS_MASK
  }

  /**
   * update_cpb: the new MSR_K8_HWCR value, or None when turbo is
   * unsupported and nothing is written. CPBDIS is cleared exactly when turbo
   * is enabled; every other bit is kept.
   */
  function UpdateCpb(turbo: Turbo, hwcr: bv64): (r: Option<bv64>)
    ensures r.Some? <==> turbo != TurboUnsupported
    ensures r.Some? ==> ((r.value & MSR_HWCR_CPBDIS_MASK) == 0 <==> turbo == TurboEnabled)
    ensures r.Some? ==> (r.value & !MSR_HWCR_CPBDIS_MASK) == (hwcr & !MSR_HWCR_CPBDIS_MASK)
  {
    if turbo == TurboUnsupported then None
    else Some(CpbValue(turbo == TurboEnabled, hwcr))
  }

  /** Applying update_cpb twice writes the same value as once. */
  lemma UpdateCpbIdempotent(turbo: Turbo, hwcr: bv64)
    requires turbo != TurboUnsupported
    ensures UpdateCpb(turbo, UpdateCpb(turbo, hwcr).value) == UpdateCpb(turbo, hwcr)
  {
  }

  /** powernow_cpufreq_update: -EINVAL for an offline CPU, otherwise update_cpb runs on it. */
  function CpufreqUpdate(online: bool, turbo: Turbo, hwcr: bv64): (r: (int, Option<bv64>))
    ensures !online ==> r == (-EINVAL, None)
    ensures online ==> r.0 == 0 && r.1 == UpdateCpb(turbo, hwcr)
  {
    if !online then (-EINVAL, None) else (0, UpdateCpb(turbo, hwcr))
  }

  // ---------------------------------------------------------------------
  // The driver state
  // ---------------------------------------------------------------------

  /** processor_performance: the ACPI states of one CPU and the one it is in. */
  class Perf {
    var state: nat
    var states: seq<Px>
    const sharedType: SharedType
    const controlSpaceId: nat
    const statusSpaceId: nat

    constructor (states: seq<Px>, sharedType: SharedType, controlSpaceId: nat, statusSpaceId: nat)
      ensures this.states == states && this.sharedType == sharedType
      ensures this.controlSpaceId == controlSpaceId && this.statusSpaceId == statusSpaceId
      ensures state == 0
    {
      this.states := states;
      this.sharedType := sharedType;
      this.controlSpaceId := controlSpaceId;
      this.statusSpaceId := statusSpaceId;
      state := 0;
    }

    /**
     * get_cpu_data: reads HW_PSTATE_MAX from the current limit MSR and
     * fixes up every state up to it.
     */
    method GetCpuData(family: nat, model: nat, defs: seq<Msr>, curLimit: nat) returns (maxHw: nat)
      requires |defs| == 8
      modifies this
      ensures maxHw == MaxHwPstate(curLimit)
      ensures state == old(state) && |states| == |old(states)|
      ensures forall i | 0 <= i < |states| ::
        states[i] == if i <= maxHw then FixupFrequency(family, model, defs, old(states)[i]) else old(states)[i]
    {
      maxHw := MaxHwPstate(curLimit);
      var i := 0;
      while i < |states| && i <= maxHw
        invariant i == LoopEnd(i, maxHw) && i <= |states| && state == old(state) && |states| == |old(states)|
        invariant forall k | 0 <= k < |states| ::
          states[k] == if k < i then FixupFrequency(family, model, defs, old(states)[k]) else old(states)[k]
      {
        states := states[i := FixupFrequency(family, model, defs, states[i])];
        i := i + 1;
      }
    }
  }

  /** The policy of one CPU as this driver sets it. */
  class Policy {
    const cpu: nat
    var sharedType: SharedType
    var cpus: set<nat>
    var cur: nat
    var turbo: Turbo
    var transitionLatency: nat

    constructor (cpu: nat, cpus: set<nat>, turbo: Turbo)
      ensures this.cpu == cpu && this.cpus == cpus && this.turbo == turbo
      ensures sharedType == SharedNone && cur == 0 && transitionLatency == 0
    {
      this.cpu := cpu;
      this.cpus := cpus;
      this.turbo := turbo;
      sharedType := SharedNone;
      cur := 0;
      transitionLatency := 0;
    }
  }

  /** acpi_cpufreq_data: the ACPI states, the frequency table and the resume flag. */
  class CpufreqData {
    const perf: Perf
    const freqTable: array<FreqEntry>
    var resume: bool

    constructor (perf: Perf, freqTable: array<FreqEntry>)
      ensures this.perf == perf && this.freqTable == freqTable && resume
    {
      this.perf := perf;
      this.freqTable := freqTable;
      resume := true;
    }
  }

  /**
   * The table loop of powernow_cpufreq_cpu_init: the kept entries, then the
   * terminator; returns valid_states and the index where the loop stopped.
   * Entries after the terminator are left as they were.
   */
  method BuildFreqTable(states: seq<Px>, maxHw: nat, table: array<FreqEntry>) returns (valid: nat, i: nat)
    requires table.Length == |states| + 1
    modifies table
    ensures i == LoopEnd(|states|, maxHw)
    ensures valid == |Table(states, maxHw, |states|)| <= i
    ensures table[..valid] == Table(states, maxHw, |states|)
    ensures table[valid] == FreqEntry(old(table[valid]).index, CPUFREQ_TABLE_END)
    ensures table[valid + 1..] == old(table[valid + 1..])
  {
    ghost var t;
    valid, i, t := KeepStates(states, maxHw, table);
    TableStops(states, maxHw, |states|);
    assert table[..valid] == t;
    table[valid] := table[valid].(frequency := CPUFREQ_TABLE_END);
    assert table[..valid] == t;
  }

  /** The loop of the table part of powernow_cpufreq_cpu_init, before the terminator is written. */
  method KeepStates(states: seq<Px>, maxHw: nat, table: array<FreqEntry>) returns (valid: nat, i: nat, ghost t: seq<FreqEntry>)
    requires table.Length == |states| + 1
    modifies table
    ensures i == LoopEnd(|states|, maxHw)
    ensures t == Table(states, maxHw, i) && valid == |t| <= i
    ensures forall k | 0 <= k < valid :: table[k] == t[k]
    ensures forall k | valid <= k < table.Length :: table[k] == old(table[k])
  {
    valid := 0;
    i := 0;
    t := [];
    while i < |states| && i <= maxHw
      invariant i <= |states| && i <= maxHw + 1
      invariant t == Table(states, maxHw, i) && valid == |t| <= i
      invariant forall k | 0 <= k < valid :: table[k] == t[k]
      invariant forall k | valid <= k < table.Length :: table[k] == old(table[k])
    {
      TableStep(states, maxHw, i, t);
      if i > 0 && NotSlower(states[i], table[valid - 1]) {
        i := i + 1;
        continue;
      }
      table[valid] := Entry(states[i]);
      t := t + [Entry(states[i])];
      valid := valid + 1;
      i := i + 1;
    }
  }

  /** One more state: kept (appended) or skipped. */
  lemma TableStep(states: seq<Px>, maxHw: nat, i: nat, t: seq<FreqEntry>)
    requires i < |states| && i <= maxHw && t == Table(states, maxHw, i)
    ensures i > 0 ==> |t| > 0
    ensures Table(states, maxHw, i + 1) ==
      if i > 0 && NotSlower(states[i], t[|t| - 1]) then t else t + [Entry(states[i])]
  {
  }

  /**
   * Line 297 of powernow_cpufreq_cpu_init as written: policy->cur is read
   * from the table at the loop's final index i rather than at the entry of
   * the state perf->state was just set to.
   */
  function InitialCurAsWritten(table: seq<FreqEntry>, i: nat): nat
    requires i < |table|
  {
    table[i].frequency
  }

  /**
   * Two states, 2000 and 1000 MHz, both kept: the loop stops at i = 2,
   * which is the terminator, so policy->cur would be CPUFREQ_TABLE_END
   * instead of state 0's 2000000 kHz.
   */
  lemma InitialCurIsTableEnd(table: seq<FreqEntry>)
    requires |table| == 3
    requires table[..2] == Table([Px(2000, 10, 0), Px(1000, 10, 1)], 7, 2) && table[2].frequency == CPUFREQ_TABLE_END
    ensures LoopEnd(2, 7) == 2
    ensures InitialCurAsWritten(table, LoopEnd(2, 7)) == CPUFREQ_TABLE_END
    ensures table[0].frequency == 2000000
  {
    assert table[0] == table[..2][0];
  }

  /**
   * The state the table part of powernow_cpufreq_cpu_init leaves: the
   * states up to HW_PSTATE_MAX fixed up, perf->state 0, and the table
   * holding the kept entries and then the terminator.
   */
  ghost predicate TableBuilt(perf: Perf, states0: seq<Px>, table: array<FreqEntry>, family: nat, model: nat, defs: seq<Msr>, curLimit: nat)
    reads perf, table
  {
    var maxHw := MaxHwPstate(curLimit);
    var t := Table(perf.states, maxHw, |perf.states|);
    && |defs| == 8 && |perf.states| == |states0| && perf.state == 0
    && (forall i | 0 <= i < |perf.states| ::
          perf.states[i] == if i <= maxHw then FixupFrequency(family, model, defs, states0[i]) else states0[i])
    && table.Length == |perf.states| + 1
    && table[..|t|] == t && table[|t|].frequency == CPUFREQ_TABLE_END
  }

  /**
   * The middle of powernow_cpufreq_cpu_init: the transition latency, the
   * fix-up on the CPU itself (get_cpu_data), the table and perf->state.
   */
  method SetupTable(policy: Policy, perf: Perf, family: nat, model: nat, defs: seq<Msr>, curLimit: nat)
    returns (table: array<FreqEntry>)
    requires |defs| == 8 && |perf.states| >= 1
    modifies policy, perf
    ensures fresh(table) && TableBuilt(perf, old(perf.states), table, family, model, defs, curLimit)
    ensures table[0] == Entry(perf.states[0])
    ensures policy.transitionLatency == MaxLatency(perf.states, |perf.states|)
    ensures policy.sharedType == old(policy.sharedType) && policy.cpus == old(policy.cpus)
    ensures policy.cur == old(policy.cur) && policy.turbo == old(policy.turbo)
  {
    // xmalloc_array leaves the entries uninitialised; zero stands for that
    // content. The table lookups read only the kept entries and the
    // terminator, but powernow.c:297 can read an unwritten slot.
    table := new FreqEntry[|perf.states| + 1](_ => FreqEntry(0, 0));

    var states := perf.states;
    policy.transitionLatency := 0;
    for i := 0 to |states|
      invariant policy.transitionLatency == MaxLatency(states, i)
      invariant perf.states == states
      invariant policy.sharedType == old(policy.sharedType) && policy.cpus == old(policy.cpus)
      invariant policy.cur == old(policy.cur) && policy.turbo == old(policy.turbo)
    {
      if (states[i].transitionLatency * 1000) % TWO_64 > policy.transitionLatency {
        policy.transitionLatency := ((states[i].transitionLatency * 1000) % TWO_64) % TWO_32;
      }
    }

    var maxHw := perf.GetCpuData(family, model, defs, curLimit);
    LatencyIgnoresFrequency(states, perf.states, |states|);
    var valid, i := BuildFreqTable(perf.states, maxHw, table);
    perf.state := 0;
    TableFirst(perf.states, maxHw, |perf.states|);
  }

  /** cpufreq_drv_data: the driver data of each CPU this driver has set up. */
  class Powernow {
    var drvData: map<nat, CpufreqData>

    constructor ()
      ensures drvData == map[]
    {
      drvData := map[];
    }

    /**
     * powernow_cpufreq_cpu_init. The outcomes of the two allocations, the
     * MSRs the CPU reads and cpufreq_frequency_table_cpuinfo's result are
     * parameters. policy->cur is set to the frequency of P-state 0, the
     * state perf->state is reset to.
     */
    method CpuInit(policy: Policy, perf: Perf, family: nat, model: nat, defs: seq<Msr>, curLimit: nat, hasCpb: bool,
                   dataAllocOk: bool, tableAllocOk: bool, cpuinfoRc: int) returns (rc: int)
      requires |defs| == 8 && cpuinfoRc <= 0
      modifies this, policy, perf
      ensures !dataAllocOk ==> rc == -ENOMEM && drvData == old(drvData)
      ensures !dataAllocOk ==> unchanged(policy, perf)
      ensures dataAllocOk ==> policy.sharedType == perf.sharedType
      ensures dataAllocOk ==> policy.cpus == if Coordinated(perf.sharedType) then old(policy.cpus) + {policy.cpu} else {policy.cpu}
      ensures dataAllocOk && Coordinated(perf.sharedType) && |old(policy.cpus) + {policy.cpu}| != 1 ==> rc == -ENODEV
      ensures dataAllocOk && |old(perf.states)| <= 1 ==> rc == -ENODEV
      ensures dataAllocOk && perf.controlSpaceId != perf.statusSpaceId ==> rc == -ENODEV
      ensures rc == 0 ==>
        && dataAllocOk && tableAllocOk && cpuinfoRc == 0
        && !(Coordinated(perf.sharedType) && |old(policy.cpus) + {policy.cpu}| != 1)
        && |old(perf.states)| > 1 && perf.controlSpaceId == perf.statusSpaceId
      ensures dataAllocOk && !(Coordinated(perf.sharedType) && |old(policy.cpus) + {policy.cpu}| != 1) &&
              |old(perf.states)| > 1 && perf.controlSpaceId == perf.statusSpaceId ==>
        rc == if tableAllocOk then cpuinfoRc else -ENOMEM
      ensures rc != 0 ==> rc < 0
      ensures dataAllocOk && rc != 0 ==> drvData == old(drvData) - {policy.cpu}
      ensures rc == 0 ==> policy.cpu in drvData && drvData == old(drvData)[policy.cpu := drvData[policy.cpu]]
      ensures rc == 0 ==>
        var d := drvData[policy.cpu];
        && fresh(d) && fresh(d.freqTable) && d.perf == perf && d.resume
        && TableBuilt(perf, old(perf.states), d.freqTable, family, model, defs, curLimit)
        && policy.transitionLatency == MaxLatency(perf.states, |perf.states|)
        && policy.turbo == (if hasCpb then TurboEnabled else old(policy.turbo))
        && policy.cur == Entry(perf.states[0]).frequency
    {
      if !dataAllocOk {
        return -ENOMEM;
      }
      policy.sharedType := perf.sharedType;
      if Coordinated(policy.sharedType) {
        policy.cpus := policy.cpus + {policy.cpu};
        if |policy.cpus| != 1 {
          drvData := drvData - {policy.cpu};
          return -ENODEV;
        }
      } else {
        policy.cpus := {policy.cpu};
      }
      if |perf.states| <= 1 || perf.controlSpaceId != perf.statusSpaceId {
        drvData := drvData - {policy.cpu};
        return -ENODEV;
      }
      if !tableAllocOk {
        drvData := drvData - {policy.cpu};
        return -ENOMEM;
      }
      var table := SetupTable(policy, perf, family, model, defs, curLimit);
      if cpuinfoRc != 0 {
        drvData := drvData - {policy.cpu};
        return cpuinfoRc;
      }
      if hasCpb {
        policy.turbo := TurboEnabled;
      }
      var d := new CpufreqData(perf, table);
      drvData := drvData[policy.cpu := d];
      policy.cur := table[0].frequency;
      return 0;
    }

    /**
     * powernow_cpufreq_target. cpufreq_frequency_table_target's result and
     * chosen entry are parameters. Returns the value written to
     * MSR_PSTATE_CTRL, if any: nothing when the chosen P-state is the
     * current one, unless the resume flag asks for the first write after
     * init.
     */
    method Target(policy: Policy, tableRc: int, nextState: nat) returns (rc: int, written: Option<nat>)
      requires policy.cpu in drvData ==> nextState < drvData[policy.cpu].freqTable.Length
      modifies policy, if policy.cpu in drvData then {drvData[policy.cpu], drvData[policy.cpu].perf} else {}
      ensures policy.cpu !in drvData ==> rc == -ENODEV && written == None
      ensures policy.cpu in drvData && tableRc != 0 ==> rc == tableRc && written == None
      ensures policy.cpu in drvData && tableRc == 0 ==>
        var d := drvData[policy.cpu];
        var next := d.freqTable[nextState];
        && rc == 0
        && (if old(d.perf.state) == next.index && !old(d.resume) then
              written == None && d.perf.state == old(d.perf.state) && policy.cur == old(policy.cur)
            else
              written == Some(next.index) && d.perf.state == next.index && policy.cur == next.frequency)
        && d.resume == (old(d.resume) && old(d.perf.state) != next.index)
      ensures policy.cpu in drvData ==> drvData[policy.cpu].perf.states == old(drvData[policy.cpu].perf.states)
      ensures policy.cpu !in drvData || tableRc != 0 ==> unchanged(policy) && (policy.cpu in drvData ==> unchanged(drvData[policy.cpu], drvData[policy.cpu].perf))
      ensures policy.sharedType == old(policy.sharedType) && policy.cpus == old(policy.cpus)
      ensures policy.turbo == old(policy.turbo) && policy.transitionLatency == old(policy.transitionLatency)
    {
      if policy.cpu !in drvData {
        return -ENODEV, None;
      }
      var d := drvData[policy.cpu];
      if tableRc != 0 {
        return tableRc, None;
      }
      var nextPerfState := d.freqTable[nextState].index;
      if d.perf.state == nextPerfState {
        if d.resume {
          d.resume := false;
        } else {
          return 0, None;
        }
      }
      written := Some(nextPerfState);
      d.perf.state := nextPerfState;
      policy.cur := d.freqTable[nextState].frequency;
      rc := 0;
    }

    /** powernow_cpufreq_cpu_exit: forgets the CPU's driver data; always 0. */
    method CpuExit(policy: Policy) returns (rc: int)
      modifies this
      ensures rc == 0 && drvData == old(drvData) - {policy.cpu}
    {
      drvData := drvData - {policy.cpu};
      return 0;
    }
  }

  /** The latency loop reads only the latencies, which the frequency fix-up leaves alone. */
  lemma {:induction false} LatencyIgnoresFrequency(a: seq<Px>, b: seq<Px>, n: nat)
    requires n <= |a| == |b|
    requires forall i | 0 <= i < |a| :: a[i].transitionLatency == b[i].transitionLatency
    ensures MaxLatency(a, n) == MaxLatency(b, n)
  {
    if n > 0 {
      LatencyIgnoresFrequency(a, b, n - 1);
    }
  }
}
