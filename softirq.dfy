/**
 * Softirqs (xen/common/softirq.c): per-CPU pending masks raised by number
 * and run lowest first in an outermost activation, and the batching of
 * the event-check IPIs that tell other CPUs to look at their masks.
 *
 * Per-CPU variables are arrays indexed by CPU; masks of softirqs and of
 * CPUs are sets, as in BitSet. Which CPU is running, whether it is in an
 * interrupt, whether it is offline and whether RCU may quiesce are
 * parameters; the IPIs sent are returned as the set of CPUs they go to.
 */
module Softirq {
  import opened Opt
  import opened BitSet

  const TIMER_SOFTIRQ: nat := 0
  const RCU_SOFTIRQ: nat := 1
  const SCHED_SLAVE_SOFTIRQ: nat := 2
  const SCHEDULE_SOFTIRQ: nat := 3
  const NEW_TLBFLUSH_CLOCK_PERIOD_SOFTIRQ: nat := 4
  const TASKLET_SOFTIRQ: nat := 5
  const NR_COMMON_SOFTIRQS: nat := 6

  /** The softirqs process_pending_softirqs leaves pending: never the scheduler's, and RCU's unless RCU may quiesce. */
  function ProcessIgnoreMask(rcuQuiesceAllowed: bool): (m: set<nat>)
    ensures SCHEDULE_SOFTIRQ in m && SCHED_SLAVE_SOFTIRQ in m
    ensures RCU_SOFTIRQ in m <==> !rcuQuiesceAllowed
    ensures forall i | i in m :: i in {SCHEDULE_SOFTIRQ, SCHED_SLAVE_SOFTIRQ, RCU_SOFTIRQ}
  {
    {SCHEDULE_SOFTIRQ, SCHED_SLAVE_SOFTIRQ} + (if !rcuQuiesceAllowed then {RCU_SOFTIRQ} else {})
  }

  /** The handlers one __do_softirq runs on a CPU whose mask is `pending`: the pending softirqs not ignored, lowest first. */
  function Dispatched(pending: set<nat>, ignore: set<nat>): seq<nat>
  {
    Below(pending - ignore, BITS_PER_LONG)
  }

  /** __do_softirq runs each pending, non-ignored softirq exactly once, in ascending order. */
  lemma DispatchedSpec(pending: set<nat>, ignore: set<nat>)
    requires WordOk(pending)
    ensures forall i :: i in Dispatched(pending, ignore) <==> i in pending && i !in ignore
    ensures forall j, k | 0 <= j < k < |Dispatched(pending, ignore)| ::
      Dispatched(pending, ignore)[j] < Dispatched(pending, ignore)[k]
  {
    BelowSpec(pending - ignore, BITS_PER_LONG);
  }

  /** process_pending_softirqs never enters the scheduler, nor RCU when RCU may not quiesce. */
  lemma ProcessPendingSkipsScheduler(pending: set<nat>, rcuQuiesceAllowed: bool)
    requires WordOk(pending)
    ensures SCHEDULE_SOFTIRQ !in Dispatched(pending, ProcessIgnoreMask(rcuQuiesceAllowed))
    ensures SCHED_SLAVE_SOFTIRQ !in Dispatched(pending, ProcessIgnoreMask(rcuQuiesceAllowed))
    ensures !rcuQuiesceAllowed ==> RCU_SOFTIRQ !in Dispatched(pending, ProcessIgnoreMask(rcuQuiesceAllowed))
    ensures rcuQuiesceAllowed && RCU_SOFTIRQ in pending ==>
      RCU_SOFTIRQ in Dispatched(pending, ProcessIgnoreMask(rcuQuiesceAllowed))
  {
    DispatchedSpec(pending, ProcessIgnoreMask(rcuQuiesceAllowed));
  }

  /** The CPUs of `mask` that need an event check after raising `nr`: those where it was not yet pending, other than this one. */
  function NeedsKick(mask: set<nat>, pending: seq<set<nat>>, nr: nat, thisCpu: nat): (k: set<nat>)
    ensures thisCpu !in k
    ensures forall c :: c in k <==> c in mask && c < |pending| && nr !in pending[c] && c != thisCpu
  {
    set c | c in mask && c < |pending| && nr !in pending[c] && c != thisCpu
  }

  /**
   * One pass of __do_softirq's loop: with the mask holding the ignored
   * softirqs of p0 and those from lo up, clearing the lowest runnable one,
   * i, leaves those from i + 1 up and extends the run list by i.
   */
  lemma ClearLowest(p0: set<nat>, ignore: set<nat>, cur: set<nat>, lo: nat, i: nat)
    requires forall y :: y in cur <==> y in p0 && (y in ignore || lo <= y)
    requires i in cur - ignore && forall x | x in cur - ignore :: i <= x
    ensures lo <= i
    ensures forall y :: y in cur - {i} <==> y in p0 && (y in ignore || i + 1 <= y)
    ensures Below(p0 - ignore, i + 1) == Below(p0 - ignore, lo) + [i]
  {
    LowestStep(p0 - ignore, cur - ignore, lo, i);
    BelowNext(p0 - ignore, lo, i);
    forall y
      ensures y in cur - {i} <==> y in p0 && (y in ignore || i + 1 <= y)
    {
      if y in p0 && y !in ignore && i + 1 <= y {
        assert y in cur;
      }
      if y in cur - {i} && y !in ignore {
        assert y in cur - ignore;
        assert i <= y;
      }
    }
  }

  /** When nothing runnable is left, the run list is complete and only the ignored softirqs stay pending. */
  lemma DoneClearing(p0: set<nat>, ignore: set<nat>, cur: set<nat>, lo: nat)
    requires lo <= BITS_PER_LONG
    requires forall y :: y in cur <==> y in p0 && (y in ignore || lo <= y)
    requires cur - ignore == {}
    ensures Below(p0 - ignore, lo) == Dispatched(p0, ignore)
    ensures cur == p0 * ignore
  {
    forall y | lo <= y < BITS_PER_LONG
      ensures y !in p0 - ignore
    {
      assert y in p0 - ignore ==> y in cur - ignore;
    }
    BelowSkip(p0 - ignore, lo, BITS_PER_LONG);
    forall y
      ensures y in cur <==> y in p0 * ignore
    {
      assert y in cur && y !in ignore ==> y in cur - ignore;
    }
  }

  /** The pending masks once the CPUs of `mask` below n have had nr raised. */
  function RaisedBelow(p0: seq<set<nat>>, mask: set<nat>, nr: nat, n: nat): (r: seq<set<nat>>)
    ensures |r| == |p0|
  {
    seq(|p0|, c requires 0 <= c < |p0| => if c in mask && c < n then p0[c] + {nr} else p0[c])
  }

  class Softirqs {
    /** NR_SOFTIRQS: the common softirqs plus the architecture's. */
    const nrSoftirqs: nat
    const nrCpus: nat
    /** softirq_pending(cpu) for each CPU. */
    const pending: array<set<nat>>
    /** softirq_handlers: the handler installed for each softirq, by identity. */
    const handlers: array<Option<nat>>
    /** Per-CPU batch_mask and batching. */
    const batchMask: array<set<nat>>
    const batching: array<nat>

    ghost predicate Valid()
      reads this, pending, handlers, batchMask, batching
    {
      && NR_COMMON_SOFTIRQS <= nrSoftirqs <= BITS_PER_LONG
      && pending.Length == nrCpus && handlers.Length == nrSoftirqs
      && batchMask.Length == nrCpus && batching.Length == nrCpus
      && pending != batchMask
      && (forall c | 0 <= c < nrCpus :: forall i | i in pending[c] :: i < nrSoftirqs)
      && (forall c | 0 <= c < nrCpus :: forall d | d in batchMask[c] :: d < nrCpus && d != c)
      && (forall c | 0 <= c < nrCpus :: batching[c] == 0 ==> batchMask[c] == {})
    }

    constructor (nrArch: nat, cpus: nat)
      requires NR_COMMON_SOFTIRQS + nrArch <= BITS_PER_LONG
      ensures Valid() && nrSoftirqs == NR_COMMON_SOFTIRQS + nrArch && nrCpus == cpus
      ensures forall c | 0 <= c < cpus :: pending[c] == {} && batchMask[c] == {} && batching[c] == 0
      ensures forall i | 0 <= i < nrSoftirqs :: handlers[i] == None
    {
      nrSoftirqs := NR_COMMON_SOFTIRQS + nrArch;
      nrCpus := cpus;
      pending := new set<nat>[cpus](_ => {});
      handlers := new Option<nat>[NR_COMMON_SOFTIRQS + nrArch](_ => None);
      batchMask := new set<nat>[cpus](_ => {});
      batching := new nat[cpus](_ => 0);
    }

    /** open_softirq: install handler h for softirq nr. */
    method OpenSoftirq(nr: nat, h: nat)
      requires Valid() && nr < nrSoftirqs
      modifies handlers
      ensures Valid()
      ensures handlers[..] == old(handlers[..])[nr := Some(h)]
    {
      handlers[nr] := Some(h);
    }

    /** raise_softirq on CPU `cpu`: set bit nr of its pending mask and nothing else. */
    method RaiseSoftirq(cpu: nat, nr: nat)
      requires Valid() && cpu < nrCpus && nr < nrSoftirqs
      modifies pending
      ensures Valid()
      ensures pending[..] == old(pending[..])[cpu := old(pending[cpu]) + {nr}]
    {
      pending[cpu] := pending[cpu] + {nr};
    }

    /**
     * __do_softirq on CPU `cpu`: while a softirq outside `ignore` is
     * pending and the CPU is online, clear the lowest one and run its
     * handler. The handlers run are returned in order; what they do,
     * including raising further softirqs or moving to another CPU, is not
     * part of this model.
     */
    method DoSoftirq(cpu: nat, ignore: set<nat>, offline: bool) returns (ran: seq<nat>)
      requires Valid() && cpu < nrCpus
      modifies pending
      ensures Valid()
      ensures offline ==> ran == [] && pending[..] == old(pending[..])
      ensures !offline ==> ran == Dispatched(old(pending[cpu]), ignore)
      ensures !offline ==> pending[..] == old(pending[..])[cpu := old(pending[cpu]) * ignore]
    {
      ghost var p0 := pending[cpu];
      ghost var lo: nat := 0;
      ran := [];
      while true
        invariant lo <= BITS_PER_LONG
        invariant forall y :: y in pending[cpu] <==> y in p0 && (y in ignore || lo <= y)
        invariant pending[..] == old(pending[..])[cpu := pending[cpu]]
        invariant ran == Below(p0 - ignore, lo)
        invariant offline ==> ran == [] && pending[cpu] == p0
        decreases |pending[cpu]|
      {
        var rest := pending[cpu] - ignore;
        if rest == {} || offline {
          break;
        }
        var i := Lowest(rest, 0);
        ClearLowest(p0, ignore, pending[cpu], lo, i);
        pending[cpu] := pending[cpu] - {i};
        ran := ran + [i];
        lo := i + 1;
      }
      if !offline {
        DoneClearing(p0, ignore, pending[cpu], lo);
      }
    }

    /** process_pending_softirqs. */
    method ProcessPendingSoftirqs(cpu: nat, rcuQuiesceAllowed: bool, offline: bool) returns (ran: seq<nat>)
      requires Valid() && cpu < nrCpus
      modifies pending
      ensures Valid()
      ensures !offline ==> ran == Dispatched(old(pending[cpu]), ProcessIgnoreMask(rcuQuiesceAllowed))
      ensures offline ==> ran == [] && pending[..] == old(pending[..])
      ensures !offline ==> pending[..] == old(pending[..])[cpu := old(pending[cpu]) * ProcessIgnoreMask(rcuQuiesceAllowed)]
    {
      var ignoreMask := {SCHEDULE_SOFTIRQ, SCHED_SLAVE_SOFTIRQ};
      if !rcuQuiesceAllowed {
        ignoreMask := ignoreMask + {RCU_SOFTIRQ};
      }
      assert ignoreMask == ProcessIgnoreMask(rcuQuiesceAllowed);
      ran := DoSoftirq(cpu, ignoreMask, offline);
    }

    /** do_softirq: nothing ignored. */
    method DoAllSoftirqs(cpu: nat, offline: bool) returns (ran: seq<nat>)
      requires Valid() && cpu < nrCpus
      modifies pending
      ensures Valid()
      ensures !offline ==> ran == Dispatched(old(pending[cpu]), {}) && pending[..] == old(pending[..])[cpu := {}]
      ensures offline ==> ran == [] && pending[..] == old(pending[..])
    {
      ghost var p0: set<nat> := pending[cpu];
      ran := DoSoftirq(cpu, {}, offline);
      assert p0 * {} == {};
    }

    /**
     * cpu_raise_softirq from CPU thisCpu: set bit nr on `cpu`; when it was
     * already set or `cpu` is this CPU, nothing else. Otherwise, outside a
     * batch or in an interrupt, the event check goes to `cpu` now (`sent`);
     * inside a batch, `cpu` joins this CPU's batch mask.
     */
    method CpuRaiseSoftirq(thisCpu: nat, cpu: nat, nr: nat, inIrq: bool) returns (sent: set<nat>)
      requires Valid() && thisCpu < nrCpus && cpu < nrCpus && nr < nrSoftirqs
      modifies pending, batchMask
      ensures Valid()
      ensures pending[..] == old(pending[..])[cpu := old(pending[cpu]) + {nr}]
      ensures sent == if nr !in old(pending[cpu]) && cpu != thisCpu && (batching[thisCpu] == 0 || inIrq) then {cpu} else {}
      ensures batchMask[..] == if nr !in old(pending[cpu]) && cpu != thisCpu && batching[thisCpu] != 0 && !inIrq
        then old(batchMask[..])[thisCpu := old(batchMask[thisCpu]) + {cpu}] else old(batchMask[..])
      ensures thisCpu !in sent
    {
      var wasSet := nr in pending[cpu];
      pending[cpu] := pending[cpu] + {nr};
      if wasSet || cpu == thisCpu {
        return {};
      }
      if batching[thisCpu] == 0 || inIrq {
        sent := {cpu};
      } else {
        batchMask[thisCpu] := batchMask[thisCpu] + {cpu};
        sent := {};
      }
    }

    /**
     * cpumask_raise_softirq from CPU thisCpu: set bit nr on every CPU of
     * `mask`; the CPUs where it was not yet set, this one excepted, get an
     * event check now, or join this CPU's batch mask inside a batch.
     */
    method CpumaskRaiseSoftirq(thisCpu: nat, mask: set<nat>, nr: nat, inIrq: bool) returns (sent: set<nat>)
      requires Valid() && thisCpu < nrCpus && nr < nrSoftirqs
      requires forall c | c in mask :: c < nrCpus
      modifies pending, batchMask
      ensures Valid()
      ensures forall c | 0 <= c < nrCpus :: pending[c] == if c in mask then old(pending[c]) + {nr} else old(pending[c])
      ensures sent == if batching[thisCpu] != 0 && !inIrq then {} else NeedsKick(mask, old(pending[..]), nr, thisCpu)
      ensures batchMask[..] == if batching[thisCpu] != 0 && !inIrq
        then old(batchMask[..])[thisCpu := old(batchMask[thisCpu]) + NeedsKick(mask, old(pending[..]), nr, thisCpu)]
        else old(batchMask[..])
    {
      ghost var p0 := pending[..];
      var batch := batching[thisCpu] != 0 && !inIrq;
      var raiseMask: set<nat> := if batch then batchMask[thisCpu] else {};
      ghost var base := raiseMask;
      for cpu := 0 to nrCpus
        invariant pending[..] == RaisedBelow(p0, mask, nr, cpu)
        invariant raiseMask == base + NeedsKick(mask, p0[..cpu], nr, thisCpu)
        invariant batchMask[..] == old(batchMask[..])
      {
        if cpu in mask {
          var wasSet := nr in pending[cpu];
          pending[cpu] := pending[cpu] + {nr};
          if !wasSet && cpu != thisCpu {
            raiseMask := raiseMask + {cpu};
          }
        }
        assert NeedsKick(mask, p0[..cpu + 1], nr, thisCpu)
          == NeedsKick(mask, p0[..cpu], nr, thisCpu) + (if cpu in mask && nr !in p0[cpu] && cpu != thisCpu then {cpu} else {});
      }
      assert p0[..nrCpus] == p0;
      if batch {
        batchMask[thisCpu] := raiseMask;
        sent := {};
      } else {
        sent := raiseMask;
      }
    }

    /** cpu_raise_softirq_batch_begin. */
    method BatchBegin(thisCpu: nat)
      requires Valid() && thisCpu < nrCpus
      modifies batching
      ensures Valid()
      ensures batching[..] == old(batching[..])[thisCpu := old(batching[thisCpu]) + 1]
    {
      batching[thisCpu] := batching[thisCpu] + 1;
    }

    /**
     * cpu_raise_softirq_batch_finish: the CPUs of this CPU's batch mask
     * that still have something pending get their event check; the mask is
     * emptied and one level of batching ends.
     */
    method BatchFinish(thisCpu: nat) returns (sent: set<nat>)
      requires Valid() && thisCpu < nrCpus && batching[thisCpu] > 0
      modifies batchMask, batching
      ensures Valid()
      ensures sent == set c | c in old(batchMask[thisCpu]) && pending[c] != {}
      ensures thisCpu !in sent
      ensures batchMask[..] == old(batchMask[..])[thisCpu := {}]
      ensures batching[..] == old(batching[..])[thisCpu := old(batching[thisCpu]) - 1]
    {
      ghost var m0 := batchMask[thisCpu];
      for cpu := 0 to nrCpus
        invariant batchMask[thisCpu] == set c | c in m0 && (c >= cpu || pending[c] != {})
        invariant forall c | 0 <= c < nrCpus && c != thisCpu :: batchMask[c] == old(batchMask[c])
        invariant batching[..] == old(batching[..])
      {
        if cpu in batchMask[thisCpu] && pending[cpu] == {} {
          batchMask[thisCpu] := batchMask[thisCpu] - {cpu};
        }
      }
      sent := batchMask[thisCpu];
      batchMask[thisCpu] := {};
      batching[thisCpu] := batching[thisCpu] - 1;
    }
  }
}
