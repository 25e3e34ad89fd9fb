/**
 * Properties of the CPU-policy serialisation: the CPUID entries come out in
 * strictly increasing (leaf, subleaf) order, each naming a distinct slot of
 * the policy and carrying that slot's value, so copying them back in
 * reproduces the policy; the MSR entries likewise; and a failed copy-in
 * names the first entry it refused and keeps everything stored before it.
 */
module CpuPolicyProps {
  import opened Opt
  import opened Errno
  import opened CpuPolicy

  // ---------------------------------------------------------------------
  // Order
  // ---------------------------------------------------------------------

  /** (leaf, subleaf) order, the order a well-formed buffer lists its leaves in. */
  predicate Before(e: CpuidEntry, f: CpuidEntry)
  {
    e.leaf < f.leaf || (e.leaf == f.leaf && e.subleaf < f.subleaf)
  }

  /** Strictly increasing: in order and without repetitions. */
  predicate Increasing(s: seq<CpuidEntry>)
  {
    forall i, j | 0 <= i < j < |s| :: Before(s[i], s[j])
  }

  lemma IncreasingAppend(s: seq<CpuidEntry>, t: seq<CpuidEntry>)
    requires Increasing(s) && Increasing(t)
    requires forall e, f | e in s && f in t :: Before(e, f)
    ensures Increasing(s + t)
  {
    forall i, j | 0 <= i < j < |s + t|
      ensures Before((s + t)[i], (s + t)[j])
    {
      if i < |s| && j >= |s| {
        assert (s + t)[i] in s && (s + t)[j] in t;
      }
    }
  }

  /** An entry that names a slot of p carrying exactly that slot's value. */
  predicate Agrees(p: Policy, z: Sizes, e: CpuidEntry)
    requires Shaped(p, z)
  {
    SlotOf(z, e.leaf, e.subleaf).Some? && ReadSlot(p, z, SlotOf(z, e.leaf, e.subleaf).value) == e.data
  }

  // ---------------------------------------------------------------------
  // Each group of the serialisation is ordered and agrees with the policy
  // ---------------------------------------------------------------------

  /** Leaf 0x4: subleaves k.. in order, each naming its cache slot. */
  lemma {:induction false} CacheEntriesWellFormed(p: Policy, z: Sizes, k: nat)
    requires Shaped(p, z) && SizesOk(z) && LEAF_CACHE < z.basic
    ensures Increasing(CacheEntries(p.cache, k))
    ensures forall e | e in CacheEntries(p.cache, k) :: e.leaf == LEAF_CACHE && k <= e.subleaf && Agrees(p, z, e)
    decreases |p.cache| - k
  {
    if k < |p.cache| {
      var e := CpuidEntry(LEAF_CACHE, k, p.cache[k]);
      assert Agrees(p, z, e);
      if CacheType(p.cache[k]) != 0 {
        CacheEntriesWellFormed(p, z, k + 1);
        IncreasingAppend([e], CacheEntries(p.cache, k + 1));
      }
    }
  }

  /** Leaf 0xb: subleaves k.. in order, each naming its topology slot. */
  lemma {:induction false} TopoEntriesWellFormed(p: Policy, z: Sizes, k: nat)
    requires Shaped(p, z) && SizesOk(z) && LEAF_TOPO < z.basic
    ensures Increasing(TopoEntries(p.topo, k))
    ensures forall e | e in TopoEntries(p.topo, k) :: e.leaf == LEAF_TOPO && k <= e.subleaf && Agrees(p, z, e)
    decreases |p.topo| - k
  {
    if k < |p.topo| {
      var e := CpuidEntry(LEAF_TOPO, k, p.topo[k]);
      assert Agrees(p, z, e);
      if TopoType(p.topo[k]) != 0 {
        TopoEntriesWellFormed(p, z, k + 1);
        IncreasingAppend([e], TopoEntries(p.topo, k + 1));
      }
    }
  }

  /** Leaf 0x7: subleaves k..last in order, each naming its feature slot. */
  lemma {:induction false} FeatEntriesWellFormed(p: Policy, z: Sizes, k: nat, last: nat)
    requires Shaped(p, z) && SizesOk(z) && LEAF_FEAT < z.basic && last < z.feat
    ensures Increasing(FeatEntries(p.feat, k, last))
    ensures forall e | e in FeatEntries(p.feat, k, last) :: e.leaf == LEAF_FEAT && k <= e.subleaf && Agrees(p, z, e)
    decreases last + 1 - k
  {
    if k <= last {
      FeatEntriesWellFormed(p, z, k + 1, last);
      IncreasingAppend([CpuidEntry(LEAF_FEAT, k, p.feat[k])], FeatEntries(p.feat, k + 1, last));
    }
  }

  /** Leaf 0xd from subleaf k: in order, each naming its xstate slot. */
  lemma {:induction false} XstateEntriesWellFormed(p: Policy, z: Sizes, x0: nat, x1: nat, k: nat)
    requires Shaped(p, z) && SizesOk(z) && LEAF_XSTATE < z.basic
    ensures Increasing(XstateEntries(p.xstate, x0, x1, k))
    ensures forall e | e in XstateEntries(p.xstate, x0, x1, k) ::
      e.leaf == LEAF_XSTATE && k <= e.subleaf && Agrees(p, z, e)
    decreases |p.xstate| - k
  {
    if (x0 != 0 || x1 != 0) && k < |p.xstate| {
      XstateEntriesWellFormed(p, z, x0 / 2, x1 / 2, k + 1);
      IncreasingAppend([CpuidEntry(LEAF_XSTATE, k, p.xstate[k])], XstateEntries(p.xstate, x0 / 2, x1 / 2, k + 1));
    }
  }

  /** Leaf 0xd: subleaves 0 and 1, then the supported ones from 2, in order, each naming its slot. */
  lemma XstateLeafWellFormed(p: Policy, z: Sizes)
    requires Shaped(p, z) && SizesOk(z) && LEAF_XSTATE < z.basic
    ensures Increasing(LeafEntries(p, z, LEAF_XSTATE))
    ensures forall e | e in LeafEntries(p, z, LEAF_XSTATE) :: e.leaf == LEAF_XSTATE && Agrees(p, z, e)
  {
    var xs := XstateEntries(p.xstate, Xcr0(p) / 4, Xss(p) / 4, 2);
    XstateEntriesWellFormed(p, z, Xcr0(p) / 4, Xss(p) / 4, 2);
    var e0, e1 := CpuidEntry(LEAF_XSTATE, 0, p.xstate[0]), CpuidEntry(LEAF_XSTATE, 1, p.xstate[1]);
    assert Agrees(p, z, e0) && Agrees(p, z, e1);
    IncreasingAppend([e1], xs);
    IncreasingAppend([e0], [e1] + xs);
    assert LeafEntries(p, z, LEAF_XSTATE) == [e0] + ([e1] + xs);
  }

  /** x >> n on an unbounded integer. */
  function ShiftRight(x: nat, n: nat): nat
  {
    if n == 0 then x else ShiftRight(x / 2, n - 1)
  }

  lemma {:induction false} ShiftRightZero(n: nat)
    ensures ShiftRight(0, n) == 0
  {
    if n > 0 {
      ShiftRightZero(n - 1);
    }
  }

  /**
   * The subleaves of leaf 0xd from k: subleaf k + d is emitted exactly when
   * it is in range and x0 or x1 still has a bit at or above d.
   */
  lemma {:induction false} XstateEntriesExact(raw: seq<Leaf>, x0: nat, x1: nat, k: nat)
    ensures forall e | e in XstateEntries(raw, x0, x1, k) ::
      e.leaf == LEAF_XSTATE && k <= e.subleaf < |raw| && e.data == raw[e.subleaf]
    ensures forall d: nat | k + d < |raw| ::
      CpuidEntry(LEAF_XSTATE, k + d, raw[k + d]) in XstateEntries(raw, x0, x1, k) <==>
      (ShiftRight(x0, d) != 0 || ShiftRight(x1, d) != 0)
    decreases |raw| - k
  {
    if (x0 != 0 || x1 != 0) && k < |raw| {
      XstateEntriesExact(raw, x0 / 2, x1 / 2, k + 1);
      forall d: nat | k + d < |raw|
        ensures CpuidEntry(LEAF_XSTATE, k + d, raw[k + d]) in XstateEntries(raw, x0, x1, k) <==>
                (ShiftRight(x0, d) != 0 || ShiftRight(x1, d) != 0)
      {
        if d > 0 {
          assert k + d == (k + 1) + (d - 1);
        }
      }
    } else if k < |raw| {
      forall d: nat | k + d < |raw|
        ensures ShiftRight(x0, d) == 0 && ShiftRight(x1, d) == 0
      {
        ShiftRightZero(d);
      }
    }
  }

  /**
   * Leaf 0xd always carries subleaves 0 and 1; subleaf j >= 2 is emitted
   * exactly when the array has it and XCR0 or XSS has a bit set at or
   * above j, the loop's test that the shifted xstates are nonzero.
   */
  lemma XstateSubleaves(p: Policy, z: Sizes)
    requires Shaped(p, z) && SizesOk(z) && LEAF_XSTATE < z.basic
    ensures LeafEntries(p, z, LEAF_XSTATE)[..2] ==
            [CpuidEntry(LEAF_XSTATE, 0, p.xstate[0]), CpuidEntry(LEAF_XSTATE, 1, p.xstate[1])]
    ensures forall j | 2 <= j < z.xstate ::
      CpuidEntry(LEAF_XSTATE, j, p.xstate[j]) in LeafEntries(p, z, LEAF_XSTATE) <==>
      (ShiftRight(Xcr0(p), j) != 0 || ShiftRight(Xss(p), j) != 0)
  {
    var xs := XstateEntries(p.xstate, Xcr0(p) / 4, Xss(p) / 4, 2);
    XstateEntriesExact(p.xstate, Xcr0(p) / 4, Xss(p) / 4, 2);
    var e0, e1 := CpuidEntry(LEAF_XSTATE, 0, p.xstate[0]), CpuidEntry(LEAF_XSTATE, 1, p.xstate[1]);
    assert LeafEntries(p, z, LEAF_XSTATE) == [e0, e1] + xs;
    forall j | 2 <= j < z.xstate
      ensures CpuidEntry(LEAF_XSTATE, j, p.xstate[j]) in LeafEntries(p, z, LEAF_XSTATE) <==>
              CpuidEntry(LEAF_XSTATE, j, p.xstate[j]) in xs
      ensures ShiftRight(Xcr0(p), j) == ShiftRight(Xcr0(p) / 4, j - 2)
      ensures ShiftRight(Xss(p), j) == ShiftRight(Xss(p) / 4, j - 2)
    {
      assert Xcr0(p) / 2 / 2 == Xcr0(p) / 4 && Xss(p) / 2 / 2 == Xss(p) / 4;
      assert 2 + (j - 2) == j;
    }
  }

  /** The entries of one basic leaf all carry that leaf, in order, each naming its slot. */
  lemma LeafEntriesWellFormed(p: Policy, z: Sizes, leaf: nat)
    requires Shaped(p, z) && SizesOk(z) && leaf < z.basic
    ensures Increasing(LeafEntries(p, z, leaf))
    ensures forall e | e in LeafEntries(p, z, leaf) :: e.leaf == leaf && Agrees(p, z, e)
  {
    if leaf == LEAF_CACHE {
      CacheEntriesWellFormed(p, z, 0);
    } else if leaf == LEAF_FEAT {
      FeatEntriesWellFormed(p, z, 0, Min(p.feat[0].a, z.feat - 1));
    } else if leaf == LEAF_TOPO {
      TopoEntriesWellFormed(p, z, 0);
    } else if leaf == LEAF_XSTATE {
      XstateLeafWellFormed(p, z);
    } else {
      var e := CpuidEntry(leaf, NO_SUBLEAF, p.basic[leaf]);
      assert LeafEntries(p, z, leaf) == [e];
      assert SlotOf(z, leaf, NO_SUBLEAF) == Some(Basic(leaf));
    }
  }

  /** Basic leaves leaf..last: in order, within that range, each naming its slot. */
  lemma {:induction false} BasicEntriesWellFormed(p: Policy, z: Sizes, leaf: nat, last: nat)
    requires Shaped(p, z) && SizesOk(z) && last < z.basic
    ensures Increasing(BasicEntries(p, z, leaf, last))
    ensures forall e | e in BasicEntries(p, z, leaf, last) :: leaf <= e.leaf <= last && Agrees(p, z, e)
    ensures forall l | leaf <= l <= last && l != LEAF_CACHE && l != LEAF_FEAT && l != LEAF_TOPO && l != LEAF_XSTATE ::
      CpuidEntry(l, NO_SUBLEAF, p.basic[l]) in BasicEntries(p, z, leaf, last)
    decreases last + 1 - leaf
  {
    if leaf <= last {
      LeafEntriesWellFormed(p, z, leaf);
      BasicEntriesWellFormed(p, z, leaf + 1, last);
      IncreasingAppend(LeafEntries(p, z, leaf), BasicEntries(p, z, leaf + 1, last));
    }
  }

  /** Extended leaves 0x80000000|k..last: in order, each naming its slot. */
  lemma {:induction false} ExtdEntriesWellFormed(p: Policy, z: Sizes, k: nat, last: nat)
    requires Shaped(p, z) && SizesOk(z) && last < z.extd
    ensures Increasing(ExtdEntries(p, z, k, last))
    ensures forall e | e in ExtdEntries(p, z, k, last) :: LEAF_EXTD + k <= e.leaf && Agrees(p, z, e)
    ensures forall i | k <= i <= last :: CpuidEntry(LEAF_EXTD + i, NO_SUBLEAF, p.extd[i]) in ExtdEntries(p, z, k, last)
    decreases last + 1 - k
  {
    if k <= last {
      ExtdEntriesWellFormed(p, z, k + 1, last);
      IncreasingAppend([CpuidEntry(LEAF_EXTD + k, NO_SUBLEAF, p.extd[k])], ExtdEntries(p, z, k + 1, last));
    }
  }

  /**
   * The whole CPUID serialisation lists each (leaf, subleaf) at most once,
   * in increasing order, every entry naming a slot of the policy and
   * carrying its value.  It lists each basic leaf without subleaves up to
   * max_leaf (capped by the array) and no basic leaf beyond it, both
   * hypervisor leaves with register a only, and each extended leaf
   * 0x80000000|i up to the low 16 bits of its max_leaf (capped likewise).
   */
  lemma CpuidEntriesWellFormed(p: Policy, z: Sizes)
    requires Shaped(p, z) && SizesOk(z)
    ensures Increasing(CpuidEntries(p, z))
    ensures forall e | e in CpuidEntries(p, z) :: Agrees(p, z, e) && (e.leaf < LEAF_HV ==> e.leaf <= LastBasic(p, z))
    ensures forall l: nat | l <= LastBasic(p, z) && l != LEAF_CACHE && l != LEAF_FEAT && l != LEAF_TOPO && l != LEAF_XSTATE ::
      CpuidEntry(l, NO_SUBLEAF, p.basic[l]) in CpuidEntries(p, z)
    ensures CpuidEntry(LEAF_HV, NO_SUBLEAF, Leaf(p.hvLimit, 0, 0, 0)) in CpuidEntries(p, z)
    ensures CpuidEntry(LEAF_HV2, NO_SUBLEAF, Leaf(p.hv2Limit, 0, 0, 0)) in CpuidEntries(p, z)
    ensures forall i: nat | i <= LastExtd(p, z) :: CpuidEntry(LEAF_EXTD + i, NO_SUBLEAF, p.extd[i]) in CpuidEntries(p, z)
  {
    var basic := BasicEntries(p, z, 0, LastBasic(p, z));
    var extd := ExtdEntries(p, z, 0, LastExtd(p, z));
    var hv := HvEntries(p);
    BasicEntriesWellFormed(p, z, 0, LastBasic(p, z));
    ExtdEntriesWellFormed(p, z, 0, LastExtd(p, z));
    assert Increasing(hv);
    IncreasingAppend(hv, extd);
    IncreasingAppend(basic, hv + extd);
    assert CpuidEntries(p, z) == basic + (hv + extd);
  }

  // ---------------------------------------------------------------------
  // Copying a buffer in
  // ---------------------------------------------------------------------

  /** Two (leaf, subleaf) pairs that name the same slot are the same pair. */
  lemma SlotOfInjective(z: Sizes, e: CpuidEntry, f: CpuidEntry)
    requires SizesOk(z)
    requires SlotOf(z, e.leaf, e.subleaf).Some? && SlotOf(z, e.leaf, e.subleaf) == SlotOf(z, f.leaf, f.subleaf)
    ensures e.leaf == f.leaf && e.subleaf == f.subleaf
  {
  }

  /** Some entry of es names slot t. */
  ghost predicate Named(z: Sizes, es: seq<CpuidEntry>, t: Slot)
  {
    exists k | 0 <= k < |es| :: SlotOf(z, es[k].leaf, es[k].subleaf) == Some(t)
  }

  /**
   * Applying entries that are in order and all name slots succeeds; each
   * named slot ends up with what its entry carries, and every other slot is
   * as before.
   */
  lemma {:induction false} ApplyIncreasing(q: Policy, z: Sizes, es: seq<CpuidEntry>)
    requires Shaped(q, z) && SizesOk(z) && Increasing(es)
    requires forall k | 0 <= k < |es| :: SlotOf(z, es[k].leaf, es[k].subleaf).Some?
    ensures ApplyLeaves(q, z, es).rc == 0
    ensures forall k | 0 <= k < |es| :: var s := SlotOf(z, es[k].leaf, es[k].subleaf).value;
      ReadSlot(ApplyLeaves(q, z, es).p, z, s) == Kept(s, es[k].data)
    ensures forall t | ValidSlot(z, t) && !Named(z, es, t) :: ReadSlot(ApplyLeaves(q, z, es).p, z, t) == ReadSlot(q, z, t)
    decreases |es|
  {
    if es != [] {
      var q' := ApplyLeaf(q, z, es[0]).value;
      var rest := es[1..];
      var s0 := SlotOf(z, es[0].leaf, es[0].subleaf).value;
      ApplyIncreasing(q', z, rest);
      var r := ApplyLeaves(q, z, es);
      assert r == ApplyLeaves(q', z, rest);
      assert !Named(z, rest, s0) by {
        forall k | 0 <= k < |rest|
          ensures SlotOf(z, rest[k].leaf, rest[k].subleaf) != Some(s0)
        {
          assert Before(es[0], es[k + 1]);
          if SlotOf(z, rest[k].leaf, rest[k].subleaf) == Some(s0) {
            SlotOfInjective(z, es[0], rest[k]);
          }
        }
      }
      forall k | 0 <= k < |es|
        ensures ReadSlot(r.p, z, SlotOf(z, es[k].leaf, es[k].subleaf).value) == Kept(SlotOf(z, es[k].leaf, es[k].subleaf).value, es[k].data)
      {
        if k > 0 {
          assert es[k] == rest[k - 1];
        }
      }
      assert SlotOf(z, es[0].leaf, es[0].subleaf) == Some(s0);
      forall t | ValidSlot(z, t) && !Named(z, es, t)
        ensures ReadSlot(r.p, z, t) == ReadSlot(q, z, t)
      {
        assert !Named(z, rest, t) by {
          forall k | 0 <= k < |rest|
            ensures SlotOf(z, rest[k].leaf, rest[k].subleaf) != Some(t)
          {
            assert es[k + 1] == rest[k];
          }
        }
      }
    }
  }

  /**
   * Round trip: copying the serialisation of p into any policy q succeeds
   * when it is within the entry limit, and leaves every slot the
   * serialisation names with p's value and every other slot with q's.
   */
  lemma CpuidRoundTrip(p: Policy, q: Policy, z: Sizes)
    requires Shaped(p, z) && Shaped(q, z) && SizesOk(z)
    requires |CpuidEntries(p, z)| <= z.maxLeaves
    ensures var r := CpuidFromBuffer(q, z, CpuidEntries(p, z));
      && r.rc == 0 && r.errLeaf == NO_ERROR && r.errSubleaf == NO_ERROR
      && r.p.platformInfo == q.platformInfo && r.p.archCaps == q.archCaps
      && forall t | ValidSlot(z, t) ::
           ReadSlot(r.p, z, t) == if Named(z, CpuidEntries(p, z), t) then ReadSlot(p, z, t) else ReadSlot(q, z, t)
  {
    var es := CpuidEntries(p, z);
    CpuidEntriesWellFormed(p, z);
    assert forall k | 0 <= k < |es| :: Agrees(p, z, es[k]) by {
      forall k | 0 <= k < |es| ensures Agrees(p, z, es[k]) {
        assert es[k] in es;
      }
    }
    ApplyIncreasing(q, z, es);
    var r := ApplyLeaves(q, z, es);
    forall t | ValidSlot(z, t) && Named(z, es, t)
      ensures ReadSlot(r.p, z, t) == ReadSlot(p, z, t)
    {
      var k :| 0 <= k < |es| && SlotOf(z, es[k].leaf, es[k].subleaf) == Some(t);
      assert Agrees(p, z, es[k]);
    }
  }

  /** Two shaped policies that agree on every slot and both MSRs are equal. */
  lemma PolicyExt(p: Policy, q: Policy, z: Sizes)
    requires Shaped(p, z) && Shaped(q, z)
    requires forall t | ValidSlot(z, t) :: ReadSlot(p, z, t) == ReadSlot(q, z, t)
    requires p.platformInfo == q.platformInfo && p.archCaps == q.archCaps
    ensures p == q
  {
    assert p.basic == q.basic by {
      forall i | 0 <= i < z.basic ensures p.basic[i] == q.basic[i] { assert ValidSlot(z, Basic(i)); }
    }
    assert p.cache == q.cache by {
      forall i | 0 <= i < z.cache ensures p.cache[i] == q.cache[i] { assert ValidSlot(z, Cache(i)); }
    }
    assert p.feat == q.feat by {
      forall i | 0 <= i < z.feat ensures p.feat[i] == q.feat[i] { assert ValidSlot(z, Feat(i)); }
    }
    assert p.topo == q.topo by {
      forall i | 0 <= i < z.topo ensures p.topo[i] == q.topo[i] { assert ValidSlot(z, Topo(i)); }
    }
    assert p.xstate == q.xstate by {
      forall i | 0 <= i < z.xstate ensures p.xstate[i] == q.xstate[i] { assert ValidSlot(z, Xstate(i)); }
    }
    assert p.extd == q.extd by {
      forall i | 0 <= i < z.extd ensures p.extd[i] == q.extd[i] { assert ValidSlot(z, Extd(i)); }
    }
    assert ReadSlot(p, z, HvLimit) == ReadSlot(q, z, HvLimit);
    assert ReadSlot(p, z, Hv2Limit) == ReadSlot(q, z, Hv2Limit);
  }

  /** Copying a policy's own serialisation back into it changes nothing. */
  lemma CpuidRoundTripSame(p: Policy, z: Sizes)
    requires Shaped(p, z) && SizesOk(z)
    requires |CpuidEntries(p, z)| <= z.maxLeaves
    ensures CpuidFromBuffer(p, z, CpuidEntries(p, z)) == FromResult(0, p, NO_ERROR, NO_ERROR)
  {
    CpuidRoundTrip(p, p, z);
    PolicyExt(CpuidFromBuffer(p, z, CpuidEntries(p, z)).p, p, z);
  }

  /**
   * A buffer copies in completely exactly when every entry names a slot;
   * otherwise the copy stops at the first entry naming none, reports its
   * leaf and subleaf, and keeps what the entries before it stored.
   */
  lemma {:induction false} CpuidRangeError(p: Policy, z: Sizes, es: seq<CpuidEntry>)
    requires Shaped(p, z) && SizesOk(z)
    ensures ApplyLeaves(p, z, es).rc == 0 <==> forall k | 0 <= k < |es| :: SlotOf(z, es[k].leaf, es[k].subleaf).Some?
    ensures var r := ApplyLeaves(p, z, es);
      r.rc == -ERANGE ==> exists k | 0 <= k < |es| ::
        && SlotOf(z, es[k].leaf, es[k].subleaf) == None
        && ApplyLeaves(p, z, es[..k]) == FromResult(0, r.p, NO_ERROR, NO_ERROR)
        && r.errLeaf == es[k].leaf && r.errSubleaf == es[k].subleaf
    decreases |es|
  {
    if es != [] {
      assert es[..0] == [];
      match ApplyLeaf(p, z, es[0])
      case None =>
      case Some(p') =>
        var rest := es[1..];
        CpuidRangeError(p', z, rest);
        var r := ApplyLeaves(p, z, es);
        assert forall k | 0 <= k < |rest| :: rest[k] == es[k + 1];
        if r.rc == -ERANGE {
          var k :| 0 <= k < |rest| && SlotOf(z, rest[k].leaf, rest[k].subleaf) == None &&
            ApplyLeaves(p', z, rest[..k]) == FromResult(0, r.p, NO_ERROR, NO_ERROR) &&
            r.errLeaf == rest[k].leaf && r.errSubleaf == rest[k].subleaf;
          assert es[..k + 1][0] == es[0] && es[..k + 1][1..] == rest[..k];
        }
    }
  }

  // ---------------------------------------------------------------------
  // MSRs
  // ---------------------------------------------------------------------

  /**
   * Round trip: the two MSR entries copied into any policy succeed and set
   * exactly MSR_INTEL_PLATFORM_INFO and MSR_ARCH_CAPABILITIES to p's values.
   */
  lemma MsrRoundTrip(p: Policy, q: Policy, maxMsrs: nat)
    requires p.platformInfo < TWO_32 && p.archCaps < TWO_64 && 2 <= maxMsrs
    ensures MsrFromBuffer(q, maxMsrs, MsrEntries(p)) ==
            MsrResult(0, q.(platformInfo := p.platformInfo, archCaps := p.archCaps), NO_ERROR)
  {
    var es := MsrEntries(p);
    var q1 := q.(platformInfo := p.platformInfo);
    assert ApplyMsr(q, es[0]) == Stored(q1);
    assert es[1..][0] == es[1] && es[1..][1..] == [];
    assert ApplyMsr(q1, es[1]) == Stored(q1.(archCaps := p.archCaps));
    assert ApplyMsrs(q, es) == ApplyMsrs(q1, es[1..]);
    assert ApplyMsrs(q1, es[1..]) == ApplyMsrs(q1.(archCaps := p.archCaps), []);
  }

  /**
   * An MSR buffer that fails names in err_msr the first entry refused,
   * returns that entry's error, and keeps what the entries before it
   * stored.
   */
  lemma {:induction false} MsrError(p: Policy, es: seq<MsrEntry>)
    ensures var r := ApplyMsrs(p, es);
      r.rc != 0 ==> exists k | 0 <= k < |es| ::
        && ApplyMsrs(p, es[..k]) == MsrResult(0, r.p, NO_ERROR)
        && ApplyMsr(r.p, es[k]).Refused? && r.rc == ApplyMsr(r.p, es[k]).rc
        && r.errMsr == es[k].idx
    decreases |es|
  {
    if es != [] {
      assert es[..0] == [];
      match ApplyMsr(p, es[0])
      case Refused(_) =>
      case Stored(p') =>
        var rest := es[1..];
        MsrError(p', rest);
        var r := ApplyMsrs(p, es);
        if r.rc != 0 {
          var k :| 0 <= k < |rest| && ApplyMsrs(p', rest[..k]) == MsrResult(0, r.p, NO_ERROR) &&
            ApplyMsr(r.p, rest[k]).Refused? && r.rc == ApplyMsr(r.p, rest[k]).rc && r.errMsr == rest[k].idx;
          assert es[..k + 1][0] == es[0] && es[..k + 1][1..] == rest[..k];
          assert rest[k] == es[k + 1];
        }
    }
  }
}
