/**
 * The FF-A mediator's global subscriber lists and the domain life-cycle
 * messages built on them (xen/arch/arm/tee/ffa.c): SPs that asked to hear
 * of VM creation and destruction are told, in partition order, when a
 * domain is created and torn down.
 */
module FfaMediator {
  import opened Opt
  import Errno
  import opened Ffa

  const FFA_PART_PROP_NOTIF_CREATED: nat := 0x40
  const FFA_PART_PROP_NOTIF_DESTROYED: nat := 0x80

  /** props & bit, for a single-bit mask. */
  predicate HasProp(props: nat, bit: nat)
    requires bit > 0
  {
    (props / bit) % 2 == 1
  }

  /** The IDs of the partitions with a property bit set, in partition order. */
  function Subscribers(fpi: seq<PartInfo>, bit: nat): seq<nat>
    requires bit > 0
  {
    if fpi == [] then []
    else
      var last := fpi[|fpi| - 1];
      Subscribers(fpi[..|fpi| - 1], bit) + (if HasProp(last.props, bit) then [last.id] else [])
  }

  /** An ID is listed exactly when some partition with that ID has the bit set. */
  lemma {:induction false} SubscribersMembers(fpi: seq<PartInfo>, bit: nat, id: nat)
    requires bit > 0
    ensures id in Subscribers(fpi, bit) <==> exists n | 0 <= n < |fpi| :: fpi[n].id == id && HasProp(fpi[n].props, bit)
  {
    if fpi != [] {
      var init := fpi[..|fpi| - 1];
      SubscribersMembers(init, bit, id);
      if id in Subscribers(init, bit) {
        var n :| 0 <= n < |init| && init[n].id == id && HasProp(init[n].props, bit);
        assert fpi[n] == init[n];
      }
      if exists n | 0 <= n < |fpi| :: fpi[n].id == id && HasProp(fpi[n].props, bit) {
        var n :| 0 <= n < |fpi| && fpi[n].id == id && HasProp(fpi[n].props, bit);
        if n < |init| {
          assert init[n] == fpi[n];
        }
      }
    }
  }

  /** A longer prefix lists at least as many subscribers. */
  lemma {:induction false} SubscribersPrefix(fpi: seq<PartInfo>, bit: nat, n: nat, m: nat)
    requires bit > 0 && n <= m <= |fpi|
    ensures |Subscribers(fpi[..n], bit)| <= |Subscribers(fpi[..m], bit)|
    decreases m - n
  {
    if n < m {
      SubscribersPrefix(fpi, bit, n, m - 1);
      assert fpi[..m][..m - 1] == fpi[..m - 1];
    }
  }

  /** One step of a scan over fpi[..n]. */
  lemma SubscribersStep(fpi: seq<PartInfo>, bit: nat, n: nat)
    requires bit > 0 && n < |fpi|
    ensures Subscribers(fpi[..n + 1], bit) ==
            Subscribers(fpi[..n], bit) + (if HasProp(fpi[n].props, bit) then [fpi[n].id] else [])
  {
    assert fpi[..n + 1][..n] == fpi[..n];
  }

  /**
   * The SPs sent VM_DESTROYED at teardown: the destruction subscribers,
   * in order, less those that subscribe to creation but were never told
   * of it (created[start..]).
   */
  function TeardownTargets(created: seq<nat>, start: nat, destroyed: seq<nat>): seq<nat>
  {
    if destroyed == [] then []
    else
      var sp := destroyed[|destroyed| - 1];
      TeardownTargets(created, start, destroyed[..|destroyed| - 1]) +
      (if exists n | start <= n < |created| :: created[n] == sp then [] else [sp])
  }

  /**
   * Teardown tells a destruction subscriber exactly when it is not among
   * the creation subscribers left untold; with distinct IDs, that includes
   * every SP that was told of the creation.
   */
  lemma {:induction false} TeardownTargetsMembers(created: seq<nat>, start: nat, destroyed: seq<nat>, sp: nat)
    ensures sp in TeardownTargets(created, start, destroyed) <==>
      sp in destroyed && !(exists n | start <= n < |created| :: created[n] == sp)
  {
    if destroyed != [] {
      TeardownTargetsMembers(created, start, destroyed[..|destroyed| - 1], sp);
      assert destroyed == destroyed[..|destroyed| - 1] + [destroyed[|destroyed| - 1]];
    }
  }

  lemma TeardownUndoesInit(created: seq<nat>, start: nat, destroyed: seq<nat>, k: nat)
    requires forall i, j | 0 <= i < j < |created| :: created[i] != created[j]
    requires k < start <= |created| && created[k] in destroyed
    ensures created[k] in TeardownTargets(created, start, destroyed)
  {
    TeardownTargetsMembers(created, start, destroyed, created[k]);
  }

  /** is_in_subscr_list (ffa.c:910-922): whether sp is in subscr[start..end). */
  method IsInSubscrList(subscr: array<nat>, start: nat, end: nat, sp: nat) returns (found: bool)
    requires end <= subscr.Length
    ensures found <==> exists n | start <= n < end :: subscr[n] == sp
  {
    var n := start;
    while n < end
      invariant start <= n && (n <= end || n == start)
      invariant forall k | start <= k < n :: subscr[k] != sp
    {
      if subscr[n] == sp {
        return true;
      }
      n := n + 1;
    }
    return false;
  }

  /** The counting pass of init_subscribers (ffa.c:985-992). */
  method CountSubscribers(fpi: seq<PartInfo>, count: nat) returns (c: nat, d: nat)
    requires count <= |fpi|
    ensures c == |Subscribers(fpi[..count], FFA_PART_PROP_NOTIF_CREATED)|
    ensures d == |Subscribers(fpi[..count], FFA_PART_PROP_NOTIF_DESTROYED)|
  {
    c, d := 0, 0;
    var n: nat := 0;
    while n < count
      invariant n <= count
      invariant c == |Subscribers(fpi[..n], FFA_PART_PROP_NOTIF_CREATED)|
      invariant d == |Subscribers(fpi[..n], FFA_PART_PROP_NOTIF_DESTROYED)|
    {
      SubscribersStep(fpi, FFA_PART_PROP_NOTIF_CREATED, n);
      SubscribersStep(fpi, FFA_PART_PROP_NOTIF_DESTROYED, n);
      if HasProp(fpi[n].props, FFA_PART_PROP_NOTIF_CREATED) {
        c := c + 1;
      }
      if HasProp(fpi[n].props, FFA_PART_PROP_NOTIF_DESTROYED) {
        d := d + 1;
      }
      n := n + 1;
    }
  }

  /** The filling pass of init_subscribers (ffa.c:994-1010), into lists of the counted sizes. */
  method FillSubscribers(fpi: seq<PartInfo>, count: nat, c: nat, d: nat) returns (ca: array<nat>, da: array<nat>)
    requires count <= |fpi|
    requires c == |Subscribers(fpi[..count], FFA_PART_PROP_NOTIF_CREATED)|
    requires d == |Subscribers(fpi[..count], FFA_PART_PROP_NOTIF_DESTROYED)|
    ensures fresh(ca) && fresh(da)
    ensures ca[..] == Subscribers(fpi[..count], FFA_PART_PROP_NOTIF_CREATED)
    ensures da[..] == Subscribers(fpi[..count], FFA_PART_PROP_NOTIF_DESTROYED)
  {
    ca := new nat[c];
    da := new nat[d];
    var cPos: nat, dPos: nat := 0, 0;
    var n: nat := 0;
    while n < count
      invariant n <= count
      invariant cPos == |Subscribers(fpi[..n], FFA_PART_PROP_NOTIF_CREATED)| <= c
      invariant dPos == |Subscribers(fpi[..n], FFA_PART_PROP_NOTIF_DESTROYED)| <= d
      invariant ca[..cPos] == Subscribers(fpi[..n], FFA_PART_PROP_NOTIF_CREATED)
      invariant da[..dPos] == Subscribers(fpi[..n], FFA_PART_PROP_NOTIF_DESTROYED)
    {
      SubscribersStep(fpi, FFA_PART_PROP_NOTIF_CREATED, n);
      SubscribersStep(fpi, FFA_PART_PROP_NOTIF_DESTROYED, n);
      SubscribersPrefix(fpi, FFA_PART_PROP_NOTIF_CREATED, n + 1, count);
      SubscribersPrefix(fpi, FFA_PART_PROP_NOTIF_DESTROYED, n + 1, count);
      if HasProp(fpi[n].props, FFA_PART_PROP_NOTIF_CREATED) {
        ca[cPos] := fpi[n].id;
        cPos := cPos + 1;
      }
      if HasProp(fpi[n].props, FFA_PART_PROP_NOTIF_DESTROYED) {
        da[dPos] := fpi[n].id;
        dPos := dPos + 1;
      }
      n := n + 1;
    }
    assert fpi[..n] == fpi[..count];
  }

  /** The mediator's global state: the negotiated SPMC version and the subscriber lists. */
  class Mediator {
    /** ffa_version, 0 until the probe succeeds. */
    var version: nat
    var created: array<nat>
    var destroyed: array<nat>

    constructor ()
      ensures version == 0 && created.Length == 0 && destroyed.Length == 0
    {
      version := 0;
      created := new nat[0];
      destroyed := new nat[0];
    }

    /**
     * init_subscribers (ffa.c:975-1013): count the creation and destruction
     * subscribers, allocate the lists (the allocator's answer is allocOk)
     * and fill them in partition order; if an allocation fails both lists
     * are left empty.
     */
    method InitSubscribers(fpi: seq<PartInfo>, count: nat, allocOk: bool) returns (ok: bool)
      requires count <= |fpi| && count < TWO_16 - 1
      modifies this
      ensures version == old(version)
      ensures ok <==> allocOk || (Subscribers(fpi[..count], FFA_PART_PROP_NOTIF_CREATED) == [] &&
                                  Subscribers(fpi[..count], FFA_PART_PROP_NOTIF_DESTROYED) == [])
      ensures ok ==> created[..] == Subscribers(fpi[..count], FFA_PART_PROP_NOTIF_CREATED) &&
                     destroyed[..] == Subscribers(fpi[..count], FFA_PART_PROP_NOTIF_DESTROYED)
      ensures !ok ==> created.Length == 0 && destroyed.Length == 0
    {
      var c, d := CountSubscribers(fpi, count);
      if (c != 0 || d != 0) && !allocOk {
        created := new nat[0];
        destroyed := new nat[0];
        return false;
      }
      created, destroyed := FillSubscribers(fpi, count, c, d);
      return true;
    }

    /**
     * init_sps (ffa.c:1015-1040): ask the SPMC for its partitions, refuse
     * an error or a count that does not fit a 16-bit ID list, and build the
     * subscriber lists from the descriptors in src.
     */
    method InitSps(resp: SmcResp, src: seq<PartInfo>, allocOk: bool) returns (ok: bool)
      requires RetCode(resp.a0, resp.a2) == FFA_RET_OK && resp.a2 % TWO_32 < TWO_16 - 1 ==> resp.a2 % TWO_32 <= |src|
      modifies this
      ensures version == old(version)
      ensures ok <==> (RetCode(resp.a0, resp.a2) == FFA_RET_OK && resp.a2 % TWO_32 < TWO_16 - 1 &&
                       (allocOk || (Subscribers(src[..resp.a2 % TWO_32], FFA_PART_PROP_NOTIF_CREATED) == [] &&
                                    Subscribers(src[..resp.a2 % TWO_32], FFA_PART_PROP_NOTIF_DESTROYED) == [])))
      ensures ok ==> created[..] == Subscribers(src[..resp.a2 % TWO_32], FFA_PART_PROP_NOTIF_CREATED) &&
                     destroyed[..] == Subscribers(src[..resp.a2 % TWO_32], FFA_PART_PROP_NOTIF_DESTROYED)
      ensures RetCode(resp.a0, resp.a2) == FFA_RET_OK && resp.a2 % TWO_32 < TWO_16 - 1 && allocOk ==> ok
    {
      var e := RetCode(resp.a0, resp.a2);
      if e != FFA_RET_OK {
        return false;
      }
      var count := resp.a2 % TWO_32;
      if count >= TWO_16 - 1 {
        return false;
      }
      ok := InitSubscribers(src, count, allocOk);
    }

    /**
     * ffa_domain_init (ffa.c:872-908): refuse when there is no SPMC, or for
     * the last domain ID, whose VM ID would wrap; allocate the context;
     * tell every creation subscriber in turn, stopping at the first one
     * that refuses and recording how many were told.  resp(sp) answers the
     * calls made to SP sp.
     */
    method DomainInit(domid: nat, allocOk: bool, resp: nat -> nat -> SmcResp) returns (rc: int, ctx: FfaCtx?)
      requires domid < TWO_16
      ensures version == 0 ==> rc == -Errno.ENODEV && ctx == null
      ensures version != 0 && domid >= TWO_16 - 1 ==> rc == -Errno.ERANGE && ctx == null
      ensures version != 0 && domid < TWO_16 - 1 && !allocOk ==> rc == -Errno.ENOMEM && ctx == null
      ensures version != 0 && domid < TWO_16 - 1 && allocOk ==>
        && ctx != null && fresh(ctx) && ctx.Valid() && ctx.rx.None? && ctx.guestVers == 0
        && ctx.createSignalCount <= created.Length
        && (forall n | 0 <= n < ctx.createSignalCount :: DirectReq(FFA_MSG_SEND_VM_CREATED, resp(created[n])).0 == FFA_RET_OK)
        && (ctx.createSignalCount < created.Length ==>
              DirectReq(FFA_MSG_SEND_VM_CREATED, resp(created[ctx.createSignalCount])).0 != FFA_RET_OK)
        && (rc == 0 <==> ctx.createSignalCount == created.Length)
        && (rc != 0 ==> rc == -Errno.EIO)
    {
      if version == 0 {
        return -Errno.ENODEV, null;
      }
      if domid >= TWO_16 - 1 {
        return -Errno.ERANGE, null;
      }
      if !allocOk {
        return -Errno.ENOMEM, null;
      }
      ctx := new FfaCtx();
      var n: nat := 0;
      while n < created.Length
        invariant n <= created.Length && fresh(ctx) && ctx.Valid() && ctx.rx.None? && ctx.guestVers == 0
        invariant forall k | 0 <= k < n :: DirectReq(FFA_MSG_SEND_VM_CREATED, resp(created[k])).0 == FFA_RET_OK
      {
        var res, _ := DirectReqSendVm(FFA_MSG_SEND_VM_CREATED, resp(created[n]));
        if res != FFA_RET_OK {
          ctx.createSignalCount := n;
          return -Errno.EIO, ctx;
        }
        n := n + 1;
      }
      ctx.createSignalCount := created.Length;
      return 0, ctx;
    }

    /**
     * ffa_domain_teardown (ffa.c:925-960): tell each destruction subscriber,
     * except those creation subscribers that were never told of the
     * creation, then unmap the guest's buffers.  The answers are only
     * logged; notified lists the SPs sent VM_DESTROYED, in order.
     */
    method DomainTeardown(ctx: FfaCtx?, resp: nat -> nat -> SmcResp) returns (notified: seq<nat>)
      requires ctx != null ==> ctx.Valid() && ctx.createSignalCount <= created.Length
      modifies if ctx != null then {ctx} else {}
      ensures ctx == null ==> notified == []
      ensures ctx != null ==> notified == TeardownTargets(created[..], old(ctx.createSignalCount), destroyed[..])
      ensures ctx != null ==> ctx.Valid() && ctx.rx.None? && ctx.tx.None? && ctx.pageCount == 0 && !ctx.rxIsFree
    {
      notified := [];
      if ctx == null {
        return;
      }
      var n: nat := 0;
      while n < destroyed.Length
        invariant n <= destroyed.Length && ctx.Valid()
        invariant ctx.createSignalCount == old(ctx.createSignalCount)
        invariant notified == TeardownTargets(created[..], ctx.createSignalCount, destroyed[..n])
      {
        assert destroyed[..n + 1][..n] == destroyed[..n];
        var skip := IsInSubscrList(created, ctx.createSignalCount, created.Length, destroyed[n]);
        if !skip {
          var res, _ := DirectReqSendVm(FFA_MSG_SEND_VM_DESTROYED, resp(destroyed[n]));
          notified := notified + [destroyed[n]];
        }
        n := n + 1;
      }
      assert destroyed[..destroyed.Length] == destroyed[..];
      if ctx.rx.Some? {
        ctx.RxtxUnmap();
      }
    }
  }
}
