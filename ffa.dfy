/**
 * The FF-A mediator's per-domain state and calls (xen/arch/arm/tee/ffa.c),
 * following the Arm Firmware Framework for Arm A-profile (DEN0077), versions
 * 1.0 and 1.1.  Calls into the secure world (SMCs), page lookups and global
 * mappings are oracles passed in as parameters.  Register values are
 * unbounded naturals; where the source narrows a 64-bit register to a 32-bit
 * or 16-bit variable the narrowing is written out.
 */
module Ffa {
  import opened Opt

  // FF-A return codes (FF-A error codes, carried in w2 of FFA_ERROR)
  const FFA_RET_OK: int := 0
  const FFA_RET_NOT_SUPPORTED: int := -1
  const FFA_RET_INVALID_PARAMETERS: int := -2
  const FFA_RET_NO_MEMORY: int := -3
  const FFA_RET_BUSY: int := -4
  const FFA_RET_INTERRUPTED: int := -5
  const FFA_RET_DENIED: int := -6
  const FFA_RET_RETRY: int := -7
  const FFA_RET_ABORTED: int := -8

  // Function IDs
  const FFA_ERROR: nat := 0x8400_0060
  const FFA_SUCCESS_32: nat := 0x8400_0061
  const FFA_SUCCESS_64: nat := 0xC400_0061
  const FFA_MSG_SEND_DIRECT_RESP_32: nat := 0x8400_0070

  // Framework messages of FFA_MSG_SEND_DIRECT_REQ
  const FFA_MSG_FLAG_FRAMEWORK: nat := 0x8000_0000
  const FFA_MSG_SEND_VM_CREATED: nat := 0x4
  const FFA_MSG_RESP_VM_CREATED: nat := 0x5
  const FFA_MSG_SEND_VM_DESTROYED: nat := 0x6
  const FFA_MSG_RESP_VM_DESTROYED: nat := 0x7

  const FFA_PAGE_SIZE: nat := 4096
  /** The most pages a guest may map for each of its RX and TX buffers. */
  const FFA_MAX_RXTX_PAGE_COUNT: nat := 1
  const FFA_PARTITION_INFO_GET_COUNT_FLAG: nat := 1
  /** sizeof(struct ffa_partition_info_1_0) and sizeof(struct ffa_partition_info_1_1). */
  const PART_INFO_1_0_SIZE: nat := 8
  const PART_INFO_1_1_SIZE: nat := 24

  const TWO_16: nat := 0x1_0000
  const TWO_31: int := 0x8000_0000
  const TWO_32: nat := 0x1_0000_0000
  const TWO_64: nat := 0x1_0000_0000_0000_0000

  /** A 64-bit register narrowed to int32_t. */
  function ToInt32(x: nat): (r: int)
    ensures -TWO_31 <= r < TWO_31 && r % TWO_32 == x % TWO_32
  {
    var l := x % TWO_32;
    if l >= TWO_31 then l - TWO_32 else l
  }

  // ---------------------------------------------------------------------
  // Versions
  // ---------------------------------------------------------------------

  /**
   * MAKE_FFA_VERSION (ffa.c:46-52): the 15-bit major at bit 16 and the
   * 16-bit minor at bit 0.  The two fields do not overlap, so their OR is
   * their sum.
   */
  function MakeVersion(major: nat, minor: nat): (v: nat)
    ensures v < TWO_31
  {
    (major % 0x8000) * TWO_16 + minor % TWO_16
  }

  /** The major field, as ffa_probe extracts it (ffa.c:1081). */
  function VersionMajor(v: nat): nat { (v / TWO_16) % 0x8000 }

  /** The minor field, as ffa_probe extracts it (ffa.c:1082). */
  function VersionMinor(v: nat): nat { v % TWO_16 }

  const FFA_VERSION_1_0: nat := MakeVersion(1, 0)
  const FFA_VERSION_1_1: nat := MakeVersion(1, 1)
  const FFA_MIN_SPMC_VERSION: nat := FFA_VERSION_1_1
  const FFA_MY_VERSION: nat := MakeVersion(1, 1)

  /** Packing a major and minor in range and extracting them gives them back. */
  lemma VersionRoundTrip(major: nat, minor: nat)
    requires major < 0x8000 && minor < TWO_16
    ensures VersionMajor(MakeVersion(major, minor)) == major
    ensures VersionMinor(MakeVersion(major, minor)) == minor
  {
    var v := MakeVersion(major, minor);
    assert v == major * TWO_16 + minor;
    assert v / TWO_16 == major;
  }

  /** Packed versions compare as (major, minor) pairs. */
  lemma VersionOrder(a: nat, b: nat, c: nat, d: nat)
    requires a < 0x8000 && b < TWO_16 && c < 0x8000 && d < TWO_16
    ensures MakeVersion(a, b) < MakeVersion(c, d) <==> a < c || (a == c && b < d)
  {
    assert MakeVersion(a, b) == a * TWO_16 + b && MakeVersion(c, d) == c * TWO_16 + d;
    if a < c {
      assert a * TWO_16 + TWO_16 <= c * TWO_16;
    } else if a > c {
      assert c * TWO_16 + TWO_16 <= a * TWO_16;
    }
  }

  /**
   * The version step of ffa_probe (ffa.c:355-373, 1072-1079): the SPMC's
   * answer to FFA_VERSION in a0, -1 meaning not supported, narrowed to 32
   * bits and accepted when it lies between FFA_MIN_SPMC_VERSION and
   * FFA_MY_VERSION.  Both are 1.1, so only 1.1 is accepted.
   */
  function ProbeVersion(a0: nat): (r: Option<nat>)
    ensures r.Some? <==> a0 != TWO_64 - 1 && a0 % TWO_32 == FFA_VERSION_1_1
    ensures r.Some? ==> VersionMajor(r.value) == 1 && VersionMinor(r.value) == 1
  {
    if a0 == TWO_64 - 1 then None
    else
      var vers := a0 % TWO_32;
      if vers < FFA_MIN_SPMC_VERSION || vers > FFA_MY_VERSION then None else Some(vers)
  }

  /** The version a guest is given: 1.0 if it asks for less than 1.1, else 1.1. */
  function NegotiateVersion(requested: nat): (v: nat)
    ensures v == FFA_VERSION_1_0 || v == FFA_VERSION_1_1
  {
    if requested < FFA_VERSION_1_1 then FFA_VERSION_1_0 else FFA_VERSION_1_1
  }

  /**
   * The negotiated version is the newest one the mediator supports that
   * does not exceed the request; a request below 1.0 still gets 1.0.
   */
  lemma NegotiateNewestSupported(requested: nat)
    ensures requested >= FFA_VERSION_1_0 ==> NegotiateVersion(requested) <= requested
    ensures FFA_VERSION_1_1 <= requested ==> NegotiateVersion(requested) == FFA_VERSION_1_1
    ensures FFA_VERSION_1_0 <= requested ==> FFA_VERSION_1_0 <= NegotiateVersion(requested)
  {
  }

  // ---------------------------------------------------------------------
  // Return codes
  // ---------------------------------------------------------------------

  /**
   * get_ffa_ret_code (ffa.c:375-390): the error code of FFA_ERROR (w2,
   * narrowed to int32_t), NOT_SUPPORTED if it is zero or the function ID is
   * neither an error nor a success, and OK for either success.
   */
  function RetCode(a0: nat, a2: nat): (r: int)
    ensures -TWO_31 <= r < TWO_31
    ensures r == FFA_RET_OK <==>
      a0 == FFA_SUCCESS_32 || a0 == FFA_SUCCESS_64 || (a0 == FFA_ERROR && a2 != 0 && a2 % TWO_32 == 0)
    ensures a0 != FFA_ERROR ==> r == FFA_RET_OK || r == FFA_RET_NOT_SUPPORTED
  {
    if a0 == FFA_ERROR then (if a2 != 0 then ToInt32(a2) else FFA_RET_NOT_SUPPORTED)
    else if a0 == FFA_SUCCESS_32 || a0 == FFA_SUCCESS_64 then FFA_RET_OK
    else FFA_RET_NOT_SUPPORTED
  }

  /**
   * A negative 32-bit error code in w2, whether zero- or sign-extended to
   * the 64-bit register, comes back unchanged.
   */
  lemma RetCodeOfError(e: int)
    requires -TWO_31 <= e < 0
    ensures RetCode(FFA_ERROR, (e + TWO_32) as nat) == e
    ensures RetCode(FFA_ERROR, (e + TWO_64) as nat) == e
  {
    assert (e + TWO_64) % TWO_32 == e + TWO_32 by {
      assert e + TWO_64 == (e + TWO_32) + (TWO_32 - 1) * TWO_32;
    }
  }

  // ---------------------------------------------------------------------
  // Framework messages to SPs
  // ---------------------------------------------------------------------

  /** The SPMC's answer to one SMC: a0, a2 and a3. */
  datatype SmcResp = SmcResp(a0: nat, a2: nat, a3: nat)

  /** The response a framework message expects, or None for a message that is not one. */
  function ExpectedResp(msg: nat): Option<nat>
  {
    if msg == FFA_MSG_SEND_VM_CREATED then Some(FFA_MSG_FLAG_FRAMEWORK + FFA_MSG_RESP_VM_CREATED)
    else if msg == FFA_MSG_SEND_VM_DESTROYED then Some(FFA_MSG_FLAG_FRAMEWORK + FFA_MSG_RESP_VM_DESTROYED)
    else None
  }

  predicate GoodResp(r: SmcResp, exp: nat)
  {
    r.a0 == FFA_MSG_SEND_DIRECT_RESP_32 && r.a2 == exp
  }

  predicate Retryable(res: int)
  {
    res == FFA_RET_INTERRUPTED || res == FFA_RET_RETRY
  }

  /** The most SMCs one framework message makes. */
  const MAX_DIRECT_CALLS: nat := 11

  /**
   * The retry loop from call i on (ffa.c:474-507): the result and the number
   * of calls made in all; resp(i) answers call i.
   */
  function DirectReqFrom(exp: nat, resp: nat -> SmcResp, i: nat): (r: (int, nat))
    requires i < MAX_DIRECT_CALLS
    ensures i < r.1 <= MAX_DIRECT_CALLS
    decreases MAX_DIRECT_CALLS - i
  {
    if !GoodResp(resp(i), exp) then (FFA_RET_INVALID_PARAMETERS, i + 1)
    else
      var res := ToInt32(resp(i).a3);
      if i + 1 > 10 then (res, i + 1)
      else if Retryable(res) then DirectReqFrom(exp, resp, i + 1)
      else (res, i + 1)
  }

  /** ffa_direct_req_send_vm as a function of the message and the SPMC's answers. */
  function DirectReq(msg: nat, resp: nat -> SmcResp): (int, nat)
  {
    match ExpectedResp(msg)
    case None => (FFA_RET_INVALID_PARAMETERS, 0)
    case Some(exp) => DirectReqFrom(exp, resp, 0)
  }

  /**
   * What the retry loop does: every call but the last got a well-formed
   * response asking to retry; the last either got a malformed response
   * (INVALID_PARAMETERS) or gives the result, which asks to retry only
   * when the eleventh call has been made.
   */
  lemma {:induction false} DirectReqFromSpec(exp: nat, resp: nat -> SmcResp, i: nat)
    requires i < MAX_DIRECT_CALLS
    ensures var (res, calls) := DirectReqFrom(exp, resp, i);
      && (forall k | i <= k < calls - 1 :: GoodResp(resp(k), exp) && Retryable(ToInt32(resp(k).a3)))
      && (if GoodResp(resp(calls - 1), exp) then res == ToInt32(resp(calls - 1).a3) && (Retryable(res) ==> calls == MAX_DIRECT_CALLS)
          else res == FFA_RET_INVALID_PARAMETERS)
    decreases MAX_DIRECT_CALLS - i
  {
    if GoodResp(resp(i), exp) && i + 1 <= 10 && Retryable(ToInt32(resp(i).a3)) {
      DirectReqFromSpec(exp, resp, i + 1);
    }
  }

  lemma DirectReqSpec(msg: nat, resp: nat -> SmcResp)
    ensures var (res, calls) := DirectReq(msg, resp);
      && calls <= MAX_DIRECT_CALLS
      && (ExpectedResp(msg).None? ==> res == FFA_RET_INVALID_PARAMETERS && calls == 0)
      && (ExpectedResp(msg).Some? ==> var exp := ExpectedResp(msg).value;
           && 1 <= calls
           && (forall k | 0 <= k < calls - 1 :: GoodResp(resp(k), exp) && Retryable(ToInt32(resp(k).a3)))
           && (if GoodResp(resp(calls - 1), exp) then res == ToInt32(resp(calls - 1).a3) && (Retryable(res) ==> calls == MAX_DIRECT_CALLS)
               else res == FFA_RET_INVALID_PARAMETERS))
  {
    if ExpectedResp(msg).Some? {
      DirectReqFromSpec(ExpectedResp(msg).value, resp, 0);
    }
  }

  /**
   * ffa_direct_req_send_vm (ffa.c:460-510): send a VM_CREATED or
   * VM_DESTROYED framework message, retrying while the SP answers
   * INTERRUPTED or RETRY, for at most eleven calls.
   */
  method DirectReqSendVm(msg: nat, resp: nat -> SmcResp) returns (res: int, calls: nat)
    ensures (res, calls) == DirectReq(msg, resp)
  {
    var exp: nat;
    if msg == FFA_MSG_SEND_VM_CREATED {
      exp := FFA_MSG_FLAG_FRAMEWORK + FFA_MSG_RESP_VM_CREATED;
    } else if msg == FFA_MSG_SEND_VM_DESTROYED {
      exp := FFA_MSG_FLAG_FRAMEWORK + FFA_MSG_RESP_VM_DESTROYED;
    } else {
      return FFA_RET_INVALID_PARAMETERS, 0;
    }
    var retryCount: nat := 0;
    while true
      invariant retryCount < MAX_DIRECT_CALLS
      invariant DirectReq(msg, resp) == DirectReqFrom(exp, resp, retryCount)
      decreases MAX_DIRECT_CALLS - retryCount
    {
      var r := resp(retryCount);
      if r.a0 != FFA_MSG_SEND_DIRECT_RESP_32 || r.a2 != exp {
        return FFA_RET_INVALID_PARAMETERS, retryCount + 1;
      }
      res := ToInt32(r.a3);
      retryCount := retryCount + 1;
      if retryCount > 10 {
        return res, retryCount;
      }
      if res != FFA_RET_INTERRUPTED && res != FFA_RET_RETRY {
        return res, retryCount;
      }
    }
  }

  // ---------------------------------------------------------------------
  // VM IDs
  // ---------------------------------------------------------------------

  /** get_vm_id (ffa.c:512-516): the domain ID plus one, in uint16_t; 0 is the hypervisor's. */
  function VmId(domid: nat): (id: nat)
    ensures id < TWO_16
  {
    (domid + 1) % TWO_16
  }

  /**
   * Below the last domain ID, which ffa_domain_init refuses (ffa.c:884-885),
   * VM IDs are the domain ID plus one: never the hypervisor's 0 and never
   * shared; the last one would wrap to 0.
   */
  lemma VmIdNoOverflow(a: nat, b: nat)
    requires a < TWO_16 - 1 && b < TWO_16 - 1
    ensures VmId(a) == a + 1 && VmId(a) != 0
    ensures VmId(a) == VmId(b) ==> a == b
    ensures VmId(TWO_16 - 1) == 0
  {
  }

  // ---------------------------------------------------------------------
  // Mapping a guest's RX/TX buffers
  // ---------------------------------------------------------------------

  /** What get_page_from_gfn finds at a guest frame: a page reference or none, and whether it is normal RW RAM. */
  datatype Lookup = Lookup(page: Option<nat>, ramRw: bool)

  /** The outcome of an RXTX_MAP: the pages mapped, an FF-A error, or a use of a NULL page. */
  datatype MapResult = Mapped(tx: nat, rx: nat) | Failed(code: int) | UsedNullPage

  /** smccc_is_conv_64: bit 30 of the function ID selects the 64-bit calling convention. */
  predicate Is64(fid: nat) { (fid / 0x4000_0000) % 2 == 1 }

  /** The address an RXTX_MAP argument names: calls using the 32-bit convention ignore the upper half. */
  function ArgAddr(fid: nat, addr: nat): nat
  {
    if Is64(fid) then addr else addr % TWO_32
  }

  /**
   * handle_rxtx_map (ffa.c:558-631) with the RX lookup checked as intended:
   * more than FFA_MAX_RXTX_PAGE_COUNT pages is NOT_SUPPORTED, an existing
   * mapping is DENIED, and a page that is missing, not normal RW RAM or
   * cannot be mapped is INVALID_PARAMETERS.
   */
  function RxtxMap(fid: nat, txAddr: nat, rxAddr: nat, pageCount: nat, mapped: bool,
                   lookup: nat -> Lookup, mapOk: nat -> bool): (r: MapResult)
    ensures !r.UsedNullPage?
    ensures r.Mapped? ==> pageCount <= FFA_MAX_RXTX_PAGE_COUNT && !mapped
    ensures r.Mapped? ==>
      && lookup(ArgAddr(fid, txAddr) / FFA_PAGE_SIZE) == Lookup(Some(r.tx), true)
      && lookup(ArgAddr(fid, rxAddr) / FFA_PAGE_SIZE) == Lookup(Some(r.rx), true)
      && mapOk(r.tx) && mapOk(r.rx)
    ensures r.Failed? ==> r.code == (if pageCount > FFA_MAX_RXTX_PAGE_COUNT then FFA_RET_NOT_SUPPORTED
                                     else if mapped then FFA_RET_DENIED else FFA_RET_INVALID_PARAMETERS)
  {
    var txa, rxa := ArgAddr(fid, txAddr), ArgAddr(fid, rxAddr);
    if pageCount > FFA_MAX_RXTX_PAGE_COUNT then Failed(FFA_RET_NOT_SUPPORTED)
    else if mapped then Failed(FFA_RET_DENIED)
    else
      var t := lookup(txa / FFA_PAGE_SIZE);
      if t.page.None? || !t.ramRw then Failed(FFA_RET_INVALID_PARAMETERS)
      else
        var r := lookup(rxa / FFA_PAGE_SIZE);
        if r.page.None? || !r.ramRw then Failed(FFA_RET_INVALID_PARAMETERS)
        else if !mapOk(t.page.value) || !mapOk(r.page.value) then Failed(FFA_RET_INVALID_PARAMETERS)
        else Mapped(t.page.value, r.page.value)
  }

  /**
   * handle_rxtx_map as written: after fetching rx_pg, line 600 tests tx_pg
   * again, so a failed RX lookup is not caught and every later path either
   * drops a reference on the NULL rx_pg or maps it.
   */
  function RxtxMapAsWritten(fid: nat, txAddr: nat, rxAddr: nat, pageCount: nat, mapped: bool,
                            lookup: nat -> Lookup, mapOk: nat -> bool): (r: MapResult)
    ensures r.UsedNullPage? <==>
      && pageCount <= FFA_MAX_RXTX_PAGE_COUNT && !mapped
      && lookup(ArgAddr(fid, txAddr) / FFA_PAGE_SIZE).page.Some?
      && lookup(ArgAddr(fid, txAddr) / FFA_PAGE_SIZE).ramRw
      && lookup(ArgAddr(fid, rxAddr) / FFA_PAGE_SIZE).page.None?
  {
    var txa, rxa := ArgAddr(fid, txAddr), ArgAddr(fid, rxAddr);
    if pageCount > FFA_MAX_RXTX_PAGE_COUNT then Failed(FFA_RET_NOT_SUPPORTED)
    else if mapped then Failed(FFA_RET_DENIED)
    else
      var t := lookup(txa / FFA_PAGE_SIZE);
      if t.page.None? || !t.ramRw then Failed(FFA_RET_INVALID_PARAMETERS)
      else
        var r := lookup(rxa / FFA_PAGE_SIZE);
        if t.page.None? then Failed(FFA_RET_INVALID_PARAMETERS)
        else if r.page.None? then UsedNullPage
        else if !r.ramRw then Failed(FFA_RET_INVALID_PARAMETERS)
        else if !mapOk(t.page.value) || !mapOk(r.page.value) then Failed(FFA_RET_INVALID_PARAMETERS)
        else Mapped(t.page.value, r.page.value)
  }

  /** The two agree whenever the RX lookup finds a page. */
  lemma RxtxMapAsWrittenAgrees(fid: nat, txAddr: nat, rxAddr: nat, pageCount: nat, mapped: bool,
                               lookup: nat -> Lookup, mapOk: nat -> bool)
    requires lookup(ArgAddr(fid, rxAddr) / FFA_PAGE_SIZE).page.Some?
    ensures RxtxMapAsWritten(fid, txAddr, rxAddr, pageCount, mapped, lookup, mapOk) ==
            RxtxMap(fid, txAddr, rxAddr, pageCount, mapped, lookup, mapOk)
  {
  }

  /**
   * A guest that passes a good TX page and an RX address with no page
   * behind it: as written the mediator goes on with a NULL rx_pg; the
   * intended check rejects the call with INVALID_PARAMETERS.
   */
  lemma RxtxMapNullRxPage()
    ensures var lookup := (gfn: nat) => if gfn == 1 then Lookup(Some(7), true) else Lookup(None, false);
            var mapOk := (pg: nat) => true;
      && RxtxMapAsWritten(0xC400_0066, 0x1000, 0x2000, 1, false, lookup, mapOk) == UsedNullPage
      && RxtxMap(0xC400_0066, 0x1000, 0x2000, 1, false, lookup, mapOk) == Failed(FFA_RET_INVALID_PARAMETERS)
  {
    var lookup := (gfn: nat) => if gfn == 1 then Lookup(Some(7), true) else Lookup(None, false);
    assert Is64(0xC400_0066);
    assert lookup(0x1000 / FFA_PAGE_SIZE) == Lookup(Some(7), true);
    assert lookup(0x2000 / FFA_PAGE_SIZE) == Lookup(None, false);
  }

  /** Under the 32-bit calling convention the upper halves of the addresses make no difference. */
  lemma RxtxMap32IgnoresUpper(fid: nat, txAddr: nat, rxAddr: nat, pageCount: nat, mapped: bool,
                              lookup: nat -> Lookup, mapOk: nat -> bool)
    requires !Is64(fid)
    ensures RxtxMap(fid, txAddr, rxAddr, pageCount, mapped, lookup, mapOk) ==
            RxtxMap(fid, txAddr % TWO_32, rxAddr % TWO_32, pageCount, mapped, lookup, mapOk)
  {
    assert (txAddr % TWO_32) % TWO_32 == txAddr % TWO_32;
    assert (rxAddr % TWO_32) % TWO_32 == rxAddr % TWO_32;
  }

  // ---------------------------------------------------------------------
  // The per-domain context
  // ---------------------------------------------------------------------

  /** A partition information descriptor in the SPMC's FF-A 1.1 layout. */
  datatype PartInfo = PartInfo(id: nat, execCtx: nat, props: nat, uuid: seq<nat>)

  /** A descriptor as the guest's RX buffer receives it: 1.0 layout (no UUID) or 1.1. */
  datatype GuestDesc = Desc10(id: nat, execCtx: nat, props: nat) | Desc11(info: PartInfo)
  {
    function Id(): nat
    {
      match this
      case Desc10(id, _, _) => id
      case Desc11(info) => info.id
    }
  }

  /** struct ffa_ctx. */
  class FfaCtx {
    /** The guest's mapped RX and TX pages (rx/rx_pg and tx/tx_pg), None when unmapped. */
    var rx: Option<nat>
    var tx: Option<nat>
    var pageCount: nat
    var guestVers: nat
    var createSignalCount: nat
    var rxIsFree: bool
    /** The descriptors last copied into the guest's RX buffer. */
    var rxData: seq<GuestDesc>

    /** Both buffers are mapped or neither; an unmapped context has no pages and no free buffer. */
    ghost predicate Valid()
      reads this
    {
      (rx.Some? <==> tx.Some?) && (rx.None? ==> pageCount == 0 && !rxIsFree) &&
      pageCount <= FFA_MAX_RXTX_PAGE_COUNT
    }

    /** xzalloc(struct ffa_ctx): everything zero. */
    constructor ()
      ensures Valid() && rx.None? && tx.None? && pageCount == 0 && guestVers == 0
      ensures createSignalCount == 0 && !rxIsFree && rxData == []
    {
      rx, tx, pageCount, guestVers, createSignalCount, rxIsFree, rxData := None, None, 0, 0, 0, false, [];
    }

    /** handle_version (ffa.c:543-556): record and return the negotiated version; w1 is narrowed to 32 bits. */
    method HandleVersion(w1: nat) returns (vers: nat)
      requires Valid()
      modifies this
      ensures Valid()
      ensures vers == NegotiateVersion(w1 % TWO_32) && guestVers == vers
      ensures rx == old(rx) && tx == old(tx) && pageCount == old(pageCount) && rxIsFree == old(rxIsFree)
      ensures createSignalCount == old(createSignalCount) && rxData == old(rxData)
    {
      vers := w1 % TWO_32;
      if vers < FFA_VERSION_1_1 {
        vers := FFA_VERSION_1_0;
      } else {
        vers := FFA_VERSION_1_1;
      }
      guestVers := vers;
    }

    /**
     * handle_rxtx_map (ffa.c:558-631), with the RX lookup checked: on
     * success both buffers are mapped with the requested page count and the
     * RX buffer is free for the guest; on failure nothing changes.
     */
    method HandleRxtxMap(fid: nat, txAddr: nat, rxAddr: nat, count: nat,
                         lookup: nat -> Lookup, mapOk: nat -> bool) returns (ret: int)
      requires Valid()
      modifies this
      ensures Valid()
      ensures var m := RxtxMap(fid, txAddr, rxAddr, count, old(rx).Some?, lookup, mapOk);
        && (m.Mapped? ==> ret == FFA_RET_OK && rx == Some(m.rx) && tx == Some(m.tx) && pageCount == count && rxIsFree)
        && (m.Failed? ==> ret == m.code && rx == old(rx) && tx == old(tx) && pageCount == old(pageCount) &&
                          rxIsFree == old(rxIsFree))
      ensures guestVers == old(guestVers) && createSignalCount == old(createSignalCount) && rxData == old(rxData)
    {
      var txa, rxa := txAddr, rxAddr;
      if !Is64(fid) {
        txa, rxa := txAddr % TWO_32, rxAddr % TWO_32;
      }
      if count > FFA_MAX_RXTX_PAGE_COUNT {
        return FFA_RET_NOT_SUPPORTED;
      }
      if rx.Some? {
        return FFA_RET_DENIED;
      }
      ret := FFA_RET_INVALID_PARAMETERS;
      var t := lookup(txa / FFA_PAGE_SIZE);
      if t.page.None? || !t.ramRw {
        return;
      }
      var r := lookup(rxa / FFA_PAGE_SIZE);
      if r.page.None? || !r.ramRw {
        return;
      }
      if !mapOk(t.page.value) || !mapOk(r.page.value) {
        return;
      }
      rx, tx, pageCount, rxIsFree := r.page, t.page, count, true;
      return FFA_RET_OK;
    }

    /** rxtx_unmap (ffa.c:633-645): drop both mappings and reset every buffer field. */
    method RxtxUnmap()
      modifies this
      ensures Valid() && rx.None? && tx.None? && pageCount == 0 && !rxIsFree
      ensures guestVers == old(guestVers) && createSignalCount == old(createSignalCount) && rxData == old(rxData)
    {
      rx, tx, pageCount, rxIsFree := None, None, 0, false;
    }

    /** handle_rxtx_unmap (ffa.c:647-658): INVALID_PARAMETERS when nothing is mapped, else unmap. */
    method HandleRxtxUnmap() returns (ret: int)
      requires Valid()
      modifies this
      ensures Valid()
      ensures old(rx).None? ==> ret == FFA_RET_INVALID_PARAMETERS && rx == old(rx) && tx == old(tx) &&
                                pageCount == old(pageCount) && rxIsFree == old(rxIsFree)
      ensures old(rx).Some? ==> ret == FFA_RET_OK && rx.None? && tx.None? && pageCount == 0 && !rxIsFree
      ensures guestVers == old(guestVers) && createSignalCount == old(createSignalCount) && rxData == old(rxData)
    {
      if rx.None? {
        return FFA_RET_INVALID_PARAMETERS;
      }
      RxtxUnmap();
      return FFA_RET_OK;
    }

    /**
     * handle_rx_release (ffa.c:740-755): DENIED when no pages are mapped or
     * the buffer is already the guest's; otherwise give it back.
     */
    method HandleRxRelease() returns (ret: int)
      requires Valid()
      modifies this
      ensures Valid()
      ensures ret == FFA_RET_OK <==> old(pageCount) != 0 && !old(rxIsFree)
      ensures ret != FFA_RET_OK ==> ret == FFA_RET_DENIED && rxIsFree == old(rxIsFree)
      ensures ret == FFA_RET_OK ==> rxIsFree
      ensures rx == old(rx) && tx == old(tx) && pageCount == old(pageCount)
      ensures guestVers == old(guestVers) && createSignalCount == old(createSignalCount) && rxData == old(rxData)
    {
      if pageCount == 0 || rxIsFree {
        return FFA_RET_DENIED;
      }
      rxIsFree := true;
      return FFA_RET_OK;
    }

    /**
     * handle_partition_info_get (ffa.c:660-738).  A 1.1 guest asking for
     * the count only is answered by the SPMC directly; any other nonzero w5
     * is INVALID_PARAMETERS; without the mediator's own RX buffer, or
     * without a free mapped guest buffer, DENIED.  Otherwise the SPMC's
     * answer decides: an error is passed on; descriptors that do not fit
     * the guest's pages are NO_MEMORY; else they are copied, converted to
     * the 1.0 layout for a 1.0 guest, and the buffer becomes the guest's to
     * release.  src is the mediator's RX buffer, holding the descriptors
     * the SPMC reports.
     */
    method HandlePartitionInfoGet(w5: nat, haveRx: bool, resp: SmcResp, src: seq<PartInfo>)
      returns (ret: int, count: nat)
      requires Valid()
      requires RetCode(resp.a0, resp.a2) == FFA_RET_OK ==> resp.a2 % TWO_32 <= |src|
      modifies this
      ensures Valid()
      ensures rx == old(rx) && tx == old(tx) && pageCount == old(pageCount)
      ensures guestVers == old(guestVers) && createSignalCount == old(createSignalCount)
      ensures w5 == FFA_PARTITION_INFO_GET_COUNT_FLAG && guestVers == FFA_VERSION_1_1 ==>
        && ret == RetCode(resp.a0, resp.a2) && rxIsFree == old(rxIsFree) && rxData == old(rxData)
        && (ret == FFA_RET_OK ==> count == resp.a2 % TWO_32)
      ensures !(w5 == FFA_PARTITION_INFO_GET_COUNT_FLAG && guestVers == FFA_VERSION_1_1) ==>
        && (w5 != 0 ==> ret == FFA_RET_INVALID_PARAMETERS)
        && (w5 == 0 && (!haveRx || pageCount == 0 || !old(rxIsFree)) ==> ret == FFA_RET_DENIED)
        && (ret == FFA_RET_OK <==> w5 == 0 && haveRx && pageCount != 0 && old(rxIsFree) &&
                                   RetCode(resp.a0, resp.a2) == FFA_RET_OK &&
                                   count * EntrySize(guestVers) <= pageCount * FFA_PAGE_SIZE)
        && (ret == FFA_RET_OK ==> count == resp.a2 % TWO_32 && !rxIsFree && rxData == GuestView(guestVers, src[..count]))
        && (ret != FFA_RET_OK ==> rxIsFree == old(rxIsFree) && rxData == old(rxData))
    {
      count := 0;
      if w5 == FFA_PARTITION_INFO_GET_COUNT_FLAG && guestVers == FFA_VERSION_1_1 {
        ret := RetCode(resp.a0, resp.a2);
        if ret == FFA_RET_OK {
          count := resp.a2 % TWO_32;
        }
        return;
      }
      if w5 != 0 {
        return FFA_RET_INVALID_PARAMETERS, count;
      }
      if !haveRx {
        return FFA_RET_DENIED, count;
      }
      if pageCount == 0 || !rxIsFree {
        return FFA_RET_DENIED, count;
      }
      ret := RetCode(resp.a0, resp.a2);
      if ret != FFA_RET_OK {
        return;
      }
      count := resp.a2 % TWO_32;
      if guestVers == FFA_VERSION_1_0 {
        if pageCount * FFA_PAGE_SIZE < count * PART_INFO_1_0_SIZE {
          return FFA_RET_NO_MEMORY, count;
        }
        var dst: seq<GuestDesc> := [];
        var n := 0;
        while n < count
          invariant n <= count && dst == GuestView(guestVers, src[..n])
        {
          dst := dst + [Desc10(src[n].id, src[n].execCtx, src[n].props)];
          assert src[..n + 1] == src[..n] + [src[n]];
          n := n + 1;
        }
        rxData := dst;
      } else {
        var sz := count * PART_INFO_1_1_SIZE;
        if pageCount * FFA_PAGE_SIZE < sz {
          return FFA_RET_NO_MEMORY, count;
        }
        rxData := GuestView(guestVers, src[..count]);
      }
      rxIsFree := false;
    }
  }

  /** The size of one descriptor in the layout a guest of that version reads. */
  function EntrySize(guestVers: nat): nat
  {
    if guestVers == FFA_VERSION_1_0 then PART_INFO_1_0_SIZE else PART_INFO_1_1_SIZE
  }

  /** The SPMC's descriptors as a guest of that version receives them: 1.0 guests lose the UUID. */
  function GuestView(guestVers: nat, src: seq<PartInfo>): (r: seq<GuestDesc>)
    ensures |r| == |src|
    ensures forall n | 0 <= n < |r| :: r[n].Id() == src[n].id
  {
    if src == [] then []
    else
      GuestView(guestVers, src[..|src| - 1]) +
      [if guestVers == FFA_VERSION_1_0 then Desc10(src[|src| - 1].id, src[|src| - 1].execCtx, src[|src| - 1].props)
       else Desc11(src[|src| - 1])]
  }
}
