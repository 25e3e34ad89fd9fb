/**
 * The MSI half of VT-d interrupt remapping
 * (xen/drivers/passthrough/vtd/intremap.c): the source id an entry checks
 * requests against, and the rewriting of an MSI message into a remappable
 * one whose handle and subhandle select an entry of the table.
 */
module IntRemapMsi {
  import opened Opt
  import Errno
  import opened IntRemap

  // ---------------------------------------------------------------------
  // Source ids.

  /** The device types of xen/pci.h, and any other value the field may hold. */
  datatype DevType =
    | PciHostBridge | PcieEndpoint | PcieBridge | Pcie2PciBridge
    | Pci2PcieBridge | LegacyPciBridge | Pci
    | UnknownType(code: int)

  datatype PciDev = PciDev(seg: nat, bus: nat, devfn: nat, devType: DevType, phantomStride: nat)

  /** What find_upstream_bridge returns, and the bus and devfn it leaves behind. */
  datatype Upstream = Upstream(ret: int, bus: nat, devfn: nat)

  datatype SourceId = SourceId(svt: nat, sq: nat, sid: nat)

  datatype SidResult = SidOk(id: SourceId) | SidErr(err: int)

  /** PCI_BDF of an 8-bit bus and an 8-bit devfn. */
  function PciBdf(bus: nat, devfn: nat): nat
  {
    (bus % 0x100) * 0x100 + devfn % 0x100
  }

  predicate IsPcie(t: DevType)
  {
    t.PcieEndpoint? || t.PcieBridge? || t.Pcie2PciBridge? || t.PciHostBridge?
  }

  predicate IsConventional(t: DevType)
  {
    t.Pci? || t.LegacyPciBridge? || t.Pci2PcieBridge?
  }

  /** The qualifier for a device with phantom functions `stride` apart. */
  function PhantomSq(stride: nat): nat
  {
    if stride == 1 then SQ_13_IGNORE_3
    else if stride == 2 then SQ_13_IGNORE_2
    else if stride == 4 then SQ_13_IGNORE_1
    else SQ_ALL_16
  }

  /**
   * The bits of a 16-bit requester id the hardware compares under a
   * qualifier, the others cleared (section 9.10 of the Intel VT-d
   * specification): bits 15:3 always; bits 1:0 under SQ 1, bit 0 under
   * SQ 2, none of 2:0 under SQ 3.
   */
  function SqMasked(sq: nat, rid: nat): nat
  {
    if sq == 1 then rid - ((rid / 4) % 2) * 4
    else if sq == 2 then rid - ((rid / 2) % 4) * 2
    else if sq == 3 then rid - rid % 8
    else rid
  }

  predicate SqAccepts(sq: nat, sid: nat, rid: nat)
  {
    SqMasked(sq, sid) == SqMasked(sq, rid)
  }

  /** What each qualifier keeps of the function bits of a requester id. */
  function KeptFunctionBits(sq: nat, f: nat): nat
  {
    if sq == 1 then f % 4 else if sq == 2 then f % 2 else if sq == 3 then 0 else f
  }

  lemma SqMaskedSplit(sq: nat, hi: nat, f: nat)
    requires f < 8
    ensures SqMasked(sq, hi * 8 + f) == hi * 8 + KeptFunctionBits(sq, f)
  {
    var rid := hi * 8 + f;
    assert rid % 8 == f && rid / 8 == hi;
    assert (rid / 4) % 2 == (f / 4) % 2 by {
      assert rid / 4 == hi * 2 + f / 4;
    }
    assert (rid / 2) % 4 == (f / 2) % 4 by {
      assert rid / 2 == hi * 4 + f / 2;
    }
  }

  /**
   * set_msi_source_id: PCIe devices are checked by their own id with the
   * qualifier their phantom stride calls for; conventional PCI devices by
   * the upstream bridge found for them (by bus range behind a PCIe-to-PCI
   * bridge), or not at all (-ENXIO) when there is none; any other type is
   * refused with -EOPNOTSUPP. `bridgeType` is pdev_type of the bridge.
   */
  function SetMsiSourceId(dev: PciDev, up: Upstream, bridgeType: DevType): (r: SidResult)
    ensures r.SidErr? <==> dev.devType.UnknownType? || (IsConventional(dev.devType) && up.ret != 0 && up.ret != 1)
    ensures dev.devType.UnknownType? ==> r == SidErr(-Errno.EOPNOTSUPP)
    ensures IsConventional(dev.devType) && r.SidErr? ==> r.err == -Errno.ENXIO
    ensures r.SidOk? ==> r.id.svt == SVT_VERIFY_SID_SQ || r.id.svt == SVT_VERIFY_BUS
    ensures r.SidOk? && !IsPcie(dev.devType) ==> r.id.sq == SQ_ALL_16
  {
    if IsPcie(dev.devType) then
      SidOk(SourceId(SVT_VERIFY_SID_SQ, PhantomSq(dev.phantomStride), PciBdf(dev.bus, dev.devfn)))
    else if IsConventional(dev.devType) then
      if up.ret == 0 then
        SidOk(SourceId(SVT_VERIFY_SID_SQ, SQ_ALL_16, PciBdf(up.bus, up.devfn)))
      else if up.ret == 1 then
        if bridgeType == Pcie2PciBridge then
          SidOk(SourceId(SVT_VERIFY_BUS, SQ_ALL_16, (up.bus % 0x100) * 0x100 + dev.bus % 0x100))
        else
          SidOk(SourceId(SVT_VERIFY_SID_SQ, SQ_ALL_16, PciBdf(up.bus, up.devfn)))
      else SidErr(-Errno.ENXIO)
    else SidErr(-Errno.EOPNOTSUPP)
  }

  /** A requester id is its slot (bus and device) times eight plus its function number. */
  lemma PciBdfSplit(bus: nat, devfn: nat)
    requires bus < 0x100 && devfn < 0x100
    ensures PciBdf(bus, devfn) == (bus * 0x20 + devfn / 8) * 8 + devfn % 8
  {
    assert devfn == (devfn / 8) * 8 + devfn % 8;
  }

  /**
   * The qualifier for a phantom stride compares exactly the function bits
   * that tell functions apart modulo the stride: two functions agree on the
   * compared bits if and only if they lie a multiple of the stride apart.
   */
  lemma PhantomKeptBits(s: nat, f: nat, g: nat)
    requires s == 1 || s == 2 || s == 4
    requires f < 8 && g < 8
    ensures KeptFunctionBits(PhantomSq(s), f) == KeptFunctionBits(PhantomSq(s), g) <==> (g - f) % s == 0
  {
  }

  /**
   * The source id given to a PCIe device accepts requests from the device
   * itself and from each of its phantom functions: the functions g of the
   * same slot that lie a multiple of the stride above its own.
   */
  lemma PcieSourceIdAcceptsPhantoms(dev: PciDev, up: Upstream, bridgeType: DevType, g: nat)
    requires IsPcie(dev.devType) && dev.bus < 0x100 && dev.devfn < 0x100
    requires dev.phantomStride == 1 || dev.phantomStride == 2 || dev.phantomStride == 4
    requires dev.devfn % 8 <= g < 8 && (g - dev.devfn % 8) % dev.phantomStride == 0
    ensures var id := SetMsiSourceId(dev, up, bridgeType).id;
      && id.svt == SVT_VERIFY_SID_SQ
      && SqAccepts(id.sq, id.sid, PciBdf(dev.bus, (dev.devfn / 8) * 8 + g))
  {
    var s := dev.phantomStride;
    var sq := PhantomSq(s);
    var f := dev.devfn % 8;
    var phantom := (dev.devfn / 8) * 8 + g;
    var hi := dev.bus * 0x20 + dev.devfn / 8;
    PhantomKeptBits(s, f, g);
    assert phantom / 8 == dev.devfn / 8 && phantom % 8 == g;
    PciBdfSplit(dev.bus, dev.devfn);
    PciBdfSplit(dev.bus, phantom);
    SqMaskedSplit(sq, hi, f);
    SqMaskedSplit(sq, hi, g);
  }

  /** Every qualifier compares the slot: the masked id has the same bits 15:3. */
  lemma SqKeepsSlot(sq: nat, rid: nat)
    ensures SqMasked(sq, rid) / 8 == rid / 8
  {
    SqMaskedSplit(sq, rid / 8, rid % 8);
    assert rid == (rid / 8) * 8 + rid % 8;
  }

  /** Whatever its qualifier, the source id given to a PCIe device refuses requests from every other slot. */
  lemma PcieSourceIdRejectsOtherSlots(dev: PciDev, up: Upstream, bridgeType: DevType, bus: nat, devfn: nat)
    requires IsPcie(dev.devType) && dev.bus < 0x100 && dev.devfn < 0x100
    requires bus < 0x100 && devfn < 0x100
    requires bus != dev.bus || devfn / 8 != dev.devfn / 8
    ensures var id := SetMsiSourceId(dev, up, bridgeType).id;
      !SqAccepts(id.sq, id.sid, PciBdf(bus, devfn))
  {
    var id := SetMsiSourceId(dev, up, bridgeType).id;
    var rid := PciBdf(bus, devfn);
    PciBdfSplit(dev.bus, dev.devfn);
    PciBdfSplit(bus, devfn);
    assert id.sid / 8 == dev.bus * 0x20 + dev.devfn / 8;
    assert rid / 8 == bus * 0x20 + devfn / 8;
    SqKeepsSlot(id.sq, id.sid);
    SqKeepsSlot(id.sq, rid);
  }

  /** Two functions of one slot that differ in a compared bit are told apart. */
  lemma SqSeparates(sq: nat, hi: nat, f: nat, g: nat)
    requires f < 8 && g < 8 && KeptFunctionBits(sq, f) != KeptFunctionBits(sq, g)
    ensures SqMasked(sq, hi * 8 + f) != SqMasked(sq, hi * 8 + g)
  {
    SqMaskedSplit(sq, hi, f);
    SqMaskedSplit(sq, hi, g);
  }

  /**
   * The source id given to a PCIe device refuses the functions of its own
   * slot that are not a multiple of the phantom stride away from its own.
   */
  lemma PcieSourceIdRejectsNonPhantoms(dev: PciDev, up: Upstream, bridgeType: DevType, rid: nat)
    requires IsPcie(dev.devType)
    requires dev.phantomStride == 1 || dev.phantomStride == 2 || dev.phantomStride == 4
    requires rid / 8 == PciBdf(dev.bus, dev.devfn) / 8
    requires (rid % 8 - PciBdf(dev.bus, dev.devfn) % 8) % dev.phantomStride != 0
    ensures var id := SetMsiSourceId(dev, up, bridgeType).id;
      !SqAccepts(id.sq, id.sid, rid)
  {
    var sq := PhantomSq(dev.phantomStride);
    var id := SetMsiSourceId(dev, up, bridgeType).id;
    assert id.sq == sq && id.sid == PciBdf(dev.bus, dev.devfn);
    var hi, f, g := rid / 8, id.sid % 8, rid % 8;
    PhantomKeptBits(dev.phantomStride, f, g);
    assert rid == hi * 8 + g && id.sid == hi * 8 + f;
    SqSeparates(sq, hi, f, g);
  }

  /** set_hpet_source_id: an HPET block is checked by its id with SQ_13_IGNORE_3. */
  function HpetSourceId(hpetBdf: nat): SourceId
  {
    SourceId(SVT_VERIFY_SID_SQ, SQ_13_IGNORE_3, hpetBdf)
  }

  // ---------------------------------------------------------------------
  // MSI messages.

  /** An MSI message: address (low and high 32 bits), data, and the x2APIC destination. */
  datatype MsiMsg = MsiMsg(addressLo: nat, addressHi: nat, data: nat, dest32: nat)

  /** The remappable form: handle bit 15, handle bits 0..14, SHV, format, and the subhandle in data. */
  datatype MsiRemapMsg = MsiRemapMsg(
    dontcare: nat, index15: nat, index0to14: nat, shv: nat, format: nat, addressHi: nat, data: nat)

  /**
   * The fields of an msi_desc the remapping code reads and writes. Only the
   * first descriptor of a multi-vector MSI has nvec set; the others have 0.
   * piDesc is the machine address of the posted-interrupt descriptor, if any.
   */
  datatype MsiDesc = MsiDesc(
    isMsi: bool, nvec: nat, entryNr: nat, remapIndex: int, irteInitialized: bool,
    gvec: nat, piDesc: Option<nat>)

  /** How many vectors a descriptor stands for: nvec for MSI, one for MSI-X. */
  function Nr(d: MsiDesc): nat
  {
    if d.isMsi then d.nvec else 1
  }

  /** The standard MSI layout: vector, delivery mode, trigger, destination mode and destination id. */
  function MsiVector(m: MsiMsg): nat { m.data % 0x100 }
  function MsiDeliveryMode(m: MsiMsg): nat { (m.data / 0x100) % 8 }
  function MsiTrigger(m: MsiMsg): nat { (m.data / 0x8000) % 2 }
  function MsiDestMode(m: MsiMsg): nat { (m.addressLo / 4) % 2 }
  function MsiDestId(m: MsiMsg): nat { (m.addressLo / 0x1000) % 0x100 }

  /** A compatibility-format message as the MSI code composes it. */
  function ComposeMsi(vector: nat, dlm: nat, tm: nat, dm: nat, destId: nat, dest32: nat): MsiMsg
  {
    MsiMsg(0xFEE0_0000 + destId * 0x1000 + dm * 4, 0, vector + dlm * 0x100 + tm * 0x8000, dest32)
  }

  /**
   * The entry msi_msg_to_remap_entry builds: with no posted-interrupt
   * descriptor, the message's fields as the IRTE's bit-fields truncate
   * them; with one, the guest vector and the descriptor's address.
   */
  function IrteFromMsi(id: SourceId, m: MsiMsg, d: MsiDesc, x2apic: bool): (e: Irte)
    ensures e.p && !IsFree(e)
    ensures e.svt == id.svt && e.sq == id.sq && e.sid == id.sid
    ensures d.piDesc.None? ==> !e.im && (e.rh <==> e.dlm == DEST_LOWEST_PRIO)
    ensures d.piDesc.Some? ==> e.im && e.vector == d.gvec % 0x100
  {
    var base := FREE_IRTE.(svt := id.svt, sq := id.sq, sid := id.sid);
    match d.piDesc
    case None =>
      var dlm := (m.data / 0x100) % 8;
      base.(dm := (m.addressLo / 4) % 2, tm := (m.data / 0x8000) % 2, dlm := dlm,
            rh := dlm == DEST_LOWEST_PRIO, vector := m.data % 0x100,
            dst := if x2apic then m.dest32 % TWO_32 else ((m.addressLo / 0x1000) % 0x100) * 0x100,
            p := true)
    case Some(maddr) =>
      base.(im := true, vector := d.gvec % 0x100,
            pdaL := (maddr / 0x40) % 0x400_0000, pdaH := (maddr / TWO_32) % TWO_32, p := true)
  }

  /**
   * A message composed from vector, delivery mode, trigger, destination
   * mode and destination reaches the entry with those same fields.
   */
  lemma MsiFieldsReachEntry(id: SourceId, vector: nat, dlm: nat, tm: nat, dm: nat, destId: nat, dest32: nat, d: MsiDesc, x2apic: bool)
    requires vector < 0x100 && dlm < 8 && tm < 2 && dm < 2 && destId < 0x100 && dest32 < TWO_32
    requires d.piDesc.None?
    ensures var e := IrteFromMsi(id, ComposeMsi(vector, dlm, tm, dm, destId, dest32), d, x2apic);
      && e.vector == vector && e.dlm == dlm && e.tm == tm && e.dm == dm
      && (e.rh <==> dlm == DEST_LOWEST_PRIO)
      && e.dst == if x2apic then dest32 else destId * 0x100
  {
    var m := ComposeMsi(vector, dlm, tm, dm, destId, dest32);
    assert m.data == vector + dlm * 0x100 + tm * 0x8000;
    assert m.data % 0x100 == vector;
    assert m.data / 0x100 == dlm + tm * 0x80;
    assert (m.data / 0x100) % 8 == dlm;
    assert m.data / 0x8000 == tm;
    assert m.addressLo == (0xFEE00 + destId) * 0x1000 + dm * 4;
    assert m.addressLo / 4 == (0xFEE00 + destId) * 0x400 + dm;
    assert m.addressLo / 0x1000 == 0xFEE00 + destId;
  }

  /** A 64-byte-aligned descriptor address below 2^64 survives the split into pdaL and pdaH. */
  lemma PostedDescriptorRoundTrip(id: SourceId, m: MsiMsg, d: MsiDesc, x2apic: bool)
    requires d.piDesc.Some? && d.piDesc.value % 0x40 == 0 && d.piDesc.value < TWO_32 * TWO_32
    ensures var e := IrteFromMsi(id, m, d, x2apic);
      e.pdaH * TWO_32 + e.pdaL * 0x40 == d.piDesc.value
  {
    var a := d.piDesc.value;
    var lo := a % TWO_32;
    assert a == (a / TWO_32) * TWO_32 + lo;
    assert a / 0x40 == (a / TWO_32) * 0x400_0000 + lo / 0x40;
    assert (a / 0x40) % 0x400_0000 == lo / 0x40;
    assert lo == (lo / 0x40) * 0x40;
  }

  /**
   * The remappable message for entry `index`: the first descriptor (nr > 0)
   * carries the handle and subhandle 0; a later vector of a multi-vector
   * MSI (nr == 0) carries the handle of vector 0 and its own number as
   * the subhandle. Arithmetic is on 32-bit unsigned values.
   */
  function MsiRemapFor(index: nat, nr: nat, entryNr: nat): (r: MsiRemapMsg)
    ensures r.shv == 1 && r.format == 1 && r.addressHi == 0
    ensures nr > 0 && index < IREMAP_ENTRY_NR ==> r.data == 0 && RemapIndex(r.index15, r.index0to14) == index
    ensures nr == 0 && entryNr <= index < IREMAP_ENTRY_NR ==>
      && r.data == entryNr
      && RemapIndex(r.index15, r.index0to14) + r.data == index
  {
    var i := if nr == 0 then (index + TWO_32 - entryNr % TWO_32) % TWO_32 else index;
    MsiRemapMsg(0, (i / 0x8000) % 2, i % 0x8000, 1, 1, 0, (index + TWO_32 - i) % TWO_32)
  }

  // ---------------------------------------------------------------------
  // msi_msg_to_remap_entry.

  /** The first n descriptors given remap_index first, first+1, ..; the others as they were. */
  function WithRemapIndices(s: seq<MsiDesc>, first: int, n: nat): (r: seq<MsiDesc>)
    ensures |r| == |s|
  {
    seq(|s|, k requires 0 <= k < |s| => if k < n then s[k].(remapIndex := first + k) else s[k])
  }

  /** The first n descriptors with their entries marked unset. */
  function WithIrteUnset(s: seq<MsiDesc>, n: nat): (r: seq<MsiDesc>)
    ensures |r| == |s|
  {
    seq(|s|, k requires 0 <= k < |s| => if k < n then s[k].(irteInitialized := false) else s[k])
  }

  /** The loop that records the allocated run in the descriptors, and the one that forgets it (first == -1, all the same index). */
  method SetRemapIndices(desc: array<MsiDesc>, first: int, step: bool, n: nat)
    requires n <= desc.Length
    modifies desc
    ensures step ==> desc[..] == WithRemapIndices(old(desc[..]), first, n)
    ensures !step ==> forall k | 0 <= k < desc.Length ::
      desc[k] == if k < n then old(desc[k]).(remapIndex := first) else old(desc[k])
  {
    for i := 0 to n
      invariant step ==> desc[..] == WithRemapIndices(old(desc[..]), first, i)
      invariant !step ==> forall k | 0 <= k < desc.Length ::
        desc[k] == if k < i then old(desc[k]).(remapIndex := first) else old(desc[k])
    {
      desc[i] := desc[i].(remapIndex := if step then first + i else first);
    }
  }

  /** The NULL-message path: free the n entries from `first` and mark the descriptors' entries unset. */
  method FreeMsiEntries(iommu: IommuIntRemap, desc: array<MsiDesc>, first: int, n: nat)
    requires iommu.Valid() && n <= desc.Length
    modifies iommu, iommu.entries, desc
    ensures iommu.Valid() && iommu.entries == old(iommu.entries)
    ensures (iommu.entries[..], iommu.num) == FreeMany(old(iommu.entries[..]), old(iommu.num), first, n)
    ensures desc[..] == WithIrteUnset(old(desc[..]), n)
  {
    for i := 0 to n
      invariant iommu.Valid() && iommu.entries == old(iommu.entries)
      invariant (iommu.entries[..], iommu.num) == FreeMany(old(iommu.entries[..]), old(iommu.num), first, i)
      invariant desc[..] == WithIrteUnset(old(desc[..]), i)
    {
      iommu.FreeRemapEntry(first + i);
      desc[i] := desc[i].(irteInitialized := false);
    }
  }

  /**
   * msi_msg_to_remap_entry, for the source id `src` computed from the
   * device (or the HPET block), the descriptors `desc` (the first one and
   * those of the other vectors of a multi-vector MSI) and the message
   * `msg` (None for NULL). It returns the error, 0, or 1 when it allocated,
   * with the remappable message that replaces `msg`. The run is allocated
   * by its first index (AllocRemapRun), as the descriptors need.
   */
  method MsiMsgToRemapEntry(iommu: IommuIntRemap, src: SidResult, desc: array<MsiDesc>, msg: Option<MsiMsg>, x2apic: bool)
    returns (rc: int, out: Option<MsiRemapMsg>)
    requires iommu.Valid() && 1 <= desc.Length && Nr(desc[0]) <= desc.Length
    modifies iommu, iommu.entries, desc
    ensures iommu.Valid() && iommu.entries == old(iommu.entries)
    ensures src.SidErr? ==>
      && rc == src.err && out == None
      && iommu.entries[..] == old(iommu.entries[..]) && iommu.num == old(iommu.num)
      && desc[..] == old(desc[..])
    ensures src.SidOk? && msg.None? ==>
      && rc == 0 && out == None
      && (iommu.entries[..], iommu.num) == FreeMany(old(iommu.entries[..]), old(iommu.num), old(desc[0].remapIndex), Nr(old(desc[0])))
      && desc[..] == WithIrteUnset(old(desc[..]), Nr(old(desc[0])))
    ensures src.SidOk? && msg.Some? ==>
      var d0 := old(desc[0]);
      var nr := Nr(d0);
      var alloc := d0.remapIndex < 0;
      var index: int := if alloc then AllocStart(old(iommu.entries[..]), nr) else d0.remapIndex;
      && (index > IREMAP_ENTRY_NR - 1 ==>
            && rc == -Errno.EFAULT && out == None
            && iommu.entries[..] == old(iommu.entries[..]) && iommu.num == old(iommu.num)
            && forall k | 0 <= k < desc.Length ::
                 desc[k] == if k < nr then old(desc[k]).(remapIndex := -1) else old(desc[k]))
      && (index <= IREMAP_ENTRY_NR - 1 ==>
            && rc == (if alloc then 1 else 0)
            && out == Some(MsiRemapFor(index, nr, d0.entryNr))
            && iommu.entries[..] == old(iommu.entries[..])[index := IrteFromMsi(src.id, msg.value, d0, x2apic)]
            && iommu.num == (if alloc then (old(iommu.num) + nr) % TWO_32 else old(iommu.num))
            && (alloc ==> FreeRun(old(iommu.entries[..]), index, nr))
            && desc[..] == WithRemapIndices(old(desc[..]), index, if alloc then nr else 0)[0 := d0.(remapIndex := index, irteInitialized := true)])
  {
    if src.SidErr? {
      return src.err, None;
    }
    var d0 := desc[0];
    var nr := Nr(d0);
    if msg.None? {
      FreeMsiEntries(iommu, desc, d0.remapIndex, nr);
      return 0, None;
    }
    ghost var before := desc[..];
    var index: int;
    var alloc := false;
    if d0.remapIndex < 0 {
      var first := iommu.AllocRemapRun(nr);
      SetRemapIndices(desc, first, true, nr);
      index := first;
      alloc := true;
    } else {
      index := d0.remapIndex;
      assert desc[..] == WithRemapIndices(before, index, 0);
    }
    if index > IREMAP_ENTRY_NR - 1 {
      SetRemapIndices(desc, -1, false, nr);
      return -Errno.EFAULT, None;
    }
    iommu.entries[index] := IrteFromMsi(src.id, msg.value, d0, x2apic);
    desc[0] := desc[0].(irteInitialized := true);
    return (if alloc then 1 else 0), Some(MsiRemapFor(index, nr, d0.entryNr));
  }
}
