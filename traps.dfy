/**
 * x86-64 trap set-up (xen/arch/x86/x86_64/traps.c): the SYSCALL entry
 * trampolines written into each CPU's stub page, and the control-register
 * slots vcpu_show_registers fills for a PV vCPU.
 */
module Traps {
  type Byte = b: int | 0 <= b < 256

  const TWO_32: int := 0x1_0000_0000
  const TWO_64: int := 0x1_0000_0000_0000_0000
  const PAGE_SIZE: nat := 4096

  /** endbr64, as place_endbr64 stores it. */
  const ENDBR64: seq<Byte> := [0xf3, 0x0f, 0x1e, 0xfa]

  /** v in n bytes, least significant first, as an n-byte store keeps it. */
  function Le(v: nat, n: nat): (r: seq<Byte>)
    ensures |r| == n
  {
    if n == 0 then [] else [v % 256] + Le(v / 256, n - 1)
  }

  /** The value of little-endian bytes. */
  function Unle(bs: seq<Byte>): nat
  {
    if bs == [] then 0 else bs[0] + 256 * Unle(bs[1..])
  }

  function Pow256(n: nat): (r: nat)
    ensures r >= 1
  {
    if n == 0 then 1 else 256 * Pow256(n - 1)
  }

  /** A value that fits in n bytes is read back from its n-byte store. */
  lemma {:induction false} LeRoundTrip(v: nat, n: nat)
    requires v < Pow256(n)
    ensures Unle(Le(v, n)) == v
  {
    if n > 0 {
      assert v / 256 < Pow256(n - 1);
      LeRoundTrip(v / 256, n - 1);
      assert Le(v, n)[1..] == Le(v / 256, n - 1);
    }
  }

  /** unsigned long arithmetic. */
  function Wrap64(x: int): (r: nat)
    ensures r < TWO_64
  {
    x % TWO_64
  }

  /** An int32_t read back from its 32 bits. */
  function Sext32(r: nat): int
  {
    if r < 0x8000_0000 then r else r - TWO_32
  }

  /** movabsq %rax, stack_bottom - 8; movq %rsp, %rax; movabsq $stack_bottom - 8, %rsp. */
  function StackSwitch(stackBottom: nat): (r: seq<Byte>)
    ensures |r| == 23
  {
    var slot := Le(Wrap64(stackBottom - 8), 8);
    [0x48, 0xa3] + slot + [0x48, 0x89, 0xe0] + [0x48, 0xbc] + slot
  }

  /** jmp rel32 at offset `off` of a stub at stubVa: the displacement is taken from the end of the instruction. */
  function Jump(stubVa: nat, off: nat, targetVa: nat): (r: seq<Byte>)
    ensures |r| == 5
  {
    [0xe9] + Le((targetVa - (stubVa + off + 1 + 4)) % TWO_32, 4)
  }

  /**
   * The trampoline write_stub_trampoline emits at virtual address stubVa:
   * with IBT an endbr64, then the switch to the Xen stack and a jump to
   * the target.
   */
  function Trampoline(ibt: bool, stubVa: nat, stackBottom: nat, targetVa: nat): (t: seq<Byte>)
    ensures |t| == if ibt then 32 else 28
  {
    var pre := if ibt then ENDBR64 else [];
    pre + StackSwitch(stackBottom) + Jump(stubVa, |pre| + 23, targetVa)
  }

  /** ROUNDUP(x, 16). */
  function RoundUp16(x: nat): (r: nat)
    ensures r % 16 == 0 && x <= r < x + 16
  {
    (x + 15) / 16 * 16
  }

  /** Both immediates of the stack switch are stack_bottom - 8. */
  lemma StackSwitchSpec(stackBottom: nat)
    ensures var r := StackSwitch(stackBottom);
      && r[..2] == [0x48, 0xa3] && Unle(r[2..10]) == Wrap64(stackBottom - 8)
      && r[10..15] == [0x48, 0x89, 0xe0, 0x48, 0xbc] && Unle(r[15..]) == Wrap64(stackBottom - 8)
  {
    var slot := Le(Wrap64(stackBottom - 8), 8);
    var r := StackSwitch(stackBottom);
    assert Pow256(8) == TWO_64;
    LeRoundTrip(Wrap64(stackBottom - 8), 8);
    assert r[2..10] == slot;
    assert r[15..] == slot;
  }

  /** The rel32 of a jump at offset off, added to the address just past the jump, is the target when that is within reach. */
  lemma JumpSpec(stubVa: nat, off: nat, targetVa: nat)
    ensures var r := Jump(stubVa, off, targetVa);
      && r[0] == 0xe9
      && (-0x8000_0000 <= targetVa - (stubVa + off + 5) < 0x8000_0000 ==>
            stubVa + off + 5 + Sext32(Unle(r[1..])) == targetVa)
  {
    var rel := (targetVa - (stubVa + off + 1 + 4)) % TWO_32;
    assert Pow256(4) == TWO_32;
    LeRoundTrip(rel, 4);
    assert Jump(stubVa, off, targetVa)[1..] == Le(rel, 4);
  }

  /**
   * The trampoline is 28 bytes, 32 with the endbr64, so it always takes 32
   * bytes of stub space; both immediates are stack_bottom - 8; and the
   * rel32 of the jump, added to the address just past it, is the target
   * whenever the target is within the reach of a rel32.
   */
  lemma TrampolineSpec(ibt: bool, stubVa: nat, stackBottom: nat, targetVa: nat)
    ensures var t := Trampoline(ibt, stubVa, stackBottom, targetVa);
      var o := if ibt then 4 else 0;
      && |t| == 28 + o
      && RoundUp16(|t|) == 32
      && (ibt ==> t[..4] == ENDBR64)
      && t[o..o + 2] == [0x48, 0xa3] && Unle(t[o + 2..o + 10]) == Wrap64(stackBottom - 8)
      && t[o + 10..o + 15] == [0x48, 0x89, 0xe0, 0x48, 0xbc] && Unle(t[o + 15..o + 23]) == Wrap64(stackBottom - 8)
      && t[o + 23] == 0xe9
      && (-0x8000_0000 <= targetVa - (stubVa + o + 28) < 0x8000_0000 ==>
            stubVa + o + 28 + Sext32(Unle(t[o + 24..o + 28])) == targetVa)
  {
    var pre := if ibt then ENDBR64 else [];
    StackSwitchSpec(stackBottom);
    JumpSpec(stubVa, |pre| + 23, targetVa);
    Pieces(Trampoline(ibt, stubVa, stackBottom, targetVa), pre, StackSwitch(stackBottom), Jump(stubVa, |pre| + 23, targetVa));
  }

  /** Where the pieces of a trampoline lie in it. */
  lemma Pieces(t: seq<Byte>, pre: seq<Byte>, sw: seq<Byte>, j: seq<Byte>)
    requires t == pre + sw + j && |sw| == 23 && |j| == 5
    ensures var o := |pre|;
      && t[..o] == pre
      && t[o..o + 2] == sw[..2] && t[o + 2..o + 10] == sw[2..10]
      && t[o + 10..o + 15] == sw[10..15] && t[o + 15..o + 23] == sw[15..]
      && t[o + 23] == j[0] && t[o + 24..o + 28] == j[1..]
  {
    var o := |pre|;
    assert t[o..o + 23] == sw;
    assert t[o + 23..] == j;
  }

  /** `w` has been written over b0 from index `at`, and p is just past it. */
  ghost predicate Placed(stub: array<Byte>, p: nat, b0: seq<Byte>, at: nat, w: seq<Byte>)
    reads stub
  {
    && p == at + |w| <= |b0| == stub.Length
    && stub[..] == b0[..at] + w + b0[at + |w|..]
  }

  /** One more byte stored just past w. */
  lemma PlaceOne(before: seq<Byte>, after: seq<Byte>, x: Byte, b0: seq<Byte>, at: nat, w: seq<Byte>)
    requires at + |w| < |b0| && before == b0[..at] + w + b0[at + |w|..]
    requires after == before[at + |w| := x]
    ensures after == b0[..at] + (w + [x]) + b0[at + |w| + 1..]
  {
    assert forall i | 0 <= i < |after| :: after[i] == (b0[..at] + (w + [x]) + b0[at + |w| + 1..])[i];
  }

  /** Byte stores at p, p + 1, ...: the `*p++ = ...` and `*(uint64_t *)p = ...; p += 8` steps. */
  method Put(stub: array<Byte>, p0: nat, bytes: seq<Byte>, ghost b0: seq<Byte>, ghost at: nat, ghost w: seq<Byte>)
    returns (p: nat)
    requires Placed(stub, p0, b0, at, w) && p0 + |bytes| <= stub.Length
    modifies stub
    ensures Placed(stub, p, b0, at, w + bytes)
  {
    p := p0;
    for k := 0 to |bytes|
      invariant Placed(stub, p, b0, at, w + bytes[..k])
    {
      ghost var before := stub[..];
      stub[p] := bytes[k];
      PlaceOne(before, stub[..], bytes[k], b0, at, w + bytes[..k]);
      assert w + bytes[..k + 1] == w + bytes[..k] + [bytes[k]];
      p := p + 1;
    }
    assert bytes[..|bytes|] == bytes;
  }

  lemma Concat5(w: seq<Byte>, a: seq<Byte>, b: seq<Byte>, c: seq<Byte>, d: seq<Byte>, e: seq<Byte>)
    ensures w + (a + b + c + d + e) == w + a + b + c + d + e
  {
  }

  /** The middle of write_stub_trampoline: the three instructions that move to the Xen stack. */
  method PutStackSwitch(stub: array<Byte>, p0: nat, stackBottom: nat, ghost b0: seq<Byte>, ghost at: nat, ghost w: seq<Byte>)
    returns (p: nat)
    requires Placed(stub, p0, b0, at, w) && p0 + 23 <= stub.Length
    modifies stub
    ensures Placed(stub, p, b0, at, w + StackSwitch(stackBottom))
  {
    var slot := Le(Wrap64(stackBottom - 8), 8);
    ghost var w1 := w + [0x48, 0xa3];
    ghost var w2 := w1 + slot;
    ghost var w3 := w2 + [0x48, 0x89, 0xe0];
    ghost var w4 := w3 + [0x48, 0xbc];
    p := Put(stub, p0, [0x48, 0xa3], b0, at, w);
    p := Put(stub, p, slot, b0, at, w1);
    p := Put(stub, p, [0x48, 0x89, 0xe0], b0, at, w2);
    p := Put(stub, p, [0x48, 0xbc], b0, at, w3);
    p := Put(stub, p, slot, b0, at, w4);
    Concat5(w, [0x48, 0xa3], slot, [0x48, 0x89, 0xe0], [0x48, 0xbc], slot);
  }

  /** The end of write_stub_trampoline: the opcode, then the displacement computed from the cursor. */
  method PutJump(stub: array<Byte>, p0: nat, stubVa: nat, targetVa: nat, ghost b0: seq<Byte>, at: nat, ghost w: seq<Byte>)
    returns (p: nat)
    requires Placed(stub, p0, b0, at, w) && p0 + 5 <= stub.Length
    modifies stub
    ensures Placed(stub, p, b0, at, w + Jump(stubVa, |w|, targetVa))
  {
    p := Put(stub, p0, [0xe9], b0, at, w);
    var rel := Le((targetVa - (stubVa + (p - at) + 4)) % TWO_32, 4);
    p := Put(stub, p, rel, b0, at, w + [0xe9]);
    assert w + [0xe9] + rel == w + Jump(stubVa, |w|, targetVa);
  }

  /**
   * write_stub_trampoline: writes the trampoline for stubVa into the stub
   * buffer from index `at` and returns the space it takes.
   */
  method WriteStubTrampoline(stub: array<Byte>, at: nat, ibt: bool, stubVa: nat, stackBottom: nat, targetVa: nat)
    returns (len: nat)
    requires at + 32 <= stub.Length
    modifies stub
    ensures len == RoundUp16(|Trampoline(ibt, stubVa, stackBottom, targetVa)|) == 32
    ensures var t := Trampoline(ibt, stubVa, stackBottom, targetVa);
      stub[..] == old(stub[..at]) + t + old(stub[at + |t|..])
  {
    ghost var b0 := stub[..];
    var p := at;
    assert Placed(stub, p, b0, at, []);
    ghost var pre: seq<Byte> := [];
    if ibt {
      p := Put(stub, p, ENDBR64, b0, at, []);
      pre := ENDBR64;
    }
    p := PutStackSwitch(stub, p, stackBottom, b0, at, pre);
    p := PutJump(stub, p, stubVa, targetVa, b0, at, pre + StackSwitch(stackBottom));
    len := RoundUp16(p - at);
  }

  /** The second trampoline lies 32 bytes further into the same page. */
  lemma SameStubPage(va: nat)
    requires va % PAGE_SIZE + 64 <= PAGE_SIZE
    ensures (va + 32) % PAGE_SIZE == va % PAGE_SIZE + 32
  {
    var q := va / PAGE_SIZE;
    assert va == q * PAGE_SIZE + va % PAGE_SIZE;
    assert va + 32 == q * PAGE_SIZE + (va % PAGE_SIZE + 32);
  }

  /** Two writes, of t1 at s and of t2 at s + 32, leave both in place and the bytes around them untouched. */
  lemma Splice2(b: seq<Byte>, s: nat, t1: seq<Byte>, t2: seq<Byte>, mid: seq<Byte>, fin: seq<Byte>)
    requires |t1| <= 32 && s + 32 + |t2| <= |b|
    requires mid == b[..s] + t1 + b[s + |t1|..]
    requires fin == mid[..s + 32] + t2 + mid[s + 32 + |t2|..]
    ensures fin == b[..s] + t1 + b[s + |t1|..32 + s] + t2 + b[32 + s + |t2|..]
  {
    assert mid[..s + 32] == b[..s] + t1 + b[s + |t1|..32 + s];
    assert mid[s + 32 + |t2|..] == b[32 + s + |t2|..];
  }

  /**
   * The two trampolines of subarch_percpu_traps_init: the 64-bit SYSCALL
   * one at the start of the CPU's stubs (its address goes to MSR_LSTAR),
   * the compatibility-mode one right after it (MSR_CSTAR). Returns the two
   * MSR values and the stub space used, 64 bytes, which is within half of
   * any stub buffer of 128 bytes or more.
   */
  method PercpuTrampolines(page: array<Byte>, ibt: bool, stubVa: nat, stackBottom: nat, lstarEnter: nat, cstarEnter: nat)
    returns (lstar: nat, cstar: nat, offset: nat)
    requires page.Length == PAGE_SIZE && stubVa % PAGE_SIZE + 64 <= PAGE_SIZE
    modifies page
    ensures lstar == stubVa && cstar == stubVa + 32 && offset == 64
    ensures page[..] == old(page[..stubVa % PAGE_SIZE])
      + Trampoline(ibt, stubVa, stackBottom, lstarEnter) + old(page[stubVa % PAGE_SIZE + |Trampoline(ibt, stubVa, stackBottom, lstarEnter)|..32 + stubVa % PAGE_SIZE])
      + Trampoline(ibt, stubVa + 32, stackBottom, cstarEnter) + old(page[32 + stubVa % PAGE_SIZE + |Trampoline(ibt, stubVa + 32, stackBottom, cstarEnter)|..])
  {
    var va := stubVa;
    lstar := va;
    offset := WriteStubTrampoline(page, va % PAGE_SIZE, ibt, va, stackBottom, lstarEnter);
    ghost var mid := page[..];
    va := va + offset;
    cstar := va;
    SameStubPage(stubVa);
    var second := WriteStubTrampoline(page, va % PAGE_SIZE, ibt, va, stackBottom, cstarEnter);
    offset := offset + second;
    Splice2(old(page[..]), stubVa % PAGE_SIZE, Trampoline(ibt, stubVa, stackBottom, lstarEnter),
            Trampoline(ibt, stubVa + 32, stackBottom, cstarEnter), mid, page[..]);
  }

  // ---------------------------------------------------------------------
  // vcpu_show_registers for a PV vCPU
  // ---------------------------------------------------------------------

  /** The PV guest registers vcpu_show_registers reports. */
  datatype PvRegs = PvRegs(ctrlreg0: nat, cr2: nat, guestTable: nat, guestTableUser: nat, ctrlreg4: nat,
                           fsBase: nat, gsBaseKernel: nat, gsBaseUser: nat)

  /**
   * The PV branch of vcpu_show_registers: crs[0], [2]..[5] from the vCPU,
   * cr3 from the kernel or user page table, and the two GS bases in slots
   * 6 and 7 in the order of the current mode. crs[1] keeps what it held.
   */
  function PvCrs(crs: seq<nat>, kernel: bool, v: PvRegs): (r: seq<nat>)
    requires |crs| == 8
    ensures |r| == 8 && r[1] == crs[1]
    ensures r[0] == v.ctrlreg0 && r[2] == v.cr2 && r[4] == v.ctrlreg4 && r[5] == v.fsBase
    ensures r[3] == if kernel then v.guestTable else v.guestTableUser
    ensures kernel ==> r[6] == v.gsBaseKernel && r[7] == v.gsBaseUser
    ensures !kernel ==> r[6] == v.gsBaseUser && r[7] == v.gsBaseKernel
  {
    var notKernel := if kernel then 0 else 1;
    crs[0 := v.ctrlreg0][2 := v.cr2][3 := if kernel then v.guestTable else v.guestTableUser]
      [4 := v.ctrlreg4][5 := v.fsBase][6 + notKernel := v.gsBaseKernel][7 - notKernel := v.gsBaseUser]
  }

  /** Outside kernel mode the report differs from the kernel-mode one only in cr3 and in the two GS slots, exchanged. */
  lemma PvCrsSwap(crs: seq<nat>, v: PvRegs)
    requires |crs| == 8
    ensures var k := PvCrs(crs, true, v);
      PvCrs(crs, false, v) == k[3 := v.guestTableUser][6 := k[7]][7 := k[6]]
  {
    var k := PvCrs(crs, true, v);
    var u := PvCrs(crs, false, v);
    assert forall i | 0 <= i < 8 :: u[i] == k[3 := v.guestTableUser][6 := k[7]][7 := k[6]][i];
  }
}
