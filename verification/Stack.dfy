/** The stack instructions and exceptions of cpu.cc, each as a step on the machine
    state, and runs in which they nest. */
module Stack {
  import opened Codec
  import opened Kernel
  import opened Memory
  import opened Cpu
  import opened Movm

  // ----- steps ---------------------------------------------------------------------

  function Push(st: State, ar: AReg): (r: State)
    requires Wf(st)
    ensures Wf(r)
  {
    // a7 moves up by one pointer
    st.(a := st.a[7 := Moved(ar, 6)])
  }

  function Failed<T>(st: State, o: Out<T>): Result
    requires o.IsFailure()
  {
    Result(st, match o case Fault(t, at) => Fault(t, at) case _ => Wild)
  }

  /** BSR: a7 is stepped before the write is checked. `next` follows the
      instruction. */
  function Bsr(st: State, next: nat, dest: nat): (r: Result)
    requires Wf(st) && dest < P64
    ensures Wf(r.st)
  {
    var tos := AddrOf(st, st.a[7]);
    if tos.IsFailure() then Failed(st, tos)
    else
      var st1 := Push(st, st.a[7]);
      var at := Access(st1, tos.value, 6, WRITE);
      if at.IsFailure() then Failed(st1, at)
      else
        var m := Splice(st.mem, at.value, PointerBytes(AReg(st.pc.seg, next)));
        Result(st1.(mem := m, pc := AReg(st.pc.seg, dest)), at)
  }

  /** JSR to an address already formed. Looking up a7 can change what the cache slot
      of that address holds. */
  function Jsr(st: State, next: nat, target: AReg): (r: Result)
    requires Wf(st) && target.addr < P64
    ensures Wf(r.st)
  {
    var there := AReg(Retargeted(target.seg, st.a[7].seg), target.addr);
    var tos := AddrOf(st, st.a[7]);
    if tos.IsFailure() then Failed(st, tos)
    else
      var at := Access(st, tos.value, 6, WRITE);
      if at.IsFailure() then Failed(st, at)
      else
        var m := Splice(st.mem, at.value, PointerBytes(AReg(st.pc.seg, next)));
        Result(Push(st, st.a[7]).(mem := m, pc := there), at)
  }

  /** PEA of an address already formed, with the same reservation. */
  function Pea(st: State, next: nat, target: AReg): (r: Result)
    requires Wf(st) && target.addr < P64 && next < P64
    ensures Wf(r.st)
  {
    var there := AReg(Retargeted(target.seg, st.a[7].seg), target.addr);
    var tos := AddrOf(st, st.a[7]);
    if tos.IsFailure() then Failed(st, tos)
    else
      var at := Access(st, tos.value, 6, WRITE);
      if at.IsFailure() then Failed(st, at)
      else
        var m := Splice(st.mem, at.value, PointerBytes(there));
        Result(Push(st, st.a[7]).(mem := m, pc := AReg(st.pc.seg, next)), at)
  }

  function Rts(st: State): (r: Result)
    requires Wf(st)
    ensures Wf(r.st)
  {
    var st1 := WithA(st, 7, Moved(st.a[7], -6));
    var tos := AddrOf(st1, st1.a[7]);
    if tos.IsFailure() then Failed(st1, tos)
    else
      var at := Access(st1, tos.value, 6, READ);
      if at.IsFailure() then Failed(st1, at)
      else Result(st1.(pc := PointerAt(st.mem, at.value)), at)
  }

  /** LINK with the operand value `n` already read. */
  function Link(st: State, l: nat, n: int, next: nat): (r: Result)
    requires Wf(st) && l < 8 && next < P64
    ensures Wf(r.st)
  {
    var tos := AddrOf(st, st.a[7]);
    if tos.IsFailure() then Failed(st, tos)
    else
      var at := Access(st, tos.value, 6, WRITE);
      if at.IsFailure() then Failed(st, at)
      else
        var top := Moved(st.a[7], 6);
        var m := Splice(st.mem, at.value, PointerBytes(st.a[l]));
        Result(st.(mem := m, a := st.a[l := top][7 := Moved(top, n)], pc := AReg(st.pc.seg, next)), at)
  }

  function Unlk(st: State, l: nat, next: nat): (r: Result)
    requires Wf(st) && l < 8 && next < P64
    ensures Wf(r.st)
  {
    var st1 := WithA(st, 7, Moved(st.a[l], -6));
    var tos := AddrOf(st1, st1.a[7]);
    if tos.IsFailure() then Failed(st1, tos)
    else
      var at := Access(st1, tos.value, 6, READ);
      if at.IsFailure() then Failed(st1, at)
      else
        Result(st1.(a := st1.a[l := PointerAt(st.mem, at.value)], pc := AReg(st.pc.seg, next)), at)
  }

  const FRAME: nat := 24

  /** ExceptionFrame: ccr, ir, smr, fault address, interrupted a7, pc. */
  function FrameBytes(ccr: nat, ir: nat, smr: nat, fault: AReg, usp: AReg, pc: AReg): (b: seq<Byte>)
    ensures |b| == FRAME
  {
    WordBytes(ccr) + WordBytes(ir) + WordBytes(smr) + PointerBytes(fault) + PointerBytes(usp) + PointerBytes(pc)
  }

  /** All traps but TRAP #14, for the debugger, and TRAP #15, the system calls, go
      through a vector. */
  predicate Vectored(num: nat) {
    num != 22 && num != 23
  }

  /** CPU::trap through a vector. Any fault on the way is a double fault, which
      stops the machine. */
  function Trap(st: State, num: nat, fault: AReg): (r: Result)
    requires Wf(st) && st.ssp.addr < P64 && Vectored(num)
    ensures Wf(r.st)
  {
    var st1 := if Super(st) then st else st.(a := st.a[7 := st.ssp], smr := SetBit(st.smr, SU));
    var fa := AddrOf(st1, st1.a[7]);
    if fa.IsFailure() then Failed(st1, fa)
    else
      var at := Access(st1, fa.value, FRAME, WRITE);
      if at.IsFailure() then Failed(st1, at)
      else
        var frame := FrameBytes(st.ccr, st.ir, st.smr, fault, st.a[7], st.pc);
        var st2 := st1.(mem := Splice(st1.mem, at.value, frame), a := st1.a[7 := Moved(st1.a[7], FRAME)], ir := 0x1FF);
        var vec := AddrOf(st2, AReg(FLAT, num * 6));
        if vec.IsFailure() then Failed(st2, vec)
        else
          var v := Access(st2, vec.value, 6, READ);
          if v.IsFailure() then Failed(st2, v)
          else Result(st2.(pc := PointerAt(st2.mem, v.value)), at)
  }

  function Rte(st: State): (r: Result)
    requires Wf(st)
    ensures Wf(r.st)
  {
    if !Super(st) then Result(st, Fault(ePERM, st.pc))
    else
      var st1 := WithA(st, 7, Moved(st.a[7], 0 - FRAME));
      var fa := AddrOf(st1, st1.a[7]);
      if fa.IsFailure() then Failed(st1, fa)
      else
        var at := Access(st1, fa.value, FRAME, READ);
        if at.IsFailure() then Failed(st1, at)
        else
          var m, p := st.mem, at.value;
          Result(st1.(ssp := st1.a[7], ccr := Uw(m, p), ir := Uw(m, p + 2), smr := Uw(m, p + 4),
                      a := st1.a[7 := PointerAt(m, p + 12)], pc := PointerAt(m, p + 18)), at)
  }

  lemma {:induction false} FrameReads(m: seq<Byte>, p: nat, ccr: nat, ir: nat, smr: nat, fault: AReg, usp: AReg,
                                      pc: AReg)
    requires p + FRAME <= |m| && m[p..p + FRAME] == FrameBytes(ccr, ir, smr, fault, usp, pc)
    ensures Uw(m, p) == ccr % P18 && Uw(m, p + 2) == ir % P18 && Uw(m, p + 4) == smr % P18
    ensures PointerAt(m, p + 6) == AReg(fault.seg % P18, fault.addr % P36)
    ensures PointerAt(m, p + 12) == AReg(usp.seg % P18, usp.addr % P36)
    ensures PointerAt(m, p + 18) == AReg(pc.seg % P18, pc.addr % P36)
  {
    var b1 := WordBytes(ccr);
    var b2 := b1 + WordBytes(ir);
    var b3 := b2 + WordBytes(smr);
    var b4 := b3 + PointerBytes(fault);
    var b5 := b4 + PointerBytes(usp);
    SplitRun(m, p, b5, PointerBytes(pc));
    SplitRun(m, p, b4, PointerBytes(usp));
    SplitRun(m, p, b3, PointerBytes(fault));
    SplitRun(m, p, b2, WordBytes(smr));
    SplitRun(m, p, b1, WordBytes(ir));
    WordThere(m, p, ccr);
    WordThere(m, p + 2, ir);
    WordThere(m, p + 4, smr);
    PointerThere(m, p + 6, fault);
    PointerThere(m, p + 12, usp);
    PointerThere(m, p + 18, pc);
  }

  lemma {:induction false} WordThere(m: seq<Byte>, p: nat, n: nat)
    requires p + 2 <= |m| && m[p..p + 2] == WordBytes(n)
    ensures Uw(m, p) == n % P18
  {
    assert m == Splice(m, p, WordBytes(n));
    SpliceWord(m, p, n);
  }

  lemma {:induction false} PointerThere(m: seq<Byte>, p: nat, ar: AReg)
    requires p + 6 <= |m| && m[p..p + 6] == PointerBytes(ar)
    ensures PointerAt(m, p) == AReg(ar.seg % P18, ar.addr % P36)
  {
    assert m == Splice(m, p, PointerBytes(ar));
    PointerRoundTrip(m, p, ar);
  }

  // ----- where calls and frames lead --------------------------------------------------

  /** BSR enters its destination, with the address behind it stacked at the old a7. */
  lemma {:induction false} BsrEnters(st: State, next: nat, dest: nat)
    requires Wf(st) && dest < P64 && Bsr(st, next, dest).out.Ok?
    ensures var r, at := Bsr(st, next, dest).st, Bsr(st, next, dest).out.value;
            && r.pc == AReg(st.pc.seg, dest) && r.a == st.a[7 := Moved(st.a[7], 6)] && at + 6 <= |r.mem|
            && PointerAt(r.mem, at) == AReg(st.pc.seg % P18, next % P36)
  {
    PointerRoundTrip(st.mem, Bsr(st, next, dest).out.value, AReg(st.pc.seg, next));
  }

  /** LINK stacks the link register, points it behind that, and leaves `n` bytes between
      it and a7. */
  lemma {:induction false} LinkFrame(st: State, l: nat, n: int, next: nat)
    requires Wf(st) && l < 7 && next < P64 && Link(st, l, n, next).out.Ok?
    ensures var r, at := Link(st, l, n, next).st, Link(st, l, n, next).out.value;
            && r.a == st.a[l := Moved(st.a[7], 6)][7 := Moved(st.a[7], 6 + n)] && at + 6 <= |r.mem|
            && PointerAt(r.mem, at) == AReg(st.a[l].seg % P18, st.a[l].addr % P36)
            && r.pc == AReg(st.pc.seg, next)
  {
    PointerRoundTrip(st.mem, Link(st, l, n, next).out.value, st.a[l]);
    MovedTwice(st.a[7], 6, n);
  }

  lemma {:induction false} MovedTwice(ar: AReg, m: int, n: int)
    ensures Moved(Moved(ar, m), n) == Moved(ar, m + n)
  {
    var q := (ar.addr + m) / P64;
    assert ar.addr + m == q * P64 + (ar.addr + m) % P64;
    var k, r := ((ar.addr + m) % P64 + n) / P64, ((ar.addr + m) % P64 + n) % P64;
    assert ar.addr + (m + n) == (q + k) * P64 + r;
    DivUnique(ar.addr + (m + n), P64, q + k, r);
  }

  // ----- what undoes what ---------------------------------------------------------------

  /** Both reads and writes of `n` bytes at an address find the same place. */
  lemma {:induction false} SamePlaces(st: State, s: State, ar: AReg, n: nat)
    requires s.tab == st.tab && |s.mem| == |st.mem|
    requires AddrOf(st, ar).Ok? && Access(st, AddrOf(st, ar).value, n, WRITE).Ok?
    requires AddrOf(s, ar).Ok? && Access(s, AddrOf(s, ar).value, n, READ).Ok?
    ensures Access(s, AddrOf(s, ar).value, n, READ) == Access(st, AddrOf(st, ar).value, n, WRITE)
  {
    SamePlace(st, s, ar, n, WRITE, READ);
  }

  lemma {:induction false} PushedThere(m: seq<Byte>, m': seq<Byte>, at: nat, ar: AReg)
    requires at + 6 <= |m| && m' == Splice(m, at, PointerBytes(ar))
    ensures m'[at..at + 6] == PointerBytes(ar)
  {
  }

  /** `s` still has what the step `o` stacked. */
  predicate Holds(o: Result, n: nat, s: State) {
    && o.out.Ok? && s.tab == o.st.tab && |s.mem| == |o.st.mem| && o.out.value + n <= |s.mem|
    && s.mem[o.out.value..o.out.value + n] == o.st.mem[o.out.value..o.out.value + n]
  }

  /** RTS undoes BSR, whatever happened in between to anything but the stack
      pointer and the stacked bytes. */
  lemma {:induction false} BsrRts(st: State, next: nat, dest: nat, s: State)
    requires Wf(st) && Wf(s) && dest < P64 && Holds(Bsr(st, next, dest), 6, s)
    requires s.a[7] == Bsr(st, next, dest).st.a[7] && Rts(s).out.Ok?
    ensures Rts(s).st == s.(a := s.a[7 := st.a[7]], pc := AReg(st.pc.seg % P18, next % P36))
  {
    var o := Bsr(st, next, dest);
    var at, ret := o.out.value, AReg(st.pc.seg, next);
    MovedBack(st.a[7], 6);
    SamePlaces(Push(st, st.a[7]), WithA(s, 7, st.a[7]), st.a[7], 6);
    assert Rts(s).out == o.out;
    PushedThere(st.mem, o.st.mem, at, ret);
    PointerThere(s.mem, at, ret);
  }

  /** RTS undoes JSR. */
  lemma {:induction false} JsrRts(st: State, next: nat, target: AReg, s: State)
    requires Wf(st) && Wf(s) && target.addr < P64 && Holds(Jsr(st, next, target), 6, s)
    requires s.a[7] == Jsr(st, next, target).st.a[7] && Rts(s).out.Ok?
    ensures Rts(s).st == s.(a := s.a[7 := st.a[7]], pc := AReg(st.pc.seg % P18, next % P36))
  {
    var o := Jsr(st, next, target);
    var at, ret := o.out.value, AReg(st.pc.seg, next);
    MovedBack(st.a[7], 6);
    SamePlaces(st, WithA(s, 7, st.a[7]), st.a[7], 6);
    assert Rts(s).out == o.out;
    PushedThere(st.mem, o.st.mem, at, ret);
    PointerThere(s.mem, at, ret);
  }

  /** Two segment numbers share a cache slot. */
  predicate Collide(seg: nat, other: nat) {
    seg != other && seg % 16 == other % 16 && seg != FLAT && other != FLAT
  }

  /** A JSR goes to its operand exactly when the operand's segment and a7's do not
      share a cache slot; otherwise it goes to a7's segment. */
  lemma {:induction false} JsrReaches(st: State, next: nat, target: AReg)
    requires Wf(st) && target.addr < P64 && Jsr(st, next, target).out.Ok?
    ensures Jsr(st, next, target).st.pc == target <==> !Collide(target.seg, st.a[7].seg)
    ensures Collide(target.seg, st.a[7].seg) ==> Jsr(st, next, target).st.pc == AReg(st.a[7].seg, target.addr)
  {
  }

  /** PEA stacks its operand, at field width, under the same condition. */
  lemma {:induction false} PeaStacks(st: State, next: nat, target: AReg)
    requires Wf(st) && target.addr < P64 && next < P64 && Pea(st, next, target).out.Ok?
    requires target.seg < P18 && target.addr < P36 && st.a[7].seg < P18
    ensures var o := Pea(st, next, target);
            && o.st.a[7] == Moved(st.a[7], 6) && o.out.value + 6 <= |o.st.mem|
            && (PointerAt(o.st.mem, o.out.value) == target <==> !Collide(target.seg, st.a[7].seg))
  {
    var o := Pea(st, next, target);
    var there := AReg(Retargeted(target.seg, st.a[7].seg), target.addr);
    assert o.st.mem == Splice(st.mem, o.out.value, PointerBytes(there));
    PointerRoundTrip(st.mem, o.out.value, there);
  }

  /** UNLK undoes LINK, the link register being kept and a7 being anything. */
  lemma {:induction false} LinkUnlk(st: State, l: nat, n: int, next: nat, s: State, last: nat)
    requires Wf(st) && Wf(s) && l < 7 && next < P64 && last < P64 && Holds(Link(st, l, n, next), 6, s)
    requires s.a[l] == Link(st, l, n, next).st.a[l] && Unlk(s, l, last).out.Ok?
    ensures var back := AReg(st.a[l].seg % P18, st.a[l].addr % P36);
            Unlk(s, l, last).st == s.(a := s.a[7 := st.a[7]][l := back], pc := AReg(s.pc.seg, last))
  {
    var o := Link(st, l, n, next);
    var at := o.out.value;
    MovedBack(st.a[7], 6);
    SamePlaces(st, WithA(s, 7, st.a[7]), st.a[7], 6);
    assert Unlk(s, l, last).out == o.out;
    PushedThere(st.mem, o.st.mem, at, st.a[l]);
    PointerThere(s.mem, at, st.a[l]);
  }

  /** The machine as trap leaves it before the frame is written. */
  function Entered(st: State): (r: State)
    requires Wf(st) && st.ssp.addr < P64
    ensures Wf(r) && r.mem == st.mem && r.tab == st.tab && r.a[7] == if Super(st) then st.a[7] else st.ssp
  {
    if Super(st) then st else st.(a := st.a[7 := st.ssp], smr := SetBit(st.smr, SU))
  }

  lemma {:induction false} SuperSet(smr: nat)
    ensures Bit(SetBit(smr, SU), SU) && (Bit(smr % P18, SU) <==> Bit(smr, SU))
  {
    if !Bit(smr, SU) {
      BitFlip(smr, SU);
    }
    LowBits(smr / P18, smr % P18);
    assert smr == smr / P18 * P18 + smr % P18;
  }

  lemma {:induction false} LowBits(q: nat, r: nat)
    ensures Bit(q * P18 + r, SU) <==> Bit(r, SU)
  {
    BitAbove(q * 0x2_0000, SU, r);
  }

  lemma {:induction false} TrapIs(st: State, num: nat, fault: AReg)
    requires Wf(st) && st.ssp.addr < P64 && Vectored(num) && Trap(st, num, fault).out.Ok?
    ensures var t, sp := Trap(st, num, fault), if Super(st) then st.a[7] else st.ssp;
            var at := t.out.value;
            && AddrOf(Entered(st), sp).Ok? && Access(Entered(st), AddrOf(Entered(st), sp).value, FRAME, WRITE) == t.out
            && t.st.a[7] == Moved(sp, FRAME) && |t.st.mem| == |st.mem| && at + FRAME <= |st.mem|
            && t.st.mem[at..at + FRAME] == FrameBytes(st.ccr, st.ir, st.smr, fault, st.a[7], st.pc)
  {
    var at := Trap(st, num, fault).out.value;
    var frame := FrameBytes(st.ccr, st.ir, st.smr, fault, st.a[7], st.pc);
    var m := Splice(st.mem, at, frame);
    assert m[at..at + FRAME] == frame;
    assert Trap(st, num, fault).st.mem == m;
  }

  lemma {:induction false} RteIs(s: State, sp: AReg)
    requires Wf(s) && Moved(s.a[7], 0 - FRAME) == sp && Rte(s).out.Ok?
    ensures var s1, r := WithA(s, 7, sp), Rte(s);
            var m, p := s.mem, r.out.value;
            && AddrOf(s1, sp).Ok? && Access(s1, AddrOf(s1, sp).value, FRAME, READ) == r.out && p + FRAME <= |m|
            && r.st.ssp == sp && r.st.ccr == Uw(m, p) && r.st.ir == Uw(m, p + 2) && r.st.smr == Uw(m, p + 4)
            && r.st.a == s.a[7 := PointerAt(m, p + 12)] && r.st.pc == PointerAt(m, p + 18)
            && r.st.d == s.d && r.st.mem == s.mem
  {
  }

  /** RTE undoes a trap: condition codes, ir, mode, stack pointer and pc of the
      interrupted code are back, at the width of their frame fields; ssp is the
      address of the frame. */
  lemma {:induction false} TrapRte(st: State, num: nat, fault: AReg, s: State)
    requires Wf(st) && Wf(s) && st.ssp.addr < P64 && Vectored(num) && Holds(Trap(st, num, fault), FRAME, s)
    requires s.a[7] == Trap(st, num, fault).st.a[7] && Rte(s).out.Ok?
    ensures var r := Rte(s).st;
            && r.ccr == st.ccr % P18 && r.ir == st.ir % P18 && r.smr == st.smr % P18
            && r.a == s.a[7 := AReg(st.a[7].seg % P18, st.a[7].addr % P36)]
            && r.pc == AReg(st.pc.seg % P18, st.pc.addr % P36)
            && r.ssp == (if Super(st) then st.a[7] else st.ssp)
            && r.d == s.d && r.mem == s.mem
  {
    FrameFound(st, num, fault, s);
    var at, sp := Trap(st, num, fault).out.value, Entered(st).a[7];
    RteIs(s, sp);
    FrameReads(s.mem, at, st.ccr, st.ir, st.smr, fault, st.a[7], st.pc);
  }

  /** RTE finds the frame where the trap wrote it. */
  lemma {:induction false} FrameFound(st: State, num: nat, fault: AReg, s: State)
    requires Wf(st) && Wf(s) && st.ssp.addr < P64 && Vectored(num) && Holds(Trap(st, num, fault), FRAME, s)
    requires s.a[7] == Trap(st, num, fault).st.a[7] && Rte(s).out.Ok?
    ensures Moved(s.a[7], 0 - FRAME) == Entered(st).a[7] && Rte(s).out == Trap(st, num, fault).out
    ensures var at := Rte(s).out.value;
            at + FRAME <= |s.mem| && s.mem[at..at + FRAME] == FrameBytes(st.ccr, st.ir, st.smr, fault, st.a[7], st.pc)
  {
    var sp := Entered(st).a[7];
    TrapIs(st, num, fault);
    MovedBack(sp, FRAME);
    RteIs(s, sp);
    SamePlaces(Entered(st), WithA(s, 7, sp), sp, FRAME);
  }
}
