/** The processor as cpu.cc runs it: registers and memory changed in place, each
    instruction a method proved against its step. */
module Processor {
  import opened Codec
  import opened Kernel
  import opened Memory
  import opened Cpu
  import opened Movm
  import Stack
  import Alu

  datatype Operation = ADD | SUB | ADC | SBC | CMP

  /** The condition code register: Z, C, V and N in its low bits. */
  function Encoded(f: Alu.Flags): (c: nat)
    ensures c < 16
  {
    (if f.z then 1 else 0) + (if f.c then 2 else 0) + (if f.v then 4 else 0) + (if f.n then 8 else 0)
  }

  function Decoded(ccr: nat): Alu.Flags {
    Alu.Flags(Bit(ccr, 1), Bit(ccr, 2), Bit(ccr, 4), Bit(ccr, 8))
  }

  function WithFlags(ccr: nat, f: Alu.Flags): nat {
    ccr / 16 * 16 + Encoded(f)
  }

  /** The flags written are the flags read, and the other bits stay. */
  lemma {:induction false} FlagsRoundTrip(ccr: nat, f: Alu.Flags)
    ensures Decoded(WithFlags(ccr, f)) == f && WithFlags(ccr, f) / 16 == ccr / 16
  {
    var q, e := ccr / 16, Encoded(f);
    DivUnique(WithFlags(ccr, f), 16, q, e);
    BitAbove(q, 8, e);
    BitAbove(2 * q, 4, e);
    BitAbove(4 * q, 2, e);
    BitAbove(8 * q, 1, e);
  }

  /** One long operation on register data `x` and an argument `y`. */
  function Operate(op: Operation, x: nat, y: nat, f: Alu.Flags): (nat, Alu.Flags) {
    match op
    case ADD => Alu.Add(x, y)
    case ADC => Alu.Adc(x, y, f.c)
    case SBC => Alu.Sbc(x, y, f.c)
    case SUB => Alu.Sub(x, y)
    case CMP => (x, Alu.Cmp(x, y, f.n))
  }

  class CPU {
    var pc: AReg
    var d: seq<nat>
    var a: seq<AReg>
    var ssp: AReg
    var ccr: nat
    var ir: nat
    var smr: nat
    var tab: seq<Desc>
    const mem: array<Byte>

    ghost function Abs(): State
      reads this, mem
    {
      State(pc, d, a, ssp, ccr, ir, smr, tab, mem[..])
    }

    ghost predicate Valid()
      reads this, mem
    {
      Wf(Abs()) && ssp.addr < P64
    }

    /** The processor as reset leaves it, apart from the start address. */
    constructor (memory: array<Byte>)
      ensures Valid() && mem == memory
      ensures var zero := AReg(0, 0);
              Abs() == State(zero, seq(8, i => 0), seq(8, i => zero), zero, 0, 0x1FF, SU + 2, [], memory[..])
    {
      pc, ssp := AReg(0, 0), AReg(0, 0);
      d, a := seq(8, i => 0), seq(8, i => AReg(0, 0));
      ccr, ir, smr, tab := 0, 0x1FF, SU + 2, [];
      mem := memory;
    }

    // ----- effective addresses ---------------------------------------------------------

    /** The EA field of an instruction whose next word is at `ip`; a post-increment
        or pre-decrement changes its register when nothing faults. */
    method EffectiveAddress(ea: nat, easz: nat, ip: Addr) returns (out: Out<Operand>)
      requires Valid() && ea < 64 && easz < 4
      modifies this`a
      ensures out == Decode(old(Abs()), ea, easz, ip)
      ensures a == if out.Ok? then out.value.a else old(a)
    {
      var reg := ea % 8;
      if easz == 3 {
        return Ok(Operand(Literal(Sex(36, Signed(36, Sex(6, ea)))), a, ip));
      }
      match ea / 8
      case 0 => out := Ok(Operand(InReg(reg, Bits(easz)), a, ip));
      case 1 =>
        var p := AddressOf(a[reg]);
        if p.IsFailure() {
          return p.PropagateFailure<Operand>();
        }
        out := Ok(Operand(At(p.value, Size(easz)), a, ip));
      case 2 =>
        var p := AddressOf(a[reg]);
        if p.IsFailure() {
          return p.PropagateFailure<Operand>();
        }
        a := a[reg := Moved(a[reg], Size(easz))];
        out := Ok(Operand(At(p.value, Size(easz)), a, ip));
      case 3 =>
        var p := AddressOf(a[reg]);
        if p.IsFailure() {
          return p.PropagateFailure<Operand>();
        }
        a := a[reg := Moved(a[reg], 0 - Size(easz))];
        out := Ok(Operand(At(p.value.Plus(0 - Size(easz)), Size(easz)), a, ip));
      case 4 =>
        var w := CodeWord(ip);
        if w.IsFailure() {
          return w.PropagateFailure<Operand>();
        }
        var p := AddressOf(a[reg]);
        if p.IsFailure() {
          return p.PropagateFailure<Operand>();
        }
        out := Ok(Operand(At(p.value.Plus(Sex(18, w.value.0)), Size(easz)), a, w.value.1));
      case 5 =>
        var w := CodeWord(ip);
        if w.IsFailure() {
          return w.PropagateFailure<Operand>();
        }
        var p := AddressOf(AReg(a[reg].seg, w.value.0));
        if p.IsFailure() {
          return p.PropagateFailure<Operand>();
        }
        out := Ok(Operand(At(p.value, Size(easz)), a, w.value.1));
      case 6 => out := Extended(reg, easz, ip);
      case _ => out := Special(reg, easz, ip);
    }

    method Special(reg: nat, easz: nat, ip: Addr) returns (out: Out<Operand>)
      requires Valid() && reg < 8 && easz < 3
      ensures out == DecodeSpecial(Abs(), reg, easz, ip)
    {
      if reg == 1 && easz == 2 {
        var at := Checked(ip, 4, EXEC);
        if at.IsFailure() {
          return at.PropagateFailure<Operand>();
        }
        return Ok(Operand(Literal(Sex(36, Long(at.value))), a, ip.Plus(4)));
      } else if reg == 1 {
        var w := CodeWord(ip);
        if w.IsFailure() {
          return w.PropagateFailure<Operand>();
        }
        return Ok(Operand(Literal(Sex(Bits(easz), w.value.0)), a, w.value.1));
      } else if reg == 2 {
        var at := Checked(ip, 6, EXEC);
        if at.IsFailure() {
          return at.PropagateFailure<Operand>();
        }
        var p := AddressOf(PointerHere(at.value));
        if p.IsFailure() {
          return p.PropagateFailure<Operand>();
        }
        return Ok(Operand(At(p.value, Size(easz)), a, ip.Plus(6)));
      } else if reg == 0 {
        out := Extended(8, easz, ip);
      } else {
        return Fault(eINVAL, pc);
      }
    }

    /** Modes with an extension word; base 8 is the program counter. */
    method Extended(ereg: nat, easz: nat, ip: Addr) returns (out: Out<Operand>)
      requires Valid() && ereg <= 8
      ensures out == DecodeExtended(Abs(), ereg, easz, ip)
    {
      var w := CodeWord(ip);
      if w.IsFailure() {
        return w.PropagateFailure<Operand>();
      }
      var ext, next := w.value.0, w.value.1;
      var index, offset, disp := 0, 0, 0;
      if Bit(ext, 0x2_0000) {
        index := Sex(36, d[ext / 0x200 % 8]) * Scale(ext / 0x1000 % 4);
      }
      if ext / 0x8000 > 1 {
        if Bit(ext, 0x4000) {
          var w2 := CodeWord(next);
          if w2.IsFailure() {
            return w2.PropagateFailure<Operand>();
          }
          offset := Sex(18, w2.value.0);
          next := w2.value.1;
        }
        disp := Sex(9, ext % 0x200);
      } else {
        offset := Sex(9, ext % 0x200);
      }
      var p := Formed(ereg, Bit(ext, 0x8000), ext / 0x8000 == 7, offset, index, disp);
      if p.IsFailure() {
        return p.PropagateFailure<Operand>();
      }
      return Ok(Operand(At(p.value, Size(easz)), a, next));
    }

    method Formed(ereg: nat, memory: bool, post: bool, offset: int, index: int, disp: int) returns (out: Out<Addr>)
      requires Valid() && ereg <= 8
      ensures out == FormAddress(Abs(), ereg, memory, post, offset, index, disp)
    {
      out := AddressOf(if ereg < 8 then a[ereg] else pc);
      if out.IsFailure() {
        return;
      }
      var eaddr, last := out.value.Plus(offset), disp;
      if memory && !post {
        last := last + index;
      } else {
        eaddr := eaddr.Plus(index);
      }
      if memory {
        var at := Checked(eaddr, 6, READ);
        if at.IsFailure() {
          return at.PropagateFailure<Addr>();
        }
        out := AddressOf(PointerHere(at.value));
        if out.IsFailure() {
          return;
        }
        eaddr := out.value;
      }
      return Ok(eaddr.Plus(last));
    }

    function CodeWord(ip: Addr): (w: Out<(nat, Addr)>)
      reads this, mem
      ensures w == FetchWord(Abs(), ip)
    {
      var at := Checked(ip, 2, EXEC);
      if at.IsFailure() then at.PropagateFailure<(nat, Addr)>() else Ok((Word(at.value), ip.Plus(2)))
    }

    // ----- stores ------------------------------------------------------------------

    method PutWord(at: nat, n: nat)
      requires at + 2 <= mem.Length
      modifies mem
      ensures mem[..] == Splice(old(mem[..]), at, WordBytes(n))
    {
      mem[at] := (n / P9) % P9;
      mem[at + 1] := n % P9;
    }

    method PutLong(at: nat, n: nat)
      requires at + 4 <= mem.Length
      modifies mem
      ensures mem[..] == Splice(old(mem[..]), at, LongBytes(n))
    {
      PutWord(at, n);
      PutWord(at + 2, n / P18);
    }

    method PutPointer(at: nat, ar: AReg)
      requires at + 6 <= mem.Length
      modifies mem
      ensures mem[..] == Splice(old(mem[..]), at, PointerBytes(ar))
    {
      PutWord(at, ar.seg);
      PutLong(at + 2, ar.addr);
    }

    // ----- exceptions --------------------------------------------------------------

    method PutFrame(at: nat, osmr: nat, faddr: AReg, usp: AReg)
      requires at + Stack.FRAME <= mem.Length
      modifies mem
      ensures mem[..] == Splice(old(mem[..]), at, Stack.FrameBytes(ccr, ir, osmr, faddr, usp, pc))
    {
      ghost var m := mem[..];
      PutWord(at, ccr);
      PutWord(at + 2, ir);
      Extend(m, at, WordBytes(ccr), WordBytes(ir));
      PutWord(at + 4, osmr);
      Extend(m, at, WordBytes(ccr) + WordBytes(ir), WordBytes(osmr));
      PutPointer(at + 6, faddr);
      ghost var b := WordBytes(ccr) + WordBytes(ir) + WordBytes(osmr);
      Extend(m, at, b, PointerBytes(faddr));
      PutPointer(at + 12, usp);
      Extend(m, at, b + PointerBytes(faddr), PointerBytes(usp));
      PutPointer(at + 18, pc);
      Extend(m, at, b + PointerBytes(faddr) + PointerBytes(usp), PointerBytes(pc));
    }

    method Trap(num: nat, faddr: AReg) returns (out: Out<nat>)
      requires Valid() && Stack.Vectored(num)
      modifies this, mem
      ensures Result(Abs(), out) == Stack.Trap(old(Abs()), num, faddr)
    {
      var usp, osmr := a[7], smr;
      if !Bit(smr, SU) {
        a := a[7 := ssp];
        smr := SetBit(smr, SU);
      }
      var fa := AddressOf(a[7]);
      if fa.IsFailure() {
        return Stopped(fa);
      }
      out := Checked(fa.value, Stack.FRAME, WRITE);
      if out.IsFailure() {
        return;
      }
      PutFrame(out.value, osmr, faddr, usp);
      a := a[7 := Moved(a[7], Stack.FRAME)];
      ir := 0x1FF;
      var vec := AddressOf(AReg(FLAT, num * 6));
      if vec.IsFailure() {
        return Stopped(vec);
      }
      var v := Checked(vec.value, 6, READ);
      if v.IsFailure() {
        return v;
      }
      pc := PointerHere(v.value);
    }

    method Rte() returns (out: Out<nat>)
      requires Valid()
      modifies this
      ensures Result(Abs(), out) == Stack.Rte(old(Abs()))
    {
      if !Bit(smr, SU) {
        return Fault(ePERM, pc);
      }
      a := a[7 := Moved(a[7], 0 - Stack.FRAME)];
      assert Abs() == WithA(old(Abs()), 7, a[7]) by {
        assert mem[..] == old(mem[..]);
      }
      var fa := AddressOf(a[7]);
      if fa.IsFailure() {
        return Stopped(fa);
      }
      out := Checked(fa.value, Stack.FRAME, READ);
      if out.Ok? {
        Resume(out.value);
      }
    }

    method Resume(p: nat)
      requires Wf(Abs()) && p + Stack.FRAME <= mem.Length
      modifies this
      ensures var st, m := old(Abs()), mem[..];
              Abs() == st.(ssp := st.a[7], ccr := Uw(m, p), ir := Uw(m, p + 2), smr := Uw(m, p + 4),
                           a := st.a[7 := PointerAt(m, p + 12)], pc := PointerAt(m, p + 18))
    {
      ssp := a[7];
      ccr := Word(p);
      ir := Word(p + 2);
      smr := Word(p + 4);
      a := a[7 := PointerHere(p + 12)];
      pc := PointerHere(p + 18);
    }

    // ----- calls -------------------------------------------------------------------

    method Bsr(next: nat, dest: nat) returns (out: Out<nat>)
      requires Valid() && dest < P64
      modifies this, mem
      ensures Result(Abs(), out) == Stack.Bsr(old(Abs()), next, dest)
    {
      var tos := AddressOf(a[7]);
      if tos.IsFailure() {
        return Stopped(tos);
      }
      a := a[7 := Moved(a[7], 6)];
      out := Checked(tos.value, 6, WRITE);
      if out.Ok? {
        PutPointer(out.value, AReg(pc.seg, next));
        pc := AReg(pc.seg, dest);
      }
    }

    method Jsr(next: nat, target: AReg) returns (out: Out<nat>)
      requires Valid() && target.addr < P64
      modifies this, mem
      ensures Result(Abs(), out) == Stack.Jsr(old(Abs()), next, target)
    {
      var tos := AddressOf(a[7]);
      if tos.IsFailure() {
        return Stopped(tos);
      }
      out := Checked(tos.value, 6, WRITE);
      if out.Ok? {
        PutPointer(out.value, AReg(pc.seg, next));
        a := a[7 := Moved(a[7], 6)];
        pc := AReg(Retargeted(target.seg, tos.value.c.seg), target.addr);
      }
    }

    method Pea(next: nat, target: AReg) returns (out: Out<nat>)
      requires Valid() && target.addr < P64 && next < P64
      modifies this, mem
      ensures Result(Abs(), out) == Stack.Pea(old(Abs()), next, target)
    {
      var tos := AddressOf(a[7]);
      if tos.IsFailure() {
        return Stopped(tos);
      }
      out := Checked(tos.value, 6, WRITE);
      if out.Ok? {
        PutPointer(out.value, AReg(Retargeted(target.seg, tos.value.c.seg), target.addr));
        a := a[7 := Moved(a[7], 6)];
        pc := AReg(pc.seg, next);
      }
    }

    method Rts() returns (out: Out<nat>)
      requires Valid()
      modifies this
      ensures Result(Abs(), out) == Stack.Rts(old(Abs()))
    {
      a := a[7 := Moved(a[7], -6)];
      var frame := AddressOf(a[7]);
      if frame.IsFailure() {
        return Stopped(frame);
      }
      out := Checked(frame.value, 6, READ);
      if out.Ok? {
        pc := PointerHere(out.value);
      }
    }

    method Link(l: nat, n: int, next: nat) returns (out: Out<nat>)
      requires Valid() && l < 8 && next < P64
      modifies this, mem
      ensures Result(Abs(), out) == Stack.Link(old(Abs()), l, n, next)
    {
      var tos := AddressOf(a[7]);
      if tos.IsFailure() {
        return Stopped(tos);
      }
      out := Checked(tos.value, 6, WRITE);
      if out.Ok? {
        PutPointer(out.value, a[l]);
        a := a[7 := Moved(a[7], 6)];
        a := a[l := a[7]];
        a := a[7 := Moved(a[7], n)];
        pc := AReg(pc.seg, next);
      }
    }

    method Unlk(l: nat, next: nat) returns (out: Out<nat>)
      requires Valid() && l < 8 && next < P64
      modifies this
      ensures Result(Abs(), out) == Stack.Unlk(old(Abs()), l, next)
    {
      a := a[7 := a[l]];
      a := a[7 := Moved(a[7], -6)];
      assert a == old(a)[7 := Moved(old(a)[l], -6)];
      var tos := AddressOf(a[7]);
      if tos.IsFailure() {
        return Stopped(tos);
      }
      out := Checked(tos.value, 6, READ);
      if out.Ok? {
        a := a[l := PointerHere(out.value)];
        pc := AReg(pc.seg, next);
      }
    }

    // ----- MOVM --------------------------------------------------------------------

    /** MOVM regs,(ar)+: the bits of `regs` in ascending order. */
    method MovmStore(regs: seq<bool>, r: nat) returns (out: Out<nat>)
      requires Valid() && r < 8 && |regs| == REGS
      modifies this, mem
      ensures Result(Abs(), out) == Save(old(Abs()), Listed(regs, |regs|), r)
    {
      var eaddr := AddressOf(a[r]);
      if eaddr.IsFailure() {
        return Stopped(eaddr);
      }
      a := a[r := Moved(a[r], 4)];
      var size := TotalSize(regs);
      Steps(old(a)[r], size);
      a := a[r := Moved(a[r], Readjust(size))];
      Replaced(old(a), r, Moved(old(a)[r], 4), Moved(old(a)[r], Step(size)));
      assert mem[..] == old(mem[..]);
      assert Abs() == WithA(old(Abs()), r, Moved(old(a)[r], Step(size)));
      out := StoreAt(regs, eaddr.value, size);
    }

    method StoreAt(regs: seq<bool>, p: Addr, size: nat) returns (out: Out<nat>)
      requires Valid() && |regs| == REGS && size == ListSize(Listed(regs, |regs|))
      modifies mem
      ensures Result(Abs(), out) == SaveAt(old(Abs()), Listed(regs, |regs|), p)
    {
      PrivilegedBits(regs);
      if (regs[16] || regs[17]) && !Bit(smr, SU) {
        return Fault(ePERM, pc);
      }
      out := Checked(p, size, WRITE);
      if out.Ok? {
        StoreRegs(regs, out.value);
        Saved(old(Abs()), Listed(regs, |regs|), p, out.value, Abs());
      }
    }

    method StoreRegs(regs: seq<bool>, at0: nat)
      requires Valid() && |regs| == REGS && at0 + ListSize(Listed(regs, |regs|)) <= mem.Length
      modifies mem
      ensures mem[..] == Splice(old(mem[..]), at0, ListBytes(old(Abs()), Listed(regs, |regs|)))
    {
      ghost var st := Abs();
      var at := at0;
      var i := 0;
      ListedGrows(regs, i);
      while i < |regs|
        invariant i <= |regs| && at == at0 + ListSize(Listed(regs, i)) <= mem.Length && mem.Length == |st.mem|
        invariant mem[..] == StoredBytes(st, regs, i, at0)
      {
        ListedGrows(regs, i + 1);
        StoredStep(st, regs, i, at0);
        assert Abs() == st.(mem := mem[..]);
        if regs[i] {
          StoreNext(i, at, st);
          at := at + RegSize(i);
        }
        i := i + 1;
      }
      StoredAll(st, regs, at0);
    }

    method StoreNext(i: nat, at: nat, ghost st: State)
      requires Valid() && Wf(st) && Abs() == st.(mem := mem[..]) && i < REGS && at + RegSize(i) <= mem.Length
      modifies mem
      ensures mem[..] == Splice(old(mem[..]), at, RegBytes(st, i))
    {
      SameRegister(st, mem[..], i);
      StoreReg(i, at);
    }

    method StoreReg(i: nat, at: nat)
      requires Valid() && i < REGS && at + RegSize(i) <= mem.Length
      modifies mem
      ensures mem[..] == Splice(old(mem[..]), at, RegBytes(old(Abs()), i))
    {
      if i < 8 {
        PutLong(at, d[i]);
      } else if i < 15 {
        PutPointer(at, a[i - 8]);
      } else {
        PutWord(at, if i == 15 then ccr else if i == 16 then ir else smr);
      }
    }

    /** MOVM -(ar),regs. */
    method MovmLoad(regs: seq<bool>, r: nat) returns (out: Out<nat>)
      requires Valid() && r < 8 && |regs| == REGS
      modifies this
      ensures Result(Abs(), out) == Restore(old(Abs()), Listed(regs, |regs|), r)
    {
      var eaddr := AddressOf(a[r]);
      if eaddr.IsFailure() {
        return Stopped(eaddr);
      }
      a := a[r := Moved(a[r], 0 - 4)];
      var size := TotalSize(regs);
      Steps(old(a)[r], size);
      a := a[r := Moved(a[r], 0 - Readjust(size))];
      Replaced(old(a), r, Moved(old(a)[r], 0 - 4), Moved(old(a)[r], 0 - Step(size)));
      assert mem[..] == old(mem[..]);
      assert Abs() == WithA(old(Abs()), r, Moved(old(a)[r], 0 - Step(size)));
      out := LoadAt(regs, Addr(eaddr.value.c, a[r].addr), size);
    }

    method LoadAt(regs: seq<bool>, p: Addr, size: nat) returns (out: Out<nat>)
      requires Valid() && |regs| == REGS && size == ListSize(Listed(regs, |regs|))
      modifies this
      ensures Result(Abs(), out) == RestoreAt(old(Abs()), Listed(regs, |regs|), p)
    {
      PrivilegedBits(regs);
      if (regs[16] || regs[17]) && !Bit(smr, SU) {
        return Fault(ePERM, pc);
      }
      out := Checked(p, size, READ);
      if out.Ok? {
        FetchRegs(regs, out.value);
        Restored(old(Abs()), Listed(regs, |regs|), p, out.value, Abs());
      }
    }

    method FetchRegs(regs: seq<bool>, at0: nat)
      requires Valid() && |regs| == REGS && at0 + ListSize(Listed(regs, |regs|)) <= mem.Length
      modifies this
      ensures Abs() == LoadRegs(old(Abs()), Listed(regs, |regs|), at0)
    {
      ghost var st := Abs();
      var at := at0;
      var i := 0;
      ListedGrows(regs, i);
      while i < |regs|
        invariant i <= |regs| && at == at0 + ListSize(Listed(regs, i)) <= mem.Length && mem.Length == |st.mem|
                  && mem[..] == st.mem
        invariant Abs() == Fetched(st, regs, i, at0)
      {
        ListedGrows(regs, i + 1);
        FetchedStep(st, regs, i, at0);
        if regs[i] {
          FetchReg(i, at);
          assert mem[..] == st.mem;
          at := at + RegSize(i);
        }
        i := i + 1;
      }
      FetchedAll(st, regs, at0);
    }

    method FetchReg(i: nat, at: nat)
      requires Wf(Abs()) && i < REGS && at + RegSize(i) <= mem.Length
      modifies this
      ensures Abs() == SetReg(old(Abs()), i, mem[..], at)
    {
      if i < 8 {
        d := d[i := Long(at)];
      } else if i < 15 {
        a := a[i - 8 := PointerHere(at)];
      } else if i == 15 {
        ccr := Word(at);
      } else if i == 16 {
        ir := Word(at);
      } else {
        smr := Word(at);
      }
    }

    // ----- arithmetic --------------------------------------------------------------

    /** OP EA,Dn with the argument read already: `uarg` its pattern. */
    method ToRegister(op: Operation, dreg: nat, uarg: nat)
      requires Valid() && dreg < 8
      modifies this`d, this`ccr
      ensures var r := Operate(op, old(d[dreg]) % P36, uarg, Decoded(old(ccr)));
              d == old(d)[dreg := if op == CMP then old(d[dreg]) else r.0] && ccr == WithFlags(old(ccr), r.1)
    {
      var uinput := d[dreg] % P36;
      var sinput, sarg := Sex(36, uinput), Sex(36, uarg);
      var c := if Bit(ccr, 2) then 1 else 0;
      match op
      case ADD => Swrite(dreg, sinput + sarg);
      case ADC => Uwrite(dreg, uinput + uarg + c);
      case SBC => Uwrite(dreg, uinput - uarg - c);
      case SUB => Subtract(dreg, uinput, uarg);
      case CMP => Compare(uinput, sinput, uarg, sarg);
    }

    method Subtract(dreg: nat, uinput: nat, uarg: nat)
      requires |d| == 8 && dreg < 8
      modifies this`d, this`ccr
      ensures d == old(d)[dreg := Alu.Sub(uinput, uarg).0]
      ensures ccr == WithFlags(old(ccr), Operate(SUB, uinput, uarg, Decoded(old(ccr))).1)
    {
      var sinput, sarg := Sex(36, uinput), Sex(36, uarg);
      FlagsRoundTrip(ccr, Alu.Swrite(sinput - sarg).1);
      Swrite(dreg, sinput - sarg);
      Compare(uinput, sinput, uarg, sarg);
    }

    method Uwrite(dreg: nat, n: int)
      requires |d| == 8 && dreg < 8
      modifies this`d, this`ccr
      ensures d == old(d)[dreg := Alu.Uwrite(n).0] && ccr == WithFlags(old(ccr), Alu.Uwrite(n).1)
    {
      ccr := WithFlags(ccr, Alu.Utest(36, n));
      d := d[dreg := Unsigned(36, n)];
    }

    method Swrite(dreg: nat, n: int)
      requires |d| == 8 && dreg < 8
      modifies this`d, this`ccr
      ensures d == old(d)[dreg := Alu.Swrite(n).0] && ccr == WithFlags(old(ccr), Alu.Swrite(n).1)
    {
      ccr := WithFlags(ccr, Alu.Stest(36, n));
      d := d[dreg := Signed(36, n)];
    }

    method Compare(uinput: nat, sinput: int, uarg: nat, sarg: int)
      requires sinput == Sex(36, uinput) && sarg == Sex(36, uarg)
      modifies this`ccr
      ensures ccr == WithFlags(old(ccr), Alu.Cmp(uinput, uarg, Decoded(old(ccr)).n))
    {
      var z := if uinput == sinput then uinput == uarg else sinput == sarg;
      ccr := WithFlags(ccr, Alu.Flags(z, uarg > uinput, sarg > sinput, Bit(ccr, 8)));
    }

    // ----- reading -----------------------------------------------------------------

    function Word(p: nat): (r: nat)
      requires p + 2 <= mem.Length
      reads mem
      ensures r == Uw(mem[..], p)
    {
      mem[p] * P9 + mem[p + 1]
    }

    function Long(p: nat): (r: nat)
      requires p + 4 <= mem.Length
      reads mem
      ensures r == Ul(mem[..], p)
    {
      Word(p) + Word(p + 2) * P18
    }

    function PointerHere(p: nat): (r: AReg)
      requires p + 6 <= mem.Length
      reads mem
      ensures r == PointerAt(mem[..], p) && r.addr < P36
    {
      AReg(Word(p), Long(p + 2))
    }

    /** CPU::addr. */
    function AddressOf(ar: AReg): (p: Out<Addr>)
      reads this, mem
      ensures p == AddrOf(Abs(), ar)
    {
      if ar.seg != FLAT && ar.seg >= |tab| then Fault(eFAULT, AReg(ar.seg, 0))
      else
        var c := if ar.seg == FLAT then CSeg(FLAT, VALID + SUPER + READ + WRITE + EXEC, mem.Length, 0)
                 else Fetch(tab[ar.seg], ar.seg);
        if ar.addr > c.len then Fault(eFAULT, AReg(c.seg, ar.addr))
        else if Bit(c.flags, SUPER) && !Bit(smr, SU) then Fault(ePERM, AReg(c.seg, ar.addr))
        else Ok(Addr(c, ar.addr))
    }

    /** Addr::access. */
    function Checked(p: Addr, n: nat, perm: nat): (at: Out<nat>)
      requires perm > 0
      reads this, mem
      ensures at == Access(Abs(), p, n, perm)
    {
      if (p.addr + n) % P64 > p.c.len then Fault(eFAULT, p.Reg())
      else if !Bit(p.c.flags, perm) then Fault(eACCES, p.Reg())
      else
        var i := if p.addr + n < P64 then p.c.base + p.addr else p.c.base + p.addr - P64;
        if 0 <= i && i + n <= mem.Length then Ok(i) else Wild
    }

    method TotalSize(regs: seq<bool>) returns (size: nat)
      requires |regs| == REGS
      ensures size == ListSize(Listed(regs, |regs|))
    {
      size := 0;
      var i := 0;
      while i < |regs|
        invariant i <= |regs| && size == ListSize(Listed(regs, i))
      {
        if regs[i] {
          SizeAppend(Listed(regs, i), i);
          size := size + RegSize(i);
        }
        i := i + 1;
      }
    }
  }

  // ----- lists of registers ------------------------------------------------------------

  function Stopped<T>(o: Out<T>): Out<nat>
    requires o.IsFailure()
  {
    match o
    case Fault(t, at) => Fault(t, at)
    case _ => Wild
  }

  /** A load that was let through. */
  lemma {:induction false} Restored(st: State, rs: seq<nat>, p: Addr, at: nat, st': State)
    requires Wf(st) && Registers(rs) && (Privileged(rs) ==> Super(st)) && Access(st, p, ListSize(rs), READ) == Ok(at)
    requires st' == LoadRegs(st, rs, at)
    ensures RestoreAt(st, rs, p) == Result(st', Ok(at))
  {
  }

  /** A store that was let through. */
  lemma {:induction false} Saved(st: State, rs: seq<nat>, p: Addr, at: nat, st': State)
    requires Wf(st) && Registers(rs) && (Privileged(rs) ==> Super(st)) && Access(st, p, ListSize(rs), WRITE) == Ok(at)
    requires st' == st.(mem := Splice(st.mem, at, ListBytes(st, rs)))
    ensures SaveAt(st, rs, p) == Result(st', Ok(at))
  {
  }

  lemma {:induction false} SameRegister(st: State, m: seq<Byte>, i: nat)
    requires Wf(st) && i < REGS
    ensures RegBytes(st.(mem := m), i) == RegBytes(st, i)
  {
  }

  lemma {:induction false} SizeListed(regs: seq<bool>, i: nat)
    requires i < |regs|
    ensures ListSize(Listed(regs, i + 1)) == ListSize(Listed(regs, i)) + if regs[i] then RegSize(i) else 0
  {
    SizeAppend(Listed(regs, i), i);
  }

  /** Memory after the first `i` turns of the storing loop. */
  function StoredBytes(st: State, regs: seq<bool>, i: nat, p: nat): (m: seq<Byte>)
    requires Wf(st) && i <= |regs| <= REGS && p + ListSize(Listed(regs, i)) <= |st.mem|
    ensures |m| == |st.mem|
  {
    if i == 0 then st.mem
    else
      SizeListed(regs, i - 1);
      var m := StoredBytes(st, regs, i - 1, p);
      if regs[i - 1] then Splice(m, p + ListSize(Listed(regs, i - 1)), RegBytes(st, i - 1)) else m
  }

  lemma {:induction false} StoredStep(st: State, regs: seq<bool>, i: nat, p: nat)
    requires Wf(st) && i < |regs| <= REGS && p + ListSize(Listed(regs, i + 1)) <= |st.mem|
    ensures ListSize(Listed(regs, i + 1)) == ListSize(Listed(regs, i)) + if regs[i] then RegSize(i) else 0
    ensures var m := StoredBytes(st, regs, i, p);
            StoredBytes(st, regs, i + 1, p) == if regs[i] then Splice(m, p + ListSize(Listed(regs, i)), RegBytes(st, i))
                else m
  {
    SizeListed(regs, i);
  }

  lemma {:induction false} StoredIs(st: State, regs: seq<bool>, i: nat, p: nat)
    requires Wf(st) && i <= |regs| <= REGS && p + ListSize(Listed(regs, i)) <= |st.mem|
    ensures StoredBytes(st, regs, i, p) == Splice(st.mem, p, ListBytes(st, Listed(regs, i)))
    decreases i
  {
    if i == 0 {
      assert Splice(st.mem, p, []) == st.mem;
    } else {
      SizeListed(regs, i - 1);
      StoredIs(st, regs, i - 1, p);
      StoredNext(st, regs, i - 1, p);
    }
  }

  lemma {:induction false} StoredNext(st: State, regs: seq<bool>, i: nat, p: nat)
    requires Wf(st) && i < |regs| <= REGS && p + ListSize(Listed(regs, i + 1)) <= |st.mem|
             && p + ListSize(Listed(regs, i)) <= |st.mem|
    requires StoredBytes(st, regs, i, p) == Splice(st.mem, p, ListBytes(st, Listed(regs, i)))
    ensures StoredBytes(st, regs, i + 1, p) == Splice(st.mem, p, ListBytes(st, Listed(regs, i + 1)))
  {
    if regs[i] {
      SizeListed(regs, i);
      ListAppend(st, Listed(regs, i), i);
      Extend(st.mem, p, ListBytes(st, Listed(regs, i)), RegBytes(st, i));
    }
  }

  lemma {:induction false} StoredAll(st: State, regs: seq<bool>, p: nat)
    requires Wf(st) && |regs| <= REGS && p + ListSize(Listed(regs, |regs|)) <= |st.mem|
    ensures ListSize(Listed(regs, |regs|)) == ListSize(Listed(regs, |regs|))
    ensures StoredBytes(st, regs, |regs|, p) == Splice(st.mem, p, ListBytes(st, Listed(regs, |regs|)))
  {
    StoredIs(st, regs, |regs|, p);
  }

  /** The machine after the first `i` turns of the fetching loop. */
  function Fetched(st: State, regs: seq<bool>, i: nat, p: nat): (r: State)
    requires Wf(st) && i <= |regs| <= REGS && p + ListSize(Listed(regs, i)) <= |st.mem|
    ensures Wf(r)
  {
    if i == 0 then st
    else
      SizeListed(regs, i - 1);
      var r := Fetched(st, regs, i - 1, p);
      if regs[i - 1] then SetReg(r, i - 1, st.mem, p + ListSize(Listed(regs, i - 1))) else r
  }

  lemma {:induction false} FetchedStep(st: State, regs: seq<bool>, i: nat, p: nat)
    requires Wf(st) && i < |regs| <= REGS && p + ListSize(Listed(regs, i + 1)) <= |st.mem|
    ensures ListSize(Listed(regs, i + 1)) == ListSize(Listed(regs, i)) + if regs[i] then RegSize(i) else 0
    ensures var r := Fetched(st, regs, i, p);
            Fetched(st, regs, i + 1, p) == if regs[i] then SetReg(r, i, st.mem, p + ListSize(Listed(regs, i))) else r
  {
    SizeListed(regs, i);
  }

  lemma {:induction false} FetchedNext(st: State, regs: seq<bool>, i: nat, p: nat)
    requires Wf(st) && i < |regs| <= REGS && p + ListSize(Listed(regs, i + 1)) <= |st.mem|
             && p + ListSize(Listed(regs, i)) <= |st.mem|
    requires Fetched(st, regs, i, p) == LoadRegs(st, Listed(regs, i), p)
    ensures Fetched(st, regs, i + 1, p) == LoadRegs(st, Listed(regs, i + 1), p)
  {
    FetchedStep(st, regs, i, p);
    if regs[i] {
      LoadAppend(st, Listed(regs, i), i, p);
    }
  }

  lemma {:induction false} FetchedIs(st: State, regs: seq<bool>, i: nat, p: nat)
    requires Wf(st) && i <= |regs| <= REGS && p + ListSize(Listed(regs, i)) <= |st.mem|
    ensures Fetched(st, regs, i, p) == LoadRegs(st, Listed(regs, i), p)
    decreases i
  {
    if i > 0 {
      SizeAppend(Listed(regs, i - 1), i - 1);
      FetchedIs(st, regs, i - 1, p);
      FetchedNext(st, regs, i - 1, p);
    }
  }

  lemma {:induction false} FetchedAll(st: State, regs: seq<bool>, p: nat)
    requires Wf(st) && |regs| <= REGS && p + ListSize(Listed(regs, |regs|)) <= |st.mem|
    ensures ListSize(Listed(regs, |regs|)) == ListSize(Listed(regs, |regs|))
    ensures Fetched(st, regs, |regs|, p) == LoadRegs(st, Listed(regs, |regs|), p)
  {
    FetchedIs(st, regs, |regs|, p);
  }

  /** The two steps of an address register past its list, forwards and back. */
  lemma {:induction false} Steps(ar: AReg, size: nat)
    ensures Moved(Moved(ar, 4), Readjust(size)) == Moved(ar, Step(size))
    ensures Moved(Moved(ar, 0 - 4), 0 - Readjust(size)) == Moved(ar, 0 - Step(size))
  {
    MovedTwice(ar, 4, Readjust(size));
    MovedTwice(ar, 0 - 4, 0 - Readjust(size));
  }

  lemma {:induction false} Replaced<T>(s: seq<T>, i: nat, x: T, y: T)
    requires i < |s|
    ensures s[i := x][i := y] == s[i := y]
  {
  }

  lemma {:induction false} MovedTwice(ar: AReg, m: int, n: int)
    ensures Moved(Moved(ar, m), n) == Moved(ar, m + n)
  {
    var q, r := (ar.addr + m) / P64, (ar.addr + m) % P64;
    assert ar.addr + m == q * P64 + r;
    var q2, r2 := (r + n) / P64, (r + n) % P64;
    assert r + n == q2 * P64 + r2;
    assert ar.addr + m + n == (q + q2) * P64 + r2;
    DivUnique(ar.addr + m + n, P64, q + q2, r2);
  }

  lemma {:induction false} LoadAppend(st: State, rs: seq<nat>, i: nat, p: nat)
    requires Wf(st) && i < REGS && (forall k :: 0 <= k < |rs| ==> rs[k] < REGS)
             && p + ListSize(rs) + RegSize(i) <= |st.mem|
    ensures ListSize(rs + [i]) == ListSize(rs) + RegSize(i)
    ensures LoadRegs(st, rs + [i], p) == SetReg(LoadRegs(st, rs, p), i, st.mem, p + ListSize(rs))
    decreases |rs|
  {
    SizeAppend(rs, i);
    if |rs| == 0 {
      assert rs + [i] == [i];
      LoadOne(st, i, p);
    } else {
      var all, rest := rs + [i], rs[1..];
      assert all[0] == rs[0] && all[1..] == rest + [i];
      LoadAppend(SetReg(st, rs[0], st.mem, p), rest, i, p + RegSize(rs[0]));
    }
  }

  lemma {:induction false} LoadOne(st: State, i: nat, p: nat)
    requires Wf(st) && i < REGS && p + RegSize(i) <= |st.mem| && ListSize([i]) == RegSize(i)
    ensures LoadRegs(st, [i], p) == SetReg(st, i, st.mem, p)
  {
    var s := SetReg(st, i, st.mem, p);
    assert [i][1..] == [] && LoadRegs(s, [], p + RegSize(i)) == s;
  }

  /** Fewer bits measure no more. */
  lemma {:induction false} ListedGrows(regs: seq<bool>, i: nat)
    requires i <= |regs|
    ensures ListSize(Listed(regs, i)) <= ListSize(Listed(regs, |regs|))
    decreases |regs| - i
  {
    if i < |regs| {
      ListedGrows(regs, i + 1);
      if regs[i] {
        SizeAppend(Listed(regs, i), i);
      }
    }
  }

  /** Bits 16 and 17 are what makes a list privileged. */
  lemma {:induction false} PrivilegedBits(regs: seq<bool>)
    requires |regs| == REGS
    ensures Privileged(Listed(regs, |regs|)) <==> regs[16] || regs[17]
  {
    ListedExactly(regs, |regs|);
  }
}
