/** The processor of cpu.cc on values: registers, address translation through the
    current segment table, checked access to byte memory, and the decoding of
    effective addresses. */
module Cpu {
  import opened Codec
  import opened Kernel
  import opened Memory

  /** An address register: 18-bit segment, 36-bit offset held in 64 bits. */
  datatype AReg = AReg(seg: nat, addr: nat)

  datatype Cause = eFAULT | eINVAL | ePERM | eACCES

  /** The result of a step: a value, a fault, or an access outside the host's
      memory, about which nothing is said. */
  datatype Out<+T> = Ok(value: T) | Fault(trap: Cause, at: AReg) | Wild {
    predicate IsFailure() {
      !Ok?
    }

    function PropagateFailure<U>(): Out<U>
      requires IsFailure()
    {
      match this
      case Fault(t, at) => Fault(t, at)
      case _ => Wild
    }

    function Extract(): T
      requires Ok?
    {
      value
    }
  }

  const SU: nat := 1

  datatype State = State(
    pc: AReg,
    d: seq<nat>,
    a: seq<AReg>,
    ssp: AReg,
    ccr: nat,
    ir: nat,
    smr: nat,
    tab: seq<Desc>,
    mem: seq<Byte>)

  predicate Wf(st: State) {
    && |st.d| == 8 && |st.a| == 8
    && st.pc.addr < P64 && forall i :: 0 <= i < 8 ==> st.a[i].addr < P64
  }

  predicate Super(st: State) {
    Bit(st.smr, SU)
  }

  // ----- addresses -----------------------------------------------------------

  /** A checked address: a descriptor and an offset (CPU::Addr). */
  datatype Addr = Addr(c: CSeg, addr: nat) {
    function Reg(): AReg {
      AReg(c.seg, addr)
    }

    /** Addition modulo 2^64. */
    function Plus(n: int): Addr {
      Addr(c, (addr + n) % P64)
    }
  }

  lemma {:induction false} PlusPlus(p: Addr, a: int, b: int)
    ensures p.Plus(a).Plus(b) == p.Plus(a + b)
  {
    var q := (p.addr + a) / P64;
    assert p.addr + a == q * P64 + (p.addr + a) % P64;
    assert (p.addr + a + b) % P64 == ((p.addr + a) % P64 + b) % P64;
  }

  /** CPU::seg: what the current table says. */
  function Resolve(st: State, segno: nat): Out<CSeg> {
    if segno == FLAT then Ok(CSeg(FLAT, VALID + SUPER + READ + WRITE + EXEC, |st.mem|, 0))
    else if segno < |st.tab| then Ok(Fetch(st.tab[segno], segno))
    else Fault(eFAULT, AReg(segno, 0))
  }

  /** CPU::addr. */
  function AddrOf(st: State, ar: AReg): Out<Addr> {
    var c :- Resolve(st, ar.seg);
    if ar.addr > c.len then Fault(eFAULT, AReg(c.seg, ar.addr))
    else if Bit(c.flags, SUPER) && !Super(st) then Fault(ePERM, AReg(c.seg, ar.addr))
    else Ok(Addr(c, ar.addr))
  }

  /** Addr::access followed by the use of `n` bytes: their place in memory. */
  function Access(st: State, p: Addr, n: nat, perm: nat): (r: Out<nat>)
    requires perm > 0
    ensures r.Ok? ==> r.value + n <= |st.mem|
  {
    if (p.addr + n) % P64 > p.c.len then Fault(eFAULT, p.Reg())
    else if !Bit(p.c.flags, perm) then Fault(eACCES, p.Reg())
    else
      var at := if p.addr + n < P64 then p.c.base + p.addr else p.c.base + p.addr - P64;
      if 0 <= at && at + n <= |st.mem| then Ok(at) else Wild
  }

  /** The place of an access depends on the table and the size of memory alone. */
  lemma {:induction false} SamePlace(st: State, st2: State, ar: AReg, n: nat, perm: nat, perm2: nat)
    requires st2.tab == st.tab && |st2.mem| == |st.mem| && perm > 0 && perm2 > 0
    requires AddrOf(st, ar).Ok? && Access(st, AddrOf(st, ar).value, n, perm).Ok?
    requires AddrOf(st2, ar).Ok? && Access(st2, AddrOf(st2, ar).value, n, perm2).Ok?
    ensures AddrOf(st2, ar) == AddrOf(st, ar)
    ensures Access(st2, AddrOf(st2, ar).value, n, perm2) == Access(st, AddrOf(st, ar).value, n, perm)
  {
  }

  /** A stored segment address: segment word, then offset long. */
  function PointerAt(m: seq<Byte>, p: nat): AReg
    requires p + 6 <= |m|
  {
    AReg(Uw(m, p), Ul(m, p + 2))
  }

  function PointerBytes(ar: AReg): (b: seq<Byte>)
    ensures |b| == 6
  {
    WordBytes(ar.seg) + LongBytes(ar.addr)
  }

  lemma {:induction false} PointerRoundTrip(m: seq<Byte>, p: nat, ar: AReg)
    requires p + 6 <= |m|
    ensures PointerAt(Splice(m, p, PointerBytes(ar)), p) == AReg(ar.seg % P18, ar.addr % P36)
  {
    var m' := Splice(m, p, PointerBytes(ar));
    assert m' == Splice(Splice(m, p, WordBytes(ar.seg)), p + 2, LongBytes(ar.addr));
    SpliceLong(Splice(m, p, WordBytes(ar.seg)), p + 2, ar.addr);
    SpliceWord(m, p, ar.seg);
    WordElsewhere(Splice(m, p, WordBytes(ar.seg)), LongBytes(ar.addr), p + 2, p);
  }

  /** The pointer read of the memory-indirect modes. */
  function Deref(st: State, p: Addr): Out<Addr> {
    var at :- Access(st, p, 6, READ);
    AddrOf(st, PointerAt(st.mem, at))
  }

  // ----- effective addresses -----------------------------------------------------

  /** What an operand designates: a data register at some width, an address register
      (which no EA field can say), a number, or `size` bytes at an address. */
  datatype Target = InReg(r: nat, bits: nat) | InAddressReg(r: nat) | Literal(value: int) | At(p: Addr, size: nat)

  /** A decoded operand, the address registers after its side effect, and the
      place of the next instruction word. */
  datatype Operand = Operand(target: Target, a: seq<AReg>, next: Addr)

  function Bits(easz: nat): nat {
    if easz == 0 then 9 else if easz == 1 then 18 else 36
  }

  function Size(easz: nat): nat {
    if easz == 0 then 1 else if easz == 1 then 2 else 4
  }

  /** A number as memory holds it at each size code. */
  function Unit(easz: nat, n: int): (b: seq<Byte>) {
    if easz == 0 then [n % P9] else if easz == 1 then WordBytes(n) else LongBytes(n)
  }

  /** An operand takes the bytes of such a number, and a register nine bits for each. */
  lemma {:induction false} SizeOfUnit(easz: nat, n: int)
    ensures Size(easz) == |Unit(easz, n)| && Bits(easz) == 9 * |Unit(easz, n)|
  {
  }

  function FetchWord(st: State, ip: Addr): Out<(nat, Addr)> {
    var at :- Access(st, ip, 2, EXEC);
    Ok((Uw(st.mem, at), ip.Plus(2)))
  }

  function FetchLong(st: State, ip: Addr): Out<(nat, Addr)> {
    var at :- Access(st, ip, 4, EXEC);
    Ok((Ul(st.mem, at), ip.Plus(4)))
  }

  function FetchPointer(st: State, ip: Addr): Out<(AReg, Addr)> {
    var at :- Access(st, ip, 6, EXEC);
    Ok((PointerAt(st.mem, at), ip.Plus(6)))
  }

  /** Base register 8 stands for the program counter. */
  function Base(st: State, ereg: nat): AReg
    requires Wf(st) && ereg <= 8
  {
    if ereg < 8 then st.a[ereg] else st.pc
  }

  /** The six-bit EA field with its size, the CPU being about to read the word at
      `ip`. */
  function Decode(st: State, ea: nat, easz: nat, ip: Addr): Out<Operand>
    requires Wf(st) && ea < 64 && easz < 4
  {
    var reg := ea % 8;
    if easz == 3 then Ok(Operand(Literal(Sex(36, Signed(36, Sex(6, ea)))), st.a, ip))
    else match ea / 8
      case 0 => Ok(Operand(InReg(reg, Bits(easz)), st.a, ip))
      case 1 =>
        var p :- AddrOf(st, st.a[reg]);
        Ok(Operand(At(p, Size(easz)), st.a, ip))
      case 2 =>
        var p :- AddrOf(st, st.a[reg]);
        Ok(Operand(At(p, Size(easz)), st.a[reg := Moved(st.a[reg], Size(easz))], ip))
      case 3 =>
        var p :- AddrOf(st, st.a[reg]);
        Ok(Operand(At(p.Plus(0 - Size(easz)), Size(easz)), st.a[reg := Moved(st.a[reg], 0 - Size(easz))], ip))
      case 4 =>
        var (w, next) :- FetchWord(st, ip);
        var p :- AddrOf(st, st.a[reg]);
        Ok(Operand(At(p.Plus(Sex(18, w)), Size(easz)), st.a, next))
      case 5 =>
        var (w, next) :- FetchWord(st, ip);
        var p :- AddrOf(st, AReg(st.a[reg].seg, w));
        Ok(Operand(At(p, Size(easz)), st.a, next))
      case 6 => DecodeExtended(st, reg, easz, ip)
      case _ => DecodeSpecial(st, reg, easz, ip)
  }

  /** Modes 7:r: immediate, absolute, and relative to the program counter. */
  function DecodeSpecial(st: State, reg: nat, easz: nat, ip: Addr): Out<Operand>
    requires Wf(st)
  {
    if reg == 1 then
      if easz == 2 then
        var (l, next) :- FetchLong(st, ip);
        Ok(Operand(Literal(Sex(36, l)), st.a, next))
      else
        var (w, next) :- FetchWord(st, ip);
        Ok(Operand(Literal(Sex(Bits(easz), w)), st.a, next))
    else if reg == 2 then
      var (ptr, next) :- FetchPointer(st, ip);
      var p :- AddrOf(st, ptr);
      Ok(Operand(At(p, Size(easz)), st.a, next))
    else if reg == 0 then DecodeExtended(st, 8, easz, ip)
    else Fault(eINVAL, st.pc)
  }

  function Moved(ar: AReg, n: int): AReg {
    AReg(ar.seg, (ar.addr + n) % P64)
  }

  /** Modes 6 and 7:0, with an extension word. */
  function DecodeExtended(st: State, ereg: nat, easz: nat, ip: Addr): Out<Operand>
    requires Wf(st) && ereg <= 8
  {
    var (ext, ip1) :- FetchWord(st, ip);
    var index := if Bit(ext, 0x2_0000) then Sex(36, st.d[ext / 0x200 % 8]) * Scale(ext / 0x1000 % 4) else 0;
    var small := Sex(9, ext % 0x200);
    var long := ext / 0x8000 > 1;
    var more := long && Bit(ext, 0x4000);
    var (w, ip2) :- if more then FetchWord(st, ip1) else Ok((0, ip1));
    var offset := if more then Sex(18, w) else if long then 0 else small;
    var disp := if long then small else 0;
    Landed(FormAddress(st, ereg, Bit(ext, 0x8000), ext / 0x8000 == 7, offset, index, disp), easz, st.a, ip2)
  }

  /** Base, offset, index and displacement, with the pointer read of the memory
      indirect modes before (pre-index) or after (post-index) the index is added. */
  function FormAddress(st: State, ereg: nat, memory: bool, post: bool, offset: int, index: int, disp: int): Out<Addr>
    requires Wf(st) && ereg <= 8
  {
    var p :- AddrOf(st, Base(st, ereg));
    if !memory then Ok(p.Plus(offset).Plus(index).Plus(disp))
    else if post then
      var q :- Deref(st, p.Plus(offset).Plus(index));
      Ok(q.Plus(disp))
    else
      var q :- Deref(st, p.Plus(offset));
      Ok(q.Plus(disp + index))
  }

  function Landed(p: Out<Addr>, easz: nat, a: seq<AReg>, next: Addr): Out<Operand> {
    var q :- p;
    Ok(Operand(At(q, Size(easz)), a, next))
  }

  function Scale(s: nat): nat {
    if s == 0 then 1 else if s == 1 then 2 else if s == 2 then 4 else 8
  }
}
