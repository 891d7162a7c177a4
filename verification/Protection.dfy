/** What user mode can reach: the address and access tests of cpu.cc, every decoded
    operand and every stack instruction against the segment tables. */
module Protection {
  import opened Codec
  import opened Heap
  import opened Kernel
  import opened KernelInv
  import opened Memory
  import opened Cpu
  import opened Movm
  import opened Stack
  import Isolation
  import Context

  // ----- the tests -----------------------------------------------------------------

  /** The segment number has a descriptor: one of the table, or the flat one. */
  predicate Present(st: State, seg: nat) {
    seg == FLAT || seg < |st.tab|
  }

  function Length(st: State, seg: nat): nat
    requires Present(st, seg)
  {
    if seg == FLAT then |st.mem| else st.tab[seg].size
  }

  predicate SuperOnly(st: State, seg: nat)
    requires Present(st, seg)
  {
    seg == FLAT || Bit(st.tab[seg].flags, SUPER)
  }

  /** CPU::addr, outcome by outcome: it accepts exactly addresses up to the end of a
      segment that there is, and those of a supervisor segment only in that mode. */
  lemma {:induction false} AddressTest(st: State, ar: AReg)
    ensures var o, inside := AddrOf(st, ar), Present(st, ar.seg) && ar.addr <= Length(st, ar.seg);
            && (o.Ok? <==> inside && (SuperOnly(st, ar.seg) ==> Super(st)))
            && (o.Fault? && o.trap == ePERM <==> inside && SuperOnly(st, ar.seg) && !Super(st))
            && (o.Fault? && o.trap == eFAULT <==> !inside)
            && (o.Ok? ==> o.value.c.seg == ar.seg && o.value.addr == ar.addr
                          && (ar.seg != FLAT ==> o.value.c == Fetch(st.tab[ar.seg], ar.seg))
                          && (ar.seg == FLAT ==> Flat(st, o.value.c)))
  {
    FlatBits();
  }

  /** The flat segment is all of memory, with every permission. */
  predicate Flat(st: State, c: CSeg) {
    c.base == 0 && c.len == |st.mem| && Bit(c.flags, SUPER) && Bit(c.flags, READ) && Bit(c.flags, WRITE)
        && Bit(c.flags, EXEC)
  }

  lemma {:induction false} FlatBits()
    ensures var f := VALID + SUPER + READ + WRITE + EXEC;
            Bit(f, SUPER) && Bit(f, READ) && Bit(f, WRITE) && Bit(f, EXEC)
  {
  }

  /** The pointer read of the memory-indirect modes takes the READ permission and six
      bytes, and follows the pointer that stands there. */
  lemma {:induction false} DerefTest(st: State, p: Addr, ar: AReg)
    requires Isolation.Passes(p.c, p.addr, 6, READ) && p.addr + 6 < P64 && ar.seg < P18 && ar.addr < P36
    requires p.c.base + p.addr >= 0 && Stands(st.mem, p.c.base + p.addr, PointerBytes(ar))
    ensures Deref(st, p) == AddrOf(st, ar)
  {
    PlainAccess(st, p, 6, READ);
    PointerThere(st.mem, p.c.base + p.addr, ar);
    Unreduced(ar.seg, P18);
    Unreduced(ar.addr, P36);
  }

  lemma {:induction false} Unreduced(n: nat, d: nat)
    requires n < d
    ensures n % d == n
  {
  }

  lemma {:induction false} PlainAccess(st: State, p: Addr, n: nat, perm: nat)
    requires perm > 0 && Isolation.Passes(p.c, p.addr, n, perm) && p.addr + n < P64
    requires 0 <= p.c.base + p.addr && p.c.base + p.addr + n <= |st.mem|
    ensures Access(st, p, n, perm) == Ok(p.c.base + p.addr)
  {
  }

  lemma {:induction false} DerefRefused(st: State, p: Addr)
    requires !Isolation.Passes(p.c, p.addr, 6, READ)
    ensures Deref(st, p) == Fault(if (p.addr + 6) % P64 > p.c.len then eFAULT else eACCES, p.Reg())
  {
  }

  /** Addr::access: it passes exactly on the test of length and permission, and then
      lands where that arithmetic puts it. */
  lemma {:induction false} AccessTest(st: State, p: Addr, n: nat, perm: nat)
    requires perm > 0
    ensures var o := Access(st, p, n, perm);
            && (o.Fault? <==> !Isolation.Passes(p.c, p.addr, n, perm))
            && (o.Ok? ==> o.value == Isolation.Phys(p.c, p.addr, n))
            && (o.Fault? ==> o.trap == if (p.addr + n) % P64 > p.c.len then eFAULT else eACCES)
  {
  }

  // ----- what user mode decodes ---------------------------------------------------------

  /** A descriptor of the table that is not for the supervisor alone. */
  predicate UserDesc(st: State, c: CSeg) {
    c.seg != FLAT && c.seg < |st.tab| && c == Fetch(st.tab[c.seg], c.seg) && !Bit(c.flags, SUPER)
  }

  lemma {:induction false} UserAddress(st: State, ar: AReg)
    requires !Super(st) && AddrOf(st, ar).Ok?
    ensures UserDesc(st, AddrOf(st, ar).value.c) && AddrOf(st, ar).value.c.seg == ar.seg
    ensures AddrOf(st, ar).value.addr == ar.addr
  {
    AddressTest(st, ar);
  }

  lemma {:induction false} UserDeref(st: State, p: Addr)
    requires !Super(st) && Deref(st, p).Ok?
    ensures UserDesc(st, Deref(st, p).value.c)
  {
    UserAddress(st, PointerAt(st.mem, Access(st, p, 6, READ).value));
  }

  /** An address through such a descriptor. */
  predicate UserPointer(st: State, p: Addr) {
    UserDesc(st, p.c) && p.addr < P64
  }

  lemma {:induction false} UserForm(st: State, ereg: nat, memory: bool, post: bool, offset: int, index: int, disp: int)
    requires Wf(st) && ereg <= 8 && !Super(st) && FormAddress(st, ereg, memory, post, offset, index, disp).Ok?
    ensures UserPointer(st, FormAddress(st, ereg, memory, post, offset, index, disp).value)
  {
    UserAddress(st, Base(st, ereg));
    var p := AddrOf(st, Base(st, ereg)).value;
    if memory {
      UserDeref(st, if post then p.Plus(offset).Plus(index) else p.Plus(offset));
    }
  }

  lemma {:induction false} UserExtended(st: State, ereg: nat, easz: nat, ip: Addr)
    requires Wf(st) && ereg <= 8 && !Super(st) && DecodeExtended(st, ereg, easz, ip).Ok?
    ensures var o := DecodeExtended(st, ereg, easz, ip).value; o.target.At? && UserPointer(st, o.target.p)
  {
    var (ext, ip1) := FetchWord(st, ip).value;
    var index := if Bit(ext, 0x2_0000) then Sex(36, st.d[ext / 0x200 % 8]) * Scale(ext / 0x1000 % 4) else 0;
    var small := Sex(9, ext % 0x200);
    var long := ext / 0x8000 > 1;
    var more := long && Bit(ext, 0x4000);
    var offset := if more then Sex(18, FetchWord(st, ip1).value.0) else if long then 0 else small;
    UserForm(st, ereg, Bit(ext, 0x8000), ext / 0x8000 == 7, offset, index, if long then small else 0);
  }

  /** Every memory operand that user mode decodes, pointers in memory included, lies in
      a segment of the table that is open to it. */
  lemma {:induction false} UserOperand(st: State, ea: nat, easz: nat, ip: Addr)
    requires Wf(st) && ea < 64 && easz < 4 && !Super(st)
    requires Decode(st, ea, easz, ip).Ok? && Decode(st, ea, easz, ip).value.target.At?
    ensures UserPointer(st, Decode(st, ea, easz, ip).value.target.p)
  {
    if ea / 8 == 6 {
      UserExtended(st, ea % 8, easz, ip);
    } else if ea / 8 == 7 {
      UserSpecial(st, ea % 8, easz, ip);
    } else if ea / 8 == 5 {
      UserAddress(st, AReg(st.a[ea % 8].seg, FetchWord(st, ip).value.0));
    } else {
      UserAddress(st, st.a[ea % 8]);
    }
  }

  lemma {:induction false} UserSpecial(st: State, reg: nat, easz: nat, ip: Addr)
    requires Wf(st) && !Super(st) && DecodeSpecial(st, reg, easz, ip).Ok?
    requires DecodeSpecial(st, reg, easz, ip).value.target.At?
    ensures UserPointer(st, DecodeSpecial(st, reg, easz, ip).value.target.p)
  {
    if reg == 0 {
      UserExtended(st, 8, easz, ip);
    } else {
      UserAddress(st, FetchPointer(st, ip).value.0);
    }
  }

  /** The five field values without a mode are invalid, and no other is. */
  lemma {:induction false} ReservedFields(st: State, ea: nat, easz: nat, ip: Addr)
    requires Wf(st) && ea < 64 && easz < 4
    ensures Invalid(Decode(st, ea, easz, ip)) <==> easz < 3 && 0x3B <= ea
  {
    if easz < 3 && ea / 8 == 6 {
      ExtendedValid(st, ea % 8, easz, ip);
    } else if easz < 3 && ea / 8 == 7 {
      SpecialInvalid(st, ea % 8, easz, ip);
    } else {
      PlainValid(st, ea, easz, ip);
    }
  }

  lemma {:induction false} PlainValid(st: State, ea: nat, easz: nat, ip: Addr)
    requires Wf(st) && ea < 64 && easz < 4 && (easz == 3 || ea < 48)
    ensures !Invalid(Decode(st, ea, easz, ip))
  {
  }

  lemma {:induction false} SpecialInvalid(st: State, reg: nat, easz: nat, ip: Addr)
    requires Wf(st) && reg < 8
    ensures Invalid(DecodeSpecial(st, reg, easz, ip)) <==> reg >= 3
  {
    if reg == 0 {
      ExtendedValid(st, 8, easz, ip);
    }
  }

  predicate Invalid<T>(o: Out<T>) {
    o.Fault? && o.trap == eINVAL
  }

  lemma {:induction false} ExtendedValid(st: State, ereg: nat, easz: nat, ip: Addr)
    requires Wf(st) && ereg <= 8
    ensures !Invalid(DecodeExtended(st, ereg, easz, ip))
  {
  }

  // ----- what user mode does ---------------------------------------------------------------

  /** The instructions that use the stack or memory: calls, frames, register lists, and
      a store to any operand. */
  datatype Insn =
    | Bsr(next: nat, dest: nat)
    | Jsr(next: nat, target: AReg)
    | Pea(next: nat, target: AReg)
    | Rts
    | Link(l: nat, n: int, next: nat)
    | Unlk(l: nat, next: nat)
    | Rte
    | MovmStore(rs: seq<nat>, r: nat)
    | MovmLoad(rs: seq<nat>, r: nat)
    | Store(ea: nat, easz: nat, ip: Addr, bytes: seq<Byte>)

  ghost predicate InsnOk(i: Insn) {
    match i
    case Bsr(_, dest) => dest < P64
    case Jsr(_, target) => target.addr < P64
    case Pea(next, target) => next < P64 && target.addr < P64
    case Link(l, _, next) => l < 8 && next < P64
    case Unlk(l, next) => l < 8 && next < P64
    case MovmStore(rs, r) => r < 8 && IsList(rs) && |rs| > 0
    case MovmLoad(rs, r) => r < 8 && IsList(rs) && |rs| > 0
    case Store(ea, easz, _, bytes) => ea < 64 && easz < 4 && |bytes| == Size(easz)
    case Rts => true
    case Rte => true
  }

  /** A store to a memory operand. */
  function StoreTo(st: State, ea: nat, easz: nat, ip: Addr, bytes: seq<Byte>): (r: Result)
    requires Wf(st) && ea < 64 && easz < 4
  {
    var o := Decode(st, ea, easz, ip);
    if o.IsFailure() then Failed(st, o)
    else if !o.value.target.At? then Result(st, Fault(eINVAL, st.pc))
    else
      var at := Access(st, o.value.target.p, |bytes|, WRITE);
      if at.IsFailure() then Failed(st, at)
      else Result(st.(mem := Splice(st.mem, at.value, bytes), a := o.value.a), at)
  }

  ghost function Perform(i: Insn, st: State): Result
    requires Wf(st) && InsnOk(i)
  {
    match i
    case Bsr(next, dest) => Stack.Bsr(st, next, dest)
    case Jsr(next, target) => Stack.Jsr(st, next, target)
    case Pea(next, target) => Stack.Pea(st, next, target)
    case Rts => Stack.Rts(st)
    case Link(l, n, next) => Stack.Link(st, l, n, next)
    case Unlk(l, next) => Stack.Unlk(st, l, next)
    case Rte => Stack.Rte(st)
    case MovmStore(rs, r) => Save(st, rs, r)
    case MovmLoad(rs, r) => Restore(st, rs, r)
    case Store(ea, easz, ip, bytes) => StoreTo(st, ea, easz, ip, bytes)
  }

  /** The bytes an instruction moves, and the permission it needs. */
  function Moves(i: Insn): nat {
    match i
    case Rte => FRAME
    case MovmStore(rs, _) => ListSize(rs)
    case MovmLoad(rs, _) => ListSize(rs)
    case Store(_, _, _, bytes) => |bytes|
    case _ => 6
  }

  predicate Writes(i: Insn) {
    i.Bsr? || i.Jsr? || i.Pea? || i.Link? || i.MovmStore? || i.Store?
  }

  /** An access of user mode: through an open segment of the table whose flags allow it,
      at the place its arithmetic gives. */
  predicate UserAccess(st: State, c: CSeg, addr: nat, n: nat, perm: nat, at: nat)
    requires perm > 0
  {
    UserDesc(st, c) && addr < P64 && Isolation.Passes(c, addr, n, perm) && at == Isolation.Phys(c, addr, n)
  }

  ghost predicate UserPlace(st: State, n: nat, perm: nat, at: nat)
    requires perm > 0
  {
    exists c, addr :: UserAccess(st, c, addr, n, perm, at)
  }

  lemma {:induction false} PlaceAt(st: State, st1: State, ar: AReg, n: nat, perm: nat)
    requires !Super(st) && AddrOf(st, ar).Ok? && perm > 0 && ar.addr < P64
    requires Access(st1, AddrOf(st, ar).value, n, perm).Ok?
    ensures UserPlace(st, n, perm, Access(st1, AddrOf(st, ar).value, n, perm).value)
  {
    UserAddress(st, ar);
    var p := AddrOf(st, ar).value;
    AccessTest(st1, p, n, perm);
    assert UserAccess(st, p.c, p.addr, n, perm, Access(st1, p, n, perm).value);
  }

  lemma {:induction false} PushPlaces(i: Insn, st: State)
    requires Wf(st) && InsnOk(i) && !Super(st) && Perform(i, st).out.Ok? && (i.Bsr? || i.Jsr? || i.Pea? || i.Link?)
    ensures UserPlace(st, 6, WRITE, Perform(i, st).out.value)
    ensures OnlyAt(st.mem, Perform(i, st).st.mem, Perform(i, st).out.value, 6)
  {
    if i.Bsr? {
      PlaceAt(st, Push(st, st.a[7]), st.a[7], 6, WRITE);
    } else {
      PlaceAt(st, st, st.a[7], 6, WRITE);
    }
  }

  lemma {:induction false} PullPlaces(i: Insn, st: State)
    requires Wf(st) && InsnOk(i) && !Super(st) && Perform(i, st).out.Ok? && (i.Rts? || i.Unlk?)
    ensures UserPlace(st, 6, READ, Perform(i, st).out.value) && Perform(i, st).st.mem == st.mem
  {
    var sp := Moved(if i.Rts? then st.a[7] else st.a[i.l], -6);
    var st1 := WithA(st, 7, sp);
    PlaceAt(st1, st1, sp, 6, READ);
    SamePlaces(st, st1, 6, READ, Perform(i, st).out.value);
  }

  /** Open segments are a matter of the table alone. */
  lemma {:induction false} SamePlaces(st: State, st1: State, n: nat, perm: nat, at: nat)
    requires st1.tab == st.tab && perm > 0
    ensures UserPlace(st, n, perm, at) == UserPlace(st1, n, perm, at)
  {
    forall c, addr
      ensures UserAccess(st, c, addr, n, perm, at) == UserAccess(st1, c, addr, n, perm, at)
    {
    }
  }

  lemma {:induction false} SavePlaces(st: State, rs: seq<nat>, r: nat)
    requires Wf(st) && r < 8 && IsList(rs) && !Super(st) && Save(st, rs, r).out.Ok?
    ensures UserPlace(st, ListSize(rs), WRITE, Save(st, rs, r).out.value)
    ensures OnlyAt(st.mem, Save(st, rs, r).st.mem, Save(st, rs, r).out.value, ListSize(rs))
  {
    var st1 := WithA(st, r, Moved(st.a[r], Step(ListSize(rs))));
    PlaceAt(st, st1, st.a[r], ListSize(rs), WRITE);
  }

  /** The load keeps the descriptor of the register's old address. */
  lemma {:induction false} RestorePlaces(st: State, rs: seq<nat>, r: nat)
    requires Wf(st) && r < 8 && IsList(rs) && !Super(st) && Restore(st, rs, r).out.Ok?
    ensures UserPlace(st, ListSize(rs), READ, Restore(st, rs, r).out.value) && Restore(st, rs, r).st.mem == st.mem
  {
    UserAddress(st, st.a[r]);
    var st1 := WithA(st, r, Moved(st.a[r], 0 - Step(ListSize(rs))));
    var p := Addr(AddrOf(st, st.a[r]).value.c, st1.a[r].addr);
    AccessTest(st1, p, ListSize(rs), READ);
    assert UserAccess(st, p.c, p.addr, ListSize(rs), READ, Restore(st, rs, r).out.value);
  }

  lemma {:induction false} StorePlaces(st: State, ea: nat, easz: nat, ip: Addr, bytes: seq<Byte>)
    requires Wf(st) && ea < 64 && easz < 4 && !Super(st) && StoreTo(st, ea, easz, ip, bytes).out.Ok?
    ensures UserPlace(st, |bytes|, WRITE, StoreTo(st, ea, easz, ip, bytes).out.value)
    ensures OnlyAt(st.mem, StoreTo(st, ea, easz, ip, bytes).st.mem, StoreTo(st, ea, easz, ip, bytes).out.value,
                   |bytes|)
  {
    var o := Decode(st, ea, easz, ip).value;
    UserOperand(st, ea, easz, ip);
    StoresAt(st, o.target.p, bytes);
  }

  lemma {:induction false} StoresAt(st: State, p: Addr, bytes: seq<Byte>)
    requires UserPointer(st, p) && Access(st, p, |bytes|, WRITE).Ok?
    ensures var at := Access(st, p, |bytes|, WRITE).value;
            UserPlace(st, |bytes|, WRITE, at) && OnlyAt(st.mem, Splice(st.mem, at, bytes), at, |bytes|)
  {
    AccessTest(st, p, |bytes|, WRITE);
    assert UserAccess(st, p.c, p.addr, |bytes|, WRITE, Access(st, p, |bytes|, WRITE).value);
  }

  // ----- user mode stays in its segments, and in user mode --------------------------------

  lemma {:induction false} LoadStays(st: State, rs: seq<nat>, r: nat)
    requires Wf(st) && r < 8 && IsList(rs) && !Super(st) && Restore(st, rs, r).out.Ok?
    ensures var s := Restore(st, rs, r).st; s.smr == st.smr && s.ir == st.ir && s.tab == st.tab
  {
    var st1 := WithA(st, r, Moved(st.a[r], 0 - Step(ListSize(rs))));
    LoadKeeps(st1, rs, Restore(st, rs, r).out.value, 16);
    LoadKeeps(st1, rs, Restore(st, rs, r).out.value, 17);
  }

  /** No instruction but a trap leaves user mode or changes the interrupt register; RTE
      faults there, and so does loading or storing either. */
  lemma {:induction false} UserStays(i: Insn, st: State)
    requires Wf(st) && InsnOk(i) && !Super(st)
    ensures Perform(i, st).out.Ok? ==>
              && !Super(Perform(i, st).st) && Perform(i, st).st.ir == st.ir
              && Perform(i, st).st.tab == st.tab && Wf(Perform(i, st).st)
    ensures i.Rte? || ((i.MovmLoad? || i.MovmStore?) && (16 in i.rs || 17 in i.rs)) ==> !Perform(i, st).out.Ok?
  {
    if i.MovmLoad? && Perform(i, st).out.Ok? {
      LoadStays(st, i.rs, i.r);
    }
    if i.Store? && Perform(i, st).out.Ok? {
      StoreStays(st, i.ea, i.easz, i.ip, i.bytes);
    }
  }

  lemma {:induction false} StoreStays(st: State, ea: nat, easz: nat, ip: Addr, bytes: seq<Byte>)
    requires Wf(st) && ea < 64 && easz < 4 && StoreTo(st, ea, easz, ip, bytes).out.Ok?
    ensures var r := StoreTo(st, ea, easz, ip, bytes).st; r.smr == st.smr && r.ir == st.ir && r.tab == st.tab && Wf(r)
  {
    DecodedRegisters(st, ea, easz, ip);
  }

  lemma {:induction false} DecodedRegisters(st: State, ea: nat, easz: nat, ip: Addr)
    requires Wf(st) && ea < 64 && easz < 4 && Decode(st, ea, easz, ip).Ok?
    ensures var a := Decode(st, ea, easz, ip).value.a; |a| == 8 && forall i :: 0 <= i < 8 ==> a[i].addr < P64
  {
    if easz < 3 && ea / 8 == 6 {
      ExtendedRegisters(st, ea % 8, easz, ip);
    } else if easz < 3 && ea / 8 == 7 {
      SpecialRegisters(st, ea % 8, easz, ip);
    }
  }

  lemma {:induction false} SpecialRegisters(st: State, reg: nat, easz: nat, ip: Addr)
    requires Wf(st) && DecodeSpecial(st, reg, easz, ip).Ok?
    ensures DecodeSpecial(st, reg, easz, ip).value.a == st.a
  {
    if reg == 0 {
      ExtendedRegisters(st, 8, easz, ip);
    }
  }

  lemma {:induction false} ExtendedRegisters(st: State, ereg: nat, easz: nat, ip: Addr)
    requires Wf(st) && ereg <= 8 && DecodeExtended(st, ereg, easz, ip).Ok?
    ensures DecodeExtended(st, ereg, easz, ip).value.a == st.a
  {
  }

  /** What a successful instruction of user mode accesses, and all that it changes. */
  lemma {:induction false} UserMoves(i: Insn, st: State)
    requires Wf(st) && InsnOk(i) && !Super(st) && Perform(i, st).out.Ok?
    ensures var r := Perform(i, st);
            && UserPlace(st, Moves(i), if Writes(i) then WRITE else READ, r.out.value)
            && if Writes(i) then OnlyAt(st.mem, r.st.mem, r.out.value, Moves(i)) else r.st.mem == st.mem
  {
    match i
    case MovmStore(rs, r) => SavePlaces(st, rs, r);
    case MovmLoad(rs, r) => RestorePlaces(st, rs, r);
    case Store(ea, easz, ip, bytes) => StorePlaces(st, ea, easz, ip, bytes);
    case Rts => PullPlaces(i, st);
    case Unlk(_, _) => PullPlaces(i, st);
    case Rte => assert false;
    case _ => PushPlaces(i, st);
  }

  /** The processor runs on the current table of `k`. */
  ghost predicate Mapped(k: Sys, st: State) {
    && Inv(k) && k.cur.Some? && |st.tab| == k.len && |st.mem| == k.memSize
    && forall i :: 0 <= i < k.len ==> st.tab[i] == k.ents[Slot(k, i)]
  }

  /** An access of user mode stays off every segment table, and unless it wraps off
      every process area. */
  lemma {:induction false} UserOffAreas(k: Sys, st: State, c: CSeg, addr: nat, n: nat, perm: nat, at: nat, u: nat)
    requires Mapped(k, st) && Isolation.IsPerm(perm) && UserAccess(st, c, addr, n, perm, at)
    requires 0 < n <= PAGE - TABLE && u < |k.uareas|
    ensures k.uareas[u] < |k.segs|
    ensures var area := k.segs[k.uareas[u]].base;
            && (at + n <= area || area + TABLE <= at)
            && (addr + n < P64 ==> at + n <= area || area + PAGE <= at)
  {
    Isolation.UserNeverReachesTables(k, Slot(k, c.seg), addr, n, perm, u);
  }

  lemma {:induction false} SmallMoves(i: Insn)
    requires InsnOk(i)
    ensures 0 < Moves(i) <= PAGE - TABLE
  {
    if i.MovmStore? || i.MovmLoad? {
      SmallList(i.rs, 0);
    }
  }

  /** `bases` are the addresses of the process areas. */
  ghost predicate Areas(k: Sys, bases: seq<nat>) {
    && Inv(k) && |bases| == |k.uareas|
    && forall j :: 0 <= j < |bases| ==> k.uareas[j] < |k.segs| && k.segs[k.uareas[j]].base == bases[j]
                                        && bases[j] + PAGE <= k.memSize
  }

  lemma {:induction false} UserKeepsTables(k: Sys, bases: seq<nat>, i: Insn, st: State)
    requires Wf(st) && InsnOk(i) && !Super(st) && Perform(i, st).out.Ok? && Mapped(k, st) && Areas(k, bases)
    ensures var m := Perform(i, st).st.mem; |m| == |st.mem| && Tables(m, bases) == Tables(st.mem, bases)
  {
    UserMoves(i, st);
    if Writes(i) {
      SmallMoves(i);
      var at := Perform(i, st).out.value;
      var c, addr :| UserAccess(st, c, addr, Moves(i), WRITE, at);
      forall j | 0 <= j < |bases|
        ensures at + Moves(i) <= bases[j] || bases[j] + TABLE <= at
      {
        UserOffAreas(k, st, c, addr, Moves(i), WRITE, at, j);
      }
      OffTables(st.mem, Perform(i, st).st.mem, at, Moves(i), bases);
    }
  }

  lemma {:induction false} OffTables(m: seq<Byte>, m': seq<Byte>, at: nat, n: nat, bases: seq<nat>)
    requires OnlyAt(m, m', at, n) && Inside(bases, |m|)
    requires forall j :: 0 <= j < |bases| ==> at + n <= bases[j] || bases[j] + TABLE <= at
    ensures Tables(m', bases) == Tables(m, bases)
  {
    var b := m'[at..at + n];
    assert m' == Splice(m, at, b);
    Context.SpliceOffTables(m, at, b, bases);
  }

  /** The instructions of a stretch of user code, each of them successful. */
  ghost function Performed(code: seq<Insn>, st: State): (r: Option<State>)
    requires Wf(st) && !Super(st) && forall i :: i in code ==> InsnOk(i)
    ensures r.Some? ==> Wf(r.value)
    decreases |code|
  {
    if |code| == 0 then Some(st)
    else
      var o := Perform(code[0], st);
      if !o.out.Ok? then None
      else
        UserStays(code[0], st);
        Performed(code[1..], o.st)
  }

  /** User code, however long, changes no segment table of any process and does not
      leave user mode: only a trap does. */
  lemma {:induction false} UserCode(k: Sys, bases: seq<nat>, code: seq<Insn>, st: State)
    requires Wf(st) && !Super(st) && (forall i :: i in code ==> InsnOk(i)) && Mapped(k, st) && Areas(k, bases)
    ensures var r := Performed(code, st);
            r.Some? ==> !Super(r.value) && Mapped(k, r.value) && Tables(r.value.mem, bases) == Tables(st.mem, bases)
    decreases |code|
  {
    if |code| > 0 && Perform(code[0], st).out.Ok? {
      UserStays(code[0], st);
      UserKeepsTables(k, bases, code[0], st);
      UserCode(k, bases, code[1..], Perform(code[0], st).st);
    }
  }

  /** A process area's own segment, in user mode: no operand reaches it. */
  lemma {:induction false} AreaRefused(k: Sys, st: State, addr: nat, base: nat, useg: nat)
    requires Mapped(k, st) && 4 < k.len && st.tab[4] == AreaEntry(base, useg) && !Super(st) && addr <= PAGE
    ensures AddrOf(st, AReg(4, addr)) == Fault(ePERM, AReg(4, addr))
  {
    assert Bit(SUPER + READ + WRITE, SUPER);
  }
}
