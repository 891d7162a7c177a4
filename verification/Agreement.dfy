/** The assembler against the processor: what `ea` emits for an operand, decoded
    and evaluated by CPU::run, is what the operand means. */
module Agreement {
  import opened Codec
  import opened Kernel
  import opened Cpu
  import opened Assembler

  // ----- the meaning of an operand ------------------------------------------------

  /** The access size of a suffix: bytes, words, anything else longs. */
  function SizeCode(osz: nat): nat {
    if osz == 1 then 0 else if osz == 2 then 1 else 2
  }

  function BaseOf(st: State, base: BaseReg): AReg
    requires Wf(st) && (base.Areg? ==> base.r < 8)
  {
    if base.Areg? then st.a[base.r] else st.pc
  }

  function ScaleOf(x: Index): int {
    if x.scale.Some? then Amount(x.scale.value) else 1
  }

  function IndexValue(st: State, index: Option<Index>): int
    requires Wf(st) && (index.Some? ==> index.value.r < 8)
  {
    if index.Some? then Sex(36, st.d[index.value.r]) * ScaleOf(index.value) else 0
  }

  function AmountOf(v: Option<Value>): int {
    if v.Some? then Amount(v.value) else 0
  }

  /** base + offset + index * scale + displacement, through a pointer in memory
      for the indirect forms: read before the index is added, or after. */
  function BasedAddress(t: Tree, st: State): Out<Addr>
    requires t.Based? && WellFormed(t) && Wf(st)
  {
    var off, idx, disp := AmountOf(t.off), IndexValue(st, t.index), AmountOf(t.disp);
    var p :- AddrOf(st, BaseOf(st, t.base));
    match t.kind
    case Indirect => Ok(p.Plus(off + idx + disp))
    case PreIndex =>
      var q :- Deref(st, p.Plus(off));
      Ok(q.Plus(idx + disp))
    case PostIndex =>
      var q :- Deref(st, p.Plus(off + idx));
      Ok(q.Plus(disp))
  }

  /** The bytes that an operand with a size suffix has in memory: a byte, a word, or a
      long, which is also what no suffix means. A register has nine bits for each. */
  function SizeOf(osz: nat): nat {
    if osz == 1 then 1 else if osz == 2 then |WordBytes(0)| else |LongBytes(0)|
  }

  lemma {:induction false} SizesAgree(osz: nat)
    ensures Size(SizeCode(osz)) == SizeOf(osz) && Bits(SizeCode(osz)) == 9 * SizeOf(osz)
  {
  }

  /** What an operand with a size suffix designates, and the address registers
      afterwards. */
  function Denote(t: Tree, osz: nat, st: State): Out<(Target, seq<AReg>)>
    requires WellFormed(t) && Wf(st)
  {
    var size := SizeOf(osz);
    match t
    case DataReg(r) => Ok((InReg(r, 9 * SizeOf(osz)), st.a))
    case AddressReg(r) => Ok((InAddressReg(r), st.a))
    case Immediate(v) => Ok((Literal(Amount(v)), st.a))
    case RegOffset(r, v) =>
      var p :- AddrOf(st, AReg(st.a[r].seg, Amount(v) % P64));
      Ok((At(p, size), st.a))
    case Absolute(v) =>
      var p :- AddrOf(st, AReg(SegOf(v), Amount(v) % P64));
      Ok((At(p, size), st.a))
    case PostInc(r) =>
      var p :- AddrOf(st, st.a[r]);
      Ok((At(p, size), st.a[r := Moved(st.a[r], size)]))
    case PreDec(r) =>
      var p :- AddrOf(st, st.a[r]);
      Ok((At(p.Plus(0 - size), size), st.a[r := Moved(st.a[r], 0 - size)]))
    case Based(_, _, _, _, _) =>
      var p :- BasedAddress(t, st);
      Ok((At(p, size), st.a))
  }

  function SegOf(v: Value): nat {
    if v.Address? && v.seg.LiteralSegment? then v.seg.value else 0
  }

  // ----- agreement -------------------------------------------------------------------

  /** The words `ws` stand at `ip`, executable and inside memory. */
  predicate CodeAt(st: State, ip: Addr, ws: seq<nat>) {
    var at := ip.c.base + ip.addr;
    && ip.addr + 2 * |ws| < P64 && ip.addr + 2 * |ws| <= ip.c.len
    && Bit(ip.c.flags, EXEC) && at + 2 * |ws| <= |st.mem|
    && forall i :: 0 <= i < |ws| ==> Uw(st.mem, at + 2 * i) == ws[i]
  }

  /** The meaning as a decoded operand of `n` extension words. */
  function Meant(meaning: Out<(Target, seq<AReg>)>, ip: Addr, n: nat): Out<Operand> {
    match meaning
    case Ok((target, a)) => Ok(Operand(target, a, ip.Plus(2 * n)))
    case Fault(trap, at) => Fault(trap, at)
    case Wild => Wild
  }

  /** Decoding the emitted EA field and extension words, at the size emitted with
      them, gives the meaning, and stops after the last word. */
  predicate SizedAgrees(t: Tree, osz: nat, st: State, ip: Addr)
    requires WellFormed(t) && Wf(st)
  {
    var e := Ea(t, osz, false);
    e.Emitted? && e.bits < 0x100
    && ReadsAs(t, osz, st, ip, e.bits % 64, e.bits / 64, |e.ext|)
  }

  /** The EA field `field`, worked at size code `size` and with `n` extension words,
      is decoded as the operand's meaning. */
  predicate ReadsAs(t: Tree, osz: nat, st: State, ip: Addr, field: nat, size: nat, n: nat)
    requires WellFormed(t) && Wf(st) && field < 64 && size < 4
  {
    Decode(st, field, size, ip) == Meant(Denote(t, osz, st), ip, n)
  }

  /** The suffix that stands for a size code. */
  function Suffix(code: nat): nat {
    if code == 0 then 1 else if code == 1 then 2 else 4
  }

  /** What becomes of an operand's size. Most instructions write size bits that the
      processor reads. Some write none, but the processor reads those bits all the
      same, as `code`; there an immediate still carries its own. And some opcodes have
      no size bits for the processor to read, whether the assembler writes any or not:
      their operands, immediates too, are worked as longs. */
  datatype Sizing = Written | Assumed(code: nat) | Unread(unsized: bool)

  predicate Sized(z: Sizing) {
    z.Assumed? ==> z.code < 3
  }

  function Unsized(z: Sizing): bool {
    z.Assumed? || (z.Unread? && z.unsized)
  }

  /** The suffix an operand's meaning goes by. */
  function Meaning(osz: nat, z: Sizing): nat {
    match z
    case Written => osz
    case Assumed(code) => Suffix(code)
    case Unread(_) => Suffix(2)
  }

  /** The size code at which the processor works an operand emitted as `bits`. */
  function Worked(t: Tree, bits: nat, z: Sizing): nat
    requires bits < 0x100 && Sized(z)
  {
    match z
    case Written => bits / 64
    case Assumed(code) => if t.Immediate? then bits / 64 else code
    case Unread(_) => 2
  }

  /** Decoding the emitted EA field and extension words, as the processor does for
      such an instruction, gives the meaning, and stops after the last word. */
  predicate Agrees(t: Tree, osz: nat, z: Sizing, st: State, ip: Addr)
    requires WellFormed(t) && Wf(st) && Sized(z)
  {
    var e := Ea(t, osz, Unsized(z));
    e.Emitted? && e.bits < 0x100
    && ReadsAs(t, Meaning(osz, z), st, ip, e.bits % 64, Worked(t, e.bits, z), |e.ext|)
  }

  /** Accepted without a recorded error, all parts resolved. */
  predicate Accepted(t: Tree, osz: nat) {
    && WellFormed(t)
    && Ea(t, osz, false).Emitted? && Ea(t, osz, false).clean
    && (t.RegOffset? ==> Constant(t.to))
    && (t.Absolute? ==> !t.at.unresolved && t.at.seg.LiteralSegment? && 0 - P64 / 2 <= Amount(t.at) < P64 / 2)
  }

  /** The operands whose encoding keeps their meaning. */
  predicate Faithful(t: Tree, osz: nat, z: Sizing) {
    match t
    // a size suffix on a data register is dropped
    case DataReg(_) => z.Written? ==> osz != 1 && osz != 2
    // an address register is taken for the data register of its number
    case AddressReg(_) => false
    // the offset is emitted signed but read unsigned
    case RegOffset(_, v) => Amount(v) >= 0
    case Absolute(v) => 0 <= Amount(v) < P36 && SegOf(v) < P18
    // an explicit size too small for the value is kept; and without size bits only
    // the long form is an immediate
    case Immediate(v) =>
      && !Overflow(if osz == 1 then 6 else if osz == 2 then 18 else 36, Amount(v))
      && (z.Unread? ==> ImmediateSize(v, osz) == Some(4))
    // ([d18,ar]) loses its indirection
    case Based(kind, base, off, index, disp) =>
      !(kind.PreIndex? && base.Areg? && index.None? && disp.None? && Overflow(9, AmountOf(off)))
    case _ => true
  }

  // ----- fetching ------------------------------------------------------------------------

  lemma {:induction false} PlusZero(p: Addr)
    requires p.addr < P64
    ensures p.Plus(0) == p
  {
  }

  lemma {:induction false} FetchOne(st: State, ip: Addr, ws: seq<nat>)
    requires CodeAt(st, ip, ws) && |ws| >= 1
    ensures FetchWord(st, ip) == Ok((ws[0], ip.Plus(2)))
    ensures CodeAt(st, ip.Plus(2), ws[1..])
  {
    var at := ip.c.base + ip.addr;
    assert Uw(st.mem, at + 2 * 0) == ws[0];
    forall i | 0 <= i < |ws| - 1
      ensures Uw(st.mem, at + 2 + 2 * i) == ws[1..][i]
    {
      assert Uw(st.mem, at + 2 * (i + 1)) == ws[i + 1];
    }
  }

  lemma {:induction false} FetchTwo(st: State, ip: Addr, ws: seq<nat>)
    requires CodeAt(st, ip, ws) && |ws| == 2
    ensures FetchLong(st, ip) == Ok((ws[0] + ws[1] * P18, ip.Plus(4)))
  {
    var at := ip.c.base + ip.addr;
    assert Uw(st.mem, at + 2 * 0) == ws[0] && Uw(st.mem, at + 2 * 1) == ws[1];
  }

  lemma {:induction false} FetchThree(st: State, ip: Addr, ws: seq<nat>)
    requires CodeAt(st, ip, ws) && |ws| == 3
    ensures FetchPointer(st, ip) == Ok((AReg(ws[0], ws[1] + ws[2] * P18), ip.Plus(6)))
  {
    var at := ip.c.base + ip.addr;
    assert Uw(st.mem, at + 2 * 0) == ws[0] && Uw(st.mem, at + 2 * 1) == ws[1] && Uw(st.mem, at + 2 * 2) == ws[2];
  }

  // ----- case by case -----------------------------------------------------------------------

  lemma {:induction false} SwordReads(n: int)
    requires !Overflow(18, n)
    ensures Sword(n) < P18 && Sex(18, Sword(n)) == n
    ensures n >= 0 ==> Sword(n) == n
    ensures n < 0 ==> Sword(n) == 0x2_0000 - n
  {
    Widths();
    NasSignedInRange(18, n);
  }

  lemma {:induction false} FieldSplits(osz: nat, low: nat)
    requires low < 64
    ensures var bits := Eam(osz, false) + low; bits < 0x100 && bits % 64 == low && bits / 64 == SizeCode(osz)
  {
  }

  lemma {:induction false} DataRegAgrees(t: Tree, osz: nat, st: State, ip: Addr)
    requires Accepted(t, osz) && Wf(st) && CodeAt(st, ip, Ea(t, osz, false).ext) && Faithful(t, osz, Written)
             && t.DataReg?
    ensures SizedAgrees(t, osz, st, ip)
  {
    FieldSplits(0, t.r);
    PlusZero(ip);
  }

  lemma {:induction false} RegOffsetAgrees(t: Tree, osz: nat, st: State, ip: Addr)
    requires Accepted(t, osz) && Wf(st) && CodeAt(st, ip, Ea(t, osz, false).ext) && Faithful(t, osz, Written)
             && t.RegOffset?
    ensures SizedAgrees(t, osz, st, ip)
  {
    var n := Amount(t.to);
    SwordReads(n);
    assert n < 0x2_0000 by { Widths(); }
    RegOffsetMeans(t, osz, st);
    RegOffsetEncodes(t, osz);
    FetchOne(st, ip, Ea(t, osz, false).ext);
    RegOffsetDecode(st, t.r, SizeCode(osz), ip, n);
  }

  lemma {:induction false} RegOffsetMeans(t: Tree, osz: nat, st: State)
    requires WellFormed(t) && Wf(st) && t.RegOffset? && 0 <= Amount(t.to) < 0x2_0000
    ensures Denote(t, osz, st)
         == match AddrOf(st, AReg(st.a[t.r].seg, Amount(t.to)))
            case Ok(p) => Ok((At(p, Size(SizeCode(osz))), st.a))
            case Fault(trap, at) => Fault(trap, at)
            case Wild => Wild
  {
    assert Amount(t.to) % P64 == Amount(t.to);
  }

  lemma {:induction false} RegOffsetEncodes(t: Tree, osz: nat)
    requires Accepted(t, osz) && t.RegOffset? && 0 <= Amount(t.to) < 0x2_0000
    ensures var e := Ea(t, osz, false);
            && e.Emitted? && e.ext == [Sword(Amount(t.to))]
            && e.bits < 0x100 && e.bits % 64 == 0x28 + t.r && e.bits / 64 == SizeCode(osz)
  {
    FieldSplits(osz, 0x28 + t.r);
  }

  lemma {:induction false} RegOffsetDecode(st: State, r: nat, easz: nat, ip: Addr, n: nat)
    requires Wf(st) && r < 8 && easz < 3 && FetchWord(st, ip) == Ok((n, ip.Plus(2)))
    ensures Decode(st, 0x28 + r, easz, ip) == Landed(AddrOf(st, AReg(st.a[r].seg, n)), easz, st.a, ip.Plus(2))
  {
  }

  lemma {:induction false} StepAgrees(t: Tree, osz: nat, st: State, ip: Addr)
    requires Accepted(t, osz) && Wf(st) && CodeAt(st, ip, Ea(t, osz, false).ext) && (t.PostInc? || t.PreDec?)
    ensures SizedAgrees(t, osz, st, ip)
  {
    FieldSplits(osz, (if t.PostInc? then 0x10 else 0x18) + t.r);
    PlusZero(ip);
  }

  lemma {:induction false} AbsoluteAgrees(t: Tree, osz: nat, st: State, ip: Addr)
    requires Accepted(t, osz) && Wf(st) && CodeAt(st, ip, Ea(t, osz, false).ext) && Faithful(t, osz, Written)
             && t.Absolute?
    ensures SizedAgrees(t, osz, st, ip)
  {
    var n := Amount(t.at);
    FieldSplits(osz, 0x3A);
    AbsoluteWords(t, osz);
    var ws := Ea(t, osz, false).ext;
    FetchThree(st, ip, ws);
    AbsoluteDecode(st, SizeCode(osz), ip, AReg(ws[0], ws[1] + ws[2] * P18));
    Wraps(n);
    AbsoluteMeant(t, osz, st, ip);
  }

  lemma {:induction false} AbsoluteMeant(t: Tree, osz: nat, st: State, ip: Addr)
    requires WellFormed(t) && Wf(st) && t.Absolute?
    ensures Meant(Denote(t, osz, st), ip, 3)
         == Landed(AddrOf(st, AReg(SegOf(t.at), Amount(t.at) % P64)), SizeCode(osz), st.a, ip.Plus(6))
  {
  }

  lemma {:induction false} AbsoluteWords(t: Tree, osz: nat)
    requires Accepted(t, osz) && t.Absolute?
    ensures var ws := Ea(t, osz, false).ext;
            && |ws| == 3 && ws[0] == SegOf(t.at) % P18 && ws[1] + ws[2] * P18 == Amount(t.at) % P36
            && Ea(t, osz, false).bits == Eam(osz, false) + 0x3A
  {
  }

  /** The number a processor reads back from an immediate of encoded size `sz`. */
  function ReadBack(n: int, sz: nat): int {
    if sz == 1 then Sex(6, NasSigned(6, n)) else if sz == 2 then Sex(18, NasSigned(18, n))
        else Sex(36, NasSigned(36, n))
  }

  function Width(sz: nat): nat {
    if sz == 1 then 6 else if sz == 2 then 18 else 36
  }

  lemma {:induction false} ReadBackExact(n: int, sz: nat)
    ensures ReadBack(n, sz) == n <==> !Overflow(Width(sz), n)
  {
    NasSignedInRange(Width(sz), n);
  }

  /** All three encodings of an immediate are read back as their own width has it. */
  lemma {:induction false} ImmediateReads(t: Tree, osz: nat, st: State, ip: Addr)
    requires Accepted(t, osz) && Wf(st) && CodeAt(st, ip, Ea(t, osz, false).ext) && t.Immediate?
    ensures var e, sz := Ea(t, osz, false), ImmediateSize(t.imm, osz).value;
            Reads(st, e.bits, ip, Operand(Literal(ReadBack(Amount(t.imm), sz)), st.a, ip.Plus(2 * |e.ext|)))
  {
    var n := Amount(t.imm);
    var sz := ImmediateSize(t.imm, osz).value;
    ImmediateWords(t, osz);
    if sz == 1 {
      ShortReads(n, st, ip);
    } else if sz == 2 {
      WordReads(n, st, ip);
    } else {
      LongReads(n, st, ip);
    }
  }

  /** The EA field `bits` with its size reads as `operand`. */
  predicate Reads(st: State, bits: nat, ip: Addr, operand: Operand)
    requires Wf(st)
  {
    bits < 0x100 && Decode(st, bits % 64, bits / 64, ip) == Ok(operand)
  }

  lemma {:induction false} ShortReads(n: int, st: State, ip: Addr)
    requires Wf(st) && ip.addr < P64
    ensures Reads(st, 0xC0 + NasSigned(6, n), ip, Operand(Literal(ReadBack(n, 1)), st.a, ip.Plus(0)))
  {
    Widths();
    PlusZero(ip);
    NasSignedInRange(6, n);
    SignedSex(6, NasSigned(6, n));
    SexSigned(36, Sex(6, NasSigned(6, n)));
  }

  lemma {:induction false} WordReads(n: int, st: State, ip: Addr)
    requires Wf(st) && CodeAt(st, ip, [Sword(n)])
    ensures Reads(st, 0x79, ip, Operand(Literal(ReadBack(n, 2)), st.a, ip.Plus(2)))
  {
    Widths();
    NasSignedInRange(18, n);
    FetchOne(st, ip, [Sword(n)]);
  }

  lemma {:induction false} LongReads(n: int, st: State, ip: Addr)
    requires Wf(st) && CodeAt(st, ip, Dword(NasSigned(36, n)))
    ensures Reads(st, 0xB9, ip, Operand(Literal(ReadBack(n, 4)), st.a, ip.Plus(4)))
  {
    Widths();
    NasSignedInRange(36, n);
    var w := Dword(NasSigned(36, n));
    FetchTwo(st, ip, w);
    assert w[0] + w[1] * P18 == NasSigned(36, n);
    LongImmediate(st, ip, NasSigned(36, n), ip.Plus(4));
  }

  lemma {:induction false} LongImmediate(st: State, ip: Addr, l: nat, next: Addr)
    requires Wf(st) && FetchLong(st, ip) == Ok((l, next))
    ensures Decode(st, 0x39, 2, ip) == Ok(Operand(Literal(Sex(36, l)), st.a, next))
  {
  }

  /** An immediate operand comes back as written exactly when it fits the width its
      size suffix, or its value, selects. */
  lemma {:induction false} ImmediateAgrees(t: Tree, osz: nat, st: State, ip: Addr)
    requires Accepted(t, osz) && Wf(st) && CodeAt(st, ip, Ea(t, osz, false).ext) && t.Immediate?
    ensures SizedAgrees(t, osz, st, ip) <==> Faithful(t, osz, Written)
  {
    var sz := ImmediateSize(t.imm, osz).value;
    ImmediateReads(t, osz, st, ip);
    ReadBackExact(Amount(t.imm), sz);
    ImmediateFits(t, osz);
  }

  lemma {:induction false} ImmediateFits(t: Tree, osz: nat)
    requires Accepted(t, osz) && t.Immediate?
    ensures Faithful(t, osz, Written) <==> !Overflow(Width(ImmediateSize(t.imm, osz).value), Amount(t.imm))
  {
    Widths();
  }

  lemma {:induction false} ImmediateWords(t: Tree, osz: nat)
    requires Accepted(t, osz) && t.Immediate?
    ensures Ea(t, osz, false) == Form(Amount(t.imm), ImmediateSize(t.imm, osz).value)
  {
  }

  lemma {:induction false} ShortExtension(off: int, indirect: bool)
    requires !Overflow(9, off)
    ensures var ext := NasSigned(9, off) + if indirect then 0x8000 else 0;
            && Sex(9, ext % 0x200) == off && ext / 0x8000 == (if indirect then 1 else 0)
            && (Bit(ext, 0x8000) <==> indirect) && !Bit(ext, 0x2_0000)
  {
    Widths();
    NasSignedInRange(9, off);
  }

  /** (ar) without anything: no extension word. */
  lemma {:induction false} NoOffsetAgrees(t: Tree, osz: nat, st: State, ip: Addr)
    requires Accepted(t, osz) && Wf(st) && CodeAt(st, ip, Ea(t, osz, false).ext)
    requires t.Based? && t.index.None? && t.disp.None? && t.base.Areg? && AmountOf(t.off) == 0 && t.kind.Indirect?
    ensures SizedAgrees(t, osz, st, ip)
  {
    FieldSplits(osz, 0x08 + t.base.r);
    PlusZero(ip);
    assert Ea(t, osz, false).ext == [];
  }

  /** The base in the decoder's numbering. */
  function BaseNumber(base: BaseReg): nat {
    if base.Areg? then base.r else 8
  }

  /** (d9,base) and ([d9,base]): one extension word. */
  lemma {:induction false} ShortOffsetAgrees(t: Tree, osz: nat, st: State, ip: Addr)
    requires Accepted(t, osz) && Wf(st) && CodeAt(st, ip, Ea(t, osz, false).ext)
    requires t.Based? && t.index.None? && t.disp.None? && !Overflow(9, AmountOf(t.off))
    requires !(t.base.Areg? && AmountOf(t.off) == 0 && t.kind.Indirect?)
    ensures SizedAgrees(t, osz, st, ip)
  {
    var off := AmountOf(t.off);
    var ext := NasSigned(9, off) + if t.kind.Indirect? then 0 else 0x8000;
    ShortEncoded(t, osz, ext);
    ExtendedField(st, t.base, osz, ip);
    FetchOne(st, ip, [ext]);
    ShortExtension(off, !t.kind.Indirect?);
    ShortDecode(st, BaseNumber(t.base), SizeCode(osz), ip, ext, off, !t.kind.Indirect?);
    ShortMeant(t, osz, st, ip);
  }

  lemma {:induction false} ShortEncoded(t: Tree, osz: nat, ext: nat)
    requires Accepted(t, osz) && t.Based? && t.index.None? && t.disp.None? && !Overflow(9, AmountOf(t.off))
    requires !(t.base.Areg? && AmountOf(t.off) == 0 && t.kind.Indirect?)
    requires ext == NasSigned(9, AmountOf(t.off)) + if t.kind.Indirect? then 0 else 0x8000
    ensures var e := Ea(t, osz, false);
            e.ext == [ext] && e.bits == Eam(osz, false) + if t.base.Areg? then 0x30 + t.base.r else 0x38
  {
  }

  /** The address such an operand means. */
  function ShortOperand(st: State, base: AReg, easz: nat, ip: Addr, off: int, indirect: bool): Out<Operand>
    requires easz < 3
  {
    match AddrOf(st, base)
    case Fault(t, at) => Fault(t, at)
    case Wild => Wild
    case Ok(p) =>
      if !indirect then Ok(Operand(At(p.Plus(off), Size(easz)), st.a, ip.Plus(2)))
      else match Deref(st, p.Plus(off))
           case Fault(t, at) => Fault(t, at)
           case Wild => Wild
           case Ok(q) => Ok(Operand(At(q.Plus(0), Size(easz)), st.a, ip.Plus(2)))
  }

  lemma {:induction false} ShortMeant(t: Tree, osz: nat, st: State, ip: Addr)
    requires WellFormed(t) && Wf(st) && t.Based? && t.index.None? && t.disp.None?
    ensures Meant(Denote(t, osz, st), ip, 1)
         == ShortOperand(st, Base(st, BaseNumber(t.base)), SizeCode(osz), ip, AmountOf(t.off), !t.kind.Indirect?)
  {
  }

  /** Decoding an extension word whose top three bits are 000 or 001. */
  lemma {:induction false} ShortDecode(st: State, ereg: nat, easz: nat, ip: Addr, ext: nat, off: int, indirect: bool)
    requires Wf(st) && ereg <= 8 && easz < 3 && FetchWord(st, ip) == Ok((ext, ip.Plus(2)))
    requires Sex(9, ext % 0x200) == off && ext / 0x8000 == if indirect then 1 else 0
    requires (Bit(ext, 0x8000) <==> indirect) && !Bit(ext, 0x2_0000)
    ensures DecodeExtended(st, ereg, easz, ip) == ShortOperand(st, Base(st, ereg), easz, ip, off, indirect)
  {
    var p := AddrOf(st, Base(st, ereg));
    if p.Ok? {
      PlusPlus(p.value, off, 0);
    }
  }

  /** (d18,ar). */
  lemma {:induction false} LongOffsetAgrees(t: Tree, osz: nat, st: State, ip: Addr)
    requires Accepted(t, osz) && Wf(st) && CodeAt(st, ip, Ea(t, osz, false).ext)
    requires t.Based? && t.index.None? && t.disp.None? && t.base.Areg? && t.kind.Indirect?
    requires Overflow(9, AmountOf(t.off)) && !Overflow(18, AmountOf(t.off))
    ensures SizedAgrees(t, osz, st, ip)
  {
    var off := AmountOf(t.off);
    LongOffsetEncodes(t, osz);
    SwordReads(off);
    FetchOne(st, ip, [Sword(off)]);
    LongOffsetDecode(st, t.base.r, SizeCode(osz), ip, Sword(off));
  }

  lemma {:induction false} LongOffsetEncodes(t: Tree, osz: nat)
    requires Accepted(t, osz) && t.Based? && t.index.None? && t.disp.None? && t.base.Areg?
    requires Overflow(9, AmountOf(t.off)) && !Overflow(18, AmountOf(t.off))
    ensures var e := Ea(t, osz, false);
            && e.Emitted? && e.ext == [Sword(AmountOf(t.off))]
            && e.bits < 0x100 && e.bits % 64 == 0x20 + t.base.r && e.bits / 64 == SizeCode(osz)
  {
    Widths();
    FieldSplits(osz, 0x20 + t.base.r);
  }

  /** Mode 4. */
  lemma {:induction false} LongOffsetDecode(st: State, r: nat, easz: nat, ip: Addr, w: nat)
    requires Wf(st) && r < 8 && easz < 3 && FetchWord(st, ip) == Ok((w, ip.Plus(2)))
    ensures Decode(st, 0x20 + r, easz, ip)
         == match AddrOf(st, st.a[r])
            case Ok(p) => Ok(Operand(At(p.Plus(Sex(18, w)), Size(easz)), st.a, ip.Plus(2)))
            case Fault(trap, at) => Fault(trap, at)
            case Wild => Wild
  {
  }

  // ----- the general form ----------------------------------------------------------------------

  /** The extension word with top bits `hi`, offset flag, scale, index register and
      displacement field. */
  function Extension(hi: nat, more: nat, s: nat, r: nat, low: nat): nat {
    hi * 0x8000 + more * 0x4000 + s * 0x1000 + r * 0x200 + low
  }

  lemma {:induction false} FullExtension(hi: nat, more: nat, s: nat, r: nat, low: nat)
    requires hi < 8 && more < 2 && s < 4 && r < 8 && low < 0x200
    ensures var ext := Extension(hi, more, s, r, low);
            && ext < P18
            && ext % 0x200 == low && ext / 0x200 % 8 == r && ext / 0x1000 % 4 == s
            && (Bit(ext, 0x4000) <==> more == 1) && (Bit(ext, 0x8000) <==> hi % 2 == 1)
            && (Bit(ext, 0x2_0000) <==> hi >= 4) && ext / 0x8000 == hi
  {
    var ext := Extension(hi, more, s, r, low);
    ExtensionQuotients(hi, more, s, r, low);
    assert ext / 0x4000 == hi * 2 + more && ext / 0x2_0000 == hi / 4;
  }

  lemma {:induction false} ExtensionQuotients(hi: nat, more: nat, s: nat, r: nat, low: nat)
    requires hi < 8 && more < 2 && s < 4 && r < 8 && low < 0x200
    ensures var ext := Extension(hi, more, s, r, low);
            && ext % 0x200 == low && ext / 0x200 == hi * 0x40 + more * 0x20 + s * 8 + r
            && ext / 0x1000 == hi * 8 + more * 4 + s && ext / 0x4000 == hi * 2 + more
            && ext / 0x8000 == hi && ext / 0x2_0000 == hi / 4
  {
    var ext := Extension(hi, more, s, r, low);
    var e1 := hi * 0x40 + more * 0x20 + s * 8 + r;
    assert ext == e1 * 0x200 + low;
    assert ext / 0x200 == e1 && ext % 0x200 == low;
    var e2 := hi * 8 + more * 4 + s;
    assert e1 == e2 * 8 + r && ext / 0x1000 == e1 / 8 == e2;
    assert ext / 0x4000 == e2 / 4 == hi * 2 + more;
    assert ext / 0x8000 == hi && ext / 0x2_0000 == hi / 4;
  }

  /** The words of a full extension. */
  function FullWords(hi: nat, s: nat, r: nat, low: nat, offset: int): seq<nat> {
    if offset != 0 then [Extension(hi, 1, s, r, low), Sword(offset)] else [Extension(hi, 0, s, r, low)]
  }

  lemma {:induction false} FullDecode(st: State, ereg: nat, easz: nat, ip: Addr, hi: nat, s: nat, r: nat, low: nat,
                                      offset: int)
    requires Wf(st) && ereg <= 8 && 2 <= hi < 8 && s < 4 && r < 8 && low < 0x200 && !Overflow(18, offset)
    requires CodeAt(st, ip, FullWords(hi, s, r, low, offset))
    ensures var index := if hi >= 4 then Sex(36, st.d[r]) * Scale(s) else 0;
            var next := ip.Plus(if offset != 0 then 4 else 2);
            var p := FormAddress(st, ereg, hi % 2 == 1, hi == 7, offset, index, Sex(9, low));
            DecodeExtended(st, ereg, easz, ip) == Landed(p, easz, st.a, next)
  {
    var ws := FullWords(hi, s, r, low, offset);
    FullExtension(hi, if offset != 0 then 1 else 0, s, r, low);
    FetchOne(st, ip, ws);
    if offset != 0 {
      FetchOne(st, ip.Plus(2), ws[1..]);
      SwordReads(offset);
      PlusPlus(ip, 2, 2);
    }
  }

  /** The offset and displacement after the last-resort move of a displacement
      that does not fit nine bits. */
  function Settled(t: Tree): (int, int)
    requires t.Based?
  {
    var d := AmountOf(t.disp);
    if Overflow(9, d) && t.kind.Indirect? && t.off.None? && !Overflow(18, d) then (d, 0) else (AmountOf(t.off), d)
  }

  function HighBits(t: Tree): nat
    requires t.Based?
  {
    match t.kind
    case Indirect => if t.index.Some? then 4 else 2
    case PreIndex => if t.index.Some? then 5 else 3
    case PostIndex => 7
  }

  function IndexReg(t: Tree): nat
    requires t.Based?
  {
    if t.index.Some? then t.index.value.r else 0
  }

  function ScaleCode(t: Tree): nat
    requires t.Based?
  {
    if t.index.Some? && ScaleBits(t.index.value).Some? then ScaleBits(t.index.value).value else 0
  }

  /** The encoder's words for the general form are the full extension. */
  lemma {:induction false} GeneralWords(t: Tree, osz: nat)
    requires Accepted(t, osz) && General(t)
    ensures var (off, disp) := Settled(t);
            && !Overflow(9, disp) && !Overflow(18, off)
            && Ea(t, osz, false).ext == FullWords(HighBits(t), ScaleCode(t), IndexReg(t), NasSigned(9, disp), off)
            && Ea(t, osz, false).bits == Eam(osz, false) + if t.base.Areg? then 0x30 + t.base.r else 0x38
    ensures t.index.Some? ==> Scale(ScaleCode(t)) == ScaleOf(t.index.value)
    ensures ScaleCode(t) < 4
  {
    KindFields(t, osz);
    GeneralForm(t, osz);
  }

  /** The general form takes the encoder's last step. */
  lemma {:induction false} GeneralForm(t: Tree, osz: nat)
    requires Accepted(t, osz) && General(t)
    ensures var (off, disp) := Settled(t);
            && !Overflow(9, disp) && !Overflow(18, off) && KindBits(t.kind, t.index).Some?
            && Ea(t, osz, false) == EaForm(t.kind, t.base, off, disp, t.index, Eam(osz, false))
  {
  }

  lemma {:induction false} KindFields(t: Tree, osz: nat)
    requires t.Based? && WellFormed(t)
    ensures var top := KindBits(t.kind, t.index);
            top.Some? ==> top.value == HighBits(t) * 0x8000 + ScaleCode(t) * 0x1000 + IndexReg(t) * 0x200
    ensures ScaleCode(t) < 4
    ensures KindBits(t.kind, t.index).Some? && t.index.Some? ==> Scale(ScaleCode(t)) == ScaleOf(t.index.value)
  {
  }

  /** The forms that reach the end of the encoder. */
  predicate General(t: Tree) {
    && t.Based?
    && var simple := t.index.None? && t.disp.None?;
       var off := AmountOf(t.off);
       !(simple && t.base.Areg? && off == 0 && t.kind.Indirect?)
       && !(simple && !Overflow(9, off)) && !(simple && t.base.Areg? && !Overflow(18, off))
  }

  lemma {:induction false} GeneralAgrees(t: Tree, osz: nat, st: State, ip: Addr)
    requires Accepted(t, osz) && Wf(st) && CodeAt(st, ip, Ea(t, osz, false).ext) && General(t)
    ensures SizedAgrees(t, osz, st, ip)
  {
    var (off, disp) := Settled(t);
    GeneralWords(t, osz);
    GeneralDecode(t, osz, st, ip);
    GeneralAddress(t, osz, st);
    ExtendedField(st, t.base, osz, ip);
    DenoteLanded(t, osz, st, ip.Plus(if off != 0 then 4 else 2));
    var e := Ea(t, osz, false);
    assert 2 * |e.ext| == (if off != 0 then 4 else 2) && e.bits < 0x100;
    assert ReadsAs(t, osz, st, ip, e.bits % 64, e.bits / 64, |e.ext|);
  }

  /** A based operand's meaning, as the decoder delivers it. */
  lemma {:induction false} DenoteLanded(t: Tree, osz: nat, st: State, next: Addr)
    requires t.Based? && WellFormed(t) && Wf(st)
    ensures Landed(BasedAddress(t, st), SizeCode(osz), st.a, next)
         == match Denote(t, osz, st)
            case Ok((target, a)) => Ok(Operand(target, a, next))
            case Fault(trap, at) => Fault(trap, at)
            case Wild => Wild
  {
  }

  lemma {:induction false} GeneralDecode(t: Tree, osz: nat, st: State, ip: Addr)
    requires Accepted(t, osz) && Wf(st) && CodeAt(st, ip, Ea(t, osz, false).ext) && General(t)
    ensures var (off, disp) := Settled(t);
            var ereg := BaseNumber(t.base);
            var easz := SizeCode(osz);
            var p := FormAddress(st, ereg, !t.kind.Indirect?, t.kind.PostIndex?, off, IndexValue(st, t.index), disp);
            DecodeExtended(st, ereg, easz, ip) == Landed(p, easz, st.a, ip.Plus(if off != 0 then 4 else 2))
  {
    var (off, disp) := Settled(t);
    GeneralWords(t, osz);
    NasSignedInRange(9, disp);
    Widths();
    var ereg := BaseNumber(t.base);
    FullDecode(st, ereg, SizeCode(osz), ip, HighBits(t), ScaleCode(t), IndexReg(t), NasSigned(9, disp), off);
    IndexMatches(t, osz, st);
  }

  /** Top bits of the extension word against kind and index of the operand. */
  lemma {:induction false} IndexMatches(t: Tree, osz: nat, st: State)
    requires Accepted(t, osz) && General(t) && Wf(st)
    ensures var hi := HighBits(t);
            && (hi % 2 == 1 <==> !t.kind.Indirect?) && (hi == 7 <==> t.kind.PostIndex?) && 2 <= hi < 8
            && (if hi >= 4 then Sex(36, st.d[IndexReg(t)]) * Scale(ScaleCode(t)) else 0) == IndexValue(st, t.index)
  {
    GeneralWords(t, osz);
  }

  /** Fields 6:r and 7:0 select the extended decoding. */
  lemma {:induction false} ExtendedField(st: State, base: BaseReg, osz: nat, ip: Addr)
    requires Wf(st) && (base.Areg? ==> base.r < 8)
    ensures var bits := Eam(osz, false) + if base.Areg? then 0x30 + base.r else 0x38;
            bits < 0x100
            && Decode(st, bits % 64, bits / 64, ip)
               == DecodeExtended(st, BaseNumber(base), SizeCode(osz), ip)
  {
    FieldSplits(osz, if base.Areg? then 0x30 + base.r else 0x38);
  }

  /** The processor's reading of the fields is the address the operand means. */
  lemma {:induction false} GeneralAddress(t: Tree, osz: nat, st: State)
    requires Accepted(t, osz) && Wf(st) && General(t)
    ensures var (off, disp) := Settled(t);
            var ereg := BaseNumber(t.base);
            FormAddress(st, ereg, !t.kind.Indirect?, t.kind.PostIndex?, off, IndexValue(st, t.index), disp)
                == BasedAddress(t, st)
  {
    match t.kind
    case Indirect => IndirectAddress(t, osz, st);
    case PreIndex => PreIndexAddress(t, osz, st);
    case PostIndex => PostIndexAddress(t, osz, st);
  }

  lemma {:induction false} PlusThree(p: Addr, a: int, b: int, c: int)
    ensures p.Plus(a).Plus(b).Plus(c) == p.Plus(a + b + c)
  {
    PlusPlus(p, a, b);
    PlusPlus(p, a + b, c);
  }

  lemma {:induction false} SettledSum(t: Tree)
    requires t.Based?
    ensures var (off, disp) := Settled(t); off + disp == AmountOf(t.off) + AmountOf(t.disp)
  {
  }

  lemma {:induction false} IndirectAddress(t: Tree, osz: nat, st: State)
    requires t.Based? && WellFormed(t) && Wf(st) && t.kind.Indirect?
    ensures var (off, disp) := Settled(t);
            var ereg := BaseNumber(t.base);
            FormAddress(st, ereg, !t.kind.Indirect?, t.kind.PostIndex?, off, IndexValue(st, t.index), disp)
                == BasedAddress(t, st)
  {
    var (off, disp) := Settled(t);
    var index := IndexValue(st, t.index);
    SettledSum(t);
    var p := AddrOf(st, BaseOf(st, t.base));
    if p.Ok? {
      PlusThree(p.value, off, index, disp);
      assert off + index + disp == AmountOf(t.off) + index + AmountOf(t.disp);
    }
  }

  lemma {:induction false} PreIndexAddress(t: Tree, osz: nat, st: State)
    requires t.Based? && WellFormed(t) && Wf(st) && t.kind.PreIndex?
    ensures var (off, disp) := Settled(t);
            var ereg := BaseNumber(t.base);
            FormAddress(st, ereg, !t.kind.Indirect?, t.kind.PostIndex?, off, IndexValue(st, t.index), disp)
                == BasedAddress(t, st)
  {
    assert Settled(t) == (AmountOf(t.off), AmountOf(t.disp));
  }

  lemma {:induction false} PostIndexAddress(t: Tree, osz: nat, st: State)
    requires t.Based? && WellFormed(t) && Wf(st) && t.kind.PostIndex?
    ensures var (off, disp) := Settled(t);
            var ereg := BaseNumber(t.base);
            FormAddress(st, ereg, !t.kind.Indirect?, t.kind.PostIndex?, off, IndexValue(st, t.index), disp)
                == BasedAddress(t, st)
  {
    assert Settled(t) == (AmountOf(t.off), AmountOf(t.disp));
    var p := AddrOf(st, BaseOf(st, t.base));
    if p.Ok? {
      PlusPlus(p.value, AmountOf(t.off), IndexValue(st, t.index));
    }
  }

  // ----- the theorem -------------------------------------------------------------------------------

  /** The operands of instructions with size bits. */
  lemma {:induction false} SizedHolds(t: Tree, osz: nat, st: State, ip: Addr)
    requires Accepted(t, osz) && Faithful(t, osz, Written) && Wf(st) && CodeAt(st, ip, Ea(t, osz, false).ext)
    ensures SizedAgrees(t, osz, st, ip)
  {
    match t
    case DataReg(_) => DataRegAgrees(t, osz, st, ip);
    case RegOffset(_, _) => RegOffsetAgrees(t, osz, st, ip);
    case Absolute(_) => AbsoluteAgrees(t, osz, st, ip);
    case PostInc(_) => StepAgrees(t, osz, st, ip);
    case PreDec(_) => StepAgrees(t, osz, st, ip);
    case Immediate(_) => ImmediateAgrees(t, osz, st, ip);
    case Based(kind, base, off, index, disp) =>
      if General(t) {
        GeneralAgrees(t, osz, st, ip);
      } else if base.Areg? && AmountOf(off) == 0 && kind.Indirect? {
        NoOffsetAgrees(t, osz, st, ip);
      } else if !Overflow(9, AmountOf(off)) {
        ShortOffsetAgrees(t, osz, st, ip);
      } else {
        assert !kind.PostIndex?;
        LongOffsetAgrees(t, osz, st, ip);
      }
  }

  /** Size bits aside, field and extension words do not depend on whether they are
      emitted, nor on the suffix. */
  lemma {:induction false} SameField(t: Tree, osz: nat, unsized: bool, osz': nat)
    requires WellFormed(t) && !t.Immediate?
    ensures SameBut(Ea(t, osz, unsized), Ea(t, osz', false))
    ensures Ea(t, osz', false).Emitted? && InMemory(t) ==> Ea(t, osz', false).bits / 64 == SizeCode(osz')
  {
    if t.Based? {
      BasedField(t, Eam(osz, unsized));
      BasedField(t, Eam(osz', false));
      var e := EaBased(t.kind, t.base, t.off, t.index, t.disp, 0);
      if e.Emitted? {
        SizeAside(osz, unsized, osz', e.bits);
      }
    } else if t.DataReg? || t.AddressReg? {
      SizeAside(0, unsized, 0, t.r);
    } else {
      PlainField(t, osz, unsized, osz');
    }
  }

  predicate SameBut(e: Emitted, e': Emitted) {
    && e.Emitted? == e'.Emitted?
    && (e.Emitted? ==>
          && e.bits < 0x100 && e'.bits < 0x100 && e.bits % 64 == e'.bits % 64
          && e.ext == e'.ext && e.clean == e'.clean)
  }

  lemma {:induction false} SizeAside(osz: nat, unsized: bool, osz': nat, low: nat)
    requires low < 64
    ensures var b, b' := Eam(osz, unsized) + low, Eam(osz', false) + low;
            b < 0x100 && b' < 0x100 && b % 64 == b' % 64 && b' / 64 == SizeCode(osz')
  {
  }

  lemma {:induction false} PlainField(t: Tree, osz: nat, unsized: bool, osz': nat)
    requires WellFormed(t) && InMemory(t) && !t.Based?
    ensures SameBut(Ea(t, osz, unsized), Ea(t, osz', false))
    ensures Ea(t, osz', false).Emitted? ==> Ea(t, osz', false).bits / 64 == SizeCode(osz')
  {
    match t
    case RegOffset(r, _) => SizeAside(osz, unsized, osz', 0x28 + r);
    case Absolute(_) => SizeAside(osz, unsized, osz', 0x3A);
    case PostInc(r) => SizeAside(osz, unsized, osz', 0x10 + r);
    case PreDec(r) => SizeAside(osz, unsized, osz', 0x18 + r);
  }

  lemma {:induction false} BasedField(t: Tree, eam: nat)
    requires t.Based? && WellFormed(t) && (eam == 0 || eam == 0x40 || eam == 0x80)
    ensures var e := EaBased(t.kind, t.base, t.off, t.index, t.disp, 0);
            var e' := EaBased(t.kind, t.base, t.off, t.index, t.disp, eam);
            && e.Emitted? == e'.Emitted?
            && (e.Emitted? ==> e.bits < 0x40 && e'.bits == eam + e.bits && e.ext == e'.ext && e.clean == e'.clean)
  {
  }

  /** Forms whose field says nothing of a size. */
  predicate InMemory(t: Tree) {
    !t.DataReg? && !t.AddressReg? && !t.Immediate?
  }

  /** An operand without size bits agrees as one whose suffix asks for the size at
      which it is worked. */
  lemma {:induction false} AsSized(t: Tree, osz: nat, z: Sizing, st: State, ip: Addr)
    requires Accepted(t, osz) && Wf(st) && Sized(z) && !z.Written? && InMemory(t)
    ensures var e, e' := Ea(t, osz, Unsized(z)), Ea(t, Meaning(osz, z), false);
            e.Emitted? && e'.Emitted? && e.ext == e'.ext
    ensures Agrees(t, osz, z, st, ip) <==> SizedAgrees(t, Meaning(osz, z), st, ip)
  {
    SameField(t, osz, false, osz);
    SameField(t, osz, Unsized(z), osz);
    SameField(t, osz, Unsized(z), Meaning(osz, z));
    var e, e' := Ea(t, osz, Unsized(z)), Ea(t, Meaning(osz, z), false);
    assert e.bits % 64 == e'.bits % 64 && e'.bits / 64 == Worked(t, e.bits, z);
  }

  lemma {:induction false} AcceptedAtAnySize(t: Tree, osz: nat, z: Sizing)
    requires Accepted(t, osz) && Sized(z) && !z.Written? && InMemory(t)
    ensures Accepted(t, Meaning(osz, z))
    ensures Faithful(t, osz, z) <==> Faithful(t, Meaning(osz, z), Written)
  {
    SameField(t, osz, false, osz);
    SameField(t, osz, false, Meaning(osz, z));
  }

  /** An immediate is emitted with its size in any case, and worked by it when the
      processor reads size bits. */
  lemma {:induction false} ImmediateEitherWay(t: Tree, osz: nat, z: Sizing, st: State, ip: Addr)
    requires WellFormed(t) && t.Immediate? && Wf(st) && Sized(z)
    ensures Ea(t, osz, Unsized(z)) == Ea(t, osz, false)
    ensures z.Assumed? ==> (Agrees(t, osz, z, st, ip) <==> SizedAgrees(t, osz, st, ip))
  {
  }

  /** No field says, without extension words, that the operand is a number, to a
      processor that takes it for a long. */
  lemma {:induction false} NoShortForm(st: State, field: nat, ip: Addr, n: int)
    requires Wf(st) && field < 64
    ensures Decode(st, field, 2, ip) != Ok(Operand(Literal(n), st.a, ip.Plus(0)))
  {
    if field == 0x39 {
      LongNext(st, ip);
      NextDiffers(ip, 0);
    } else if field / 8 < 6 {
      ModeNoLiteral(st, field, ip);
    } else {
      LastNoLiteral(st, field, ip);
    }
  }

  lemma {:induction false} LongNext(st: State, ip: Addr)
    requires Wf(st)
    ensures var o := Decode(st, 0x39, 2, ip); o.Ok? ==> o.value.next == ip.Plus(4)
  {
  }

  lemma {:induction false} ModeNoLiteral(st: State, field: nat, ip: Addr)
    requires Wf(st) && field / 8 < 6
    ensures var o := Decode(st, field, 2, ip); o.Ok? ==> !o.value.target.Literal?
  {
  }

  lemma {:induction false} LastNoLiteral(st: State, field: nat, ip: Addr)
    requires Wf(st) && 48 <= field < 64 && field != 0x39
    ensures var o := Decode(st, field, 2, ip); o.Ok? ==> !o.value.target.Literal?
  {
    ExtendedNoLiteral(st, if field / 8 == 6 then field % 8 else 8, ip);
  }

  lemma {:induction false} ExtendedNoLiteral(st: State, ereg: nat, ip: Addr)
    requires Wf(st) && ereg <= 8
    ensures var o := DecodeExtended(st, ereg, 2, ip); o.Ok? ==> !o.value.target.Literal?
  {
  }

  lemma {:induction false} NextDiffers(ip: Addr, n: nat)
    requires n < 4
    ensures ip.Plus(4) != ip.Plus(n)
  {
    var a, d := ip.addr + n, 4 - n;
    var q, r := a / P64, a % P64;
    DivUnique(a + d, P64, if r + d < P64 then q else q + 1, if r + d < P64 then r + d else r + d - P64);
  }

  /** The word form of an immediate, taken for a long, ends two bytes further on. */
  lemma {:induction false} NoWordForm(st: State, ip: Addr, n: int)
    requires Wf(st)
    ensures Decode(st, 0x39, 2, ip) != Ok(Operand(Literal(n), st.a, ip.Plus(2)))
  {
    NextDiffers(ip, 2);
    var f := FetchLong(st, ip);
    if f.Ok? {
      LongImmediate(st, ip, f.value.0, f.value.1);
      assert f.value.1 == ip.Plus(4);
    }
  }

  /** The words of an immediate of encoded size `sz`. */
  function Form(n: int, sz: nat): Emitted {
    if sz == 1 then Emitted(0xC0 + NasSigned(6, n), [], true)
    else if sz == 2 then Emitted(0x79, [Sword(n)], true)
    else Emitted(0xB9, Dword(NasSigned(36, n)), true)
  }

  lemma {:induction false} UnreadForm(n: int, sz: nat, st: State, ip: Addr)
    requires Wf(st) && (sz == 1 || sz == 2 || sz == 4) && CodeAt(st, ip, Form(n, sz).ext)
    ensures var e := Form(n, sz);
            Decode(st, e.bits % 64, 2, ip) == Ok(Operand(Literal(n), st.a, ip.Plus(2 * |e.ext|)))
            <==> sz == 4 && !Overflow(36, n)
  {
    ImmediateFields(n);
    if sz == 1 {
      NoShortForm(st, (0xC0 + NasSigned(6, n)) % 64, ip, n);
    } else if sz == 2 {
      NoWordForm(st, ip, n);
    } else {
      LongReads(n, st, ip);
      ReadBackExact(n, 4);
    }
  }

  /** An immediate of an opcode without size bits comes back exactly in its long
      form, with a value that fits it. */
  lemma {:induction false} UnreadImmediate(t: Tree, osz: nat, z: Sizing, st: State, ip: Addr)
    requires Accepted(t, osz) && t.Immediate? && z.Unread? && Wf(st) && CodeAt(st, ip, Ea(t, osz, Unsized(z)).ext)
    ensures Agrees(t, osz, z, st, ip) <==> Faithful(t, osz, z)
  {
    var n, sz := Amount(t.imm), ImmediateSize(t.imm, osz).value;
    ImmediateEitherWay(t, osz, z, st, ip);
    ImmediateWords(t, osz);
    ImmediateFields(n);
    UnreadForm(n, sz, st, ip);
    UnreadFaithful(t, osz, z);
  }

  lemma {:induction false} UnreadFaithful(t: Tree, osz: nat, z: Sizing)
    requires Accepted(t, osz) && t.Immediate? && z.Unread?
    ensures var sz := ImmediateSize(t.imm, osz);
            && (sz == Some(1) || sz == Some(2) || sz == Some(4))
            && (Faithful(t, osz, z) <==> sz == Some(4) && !Overflow(36, Amount(t.imm)))
  {
  }

  lemma {:induction false} ImmediateFields(n: int)
    ensures 0xC0 + NasSigned(6, n) < 0x100 && 0x79 % 64 == 0x39 && 0xB9 % 64 == 0x39 && 0xB9 / 64 == 2
  {
    Widths();
    NasSignedInRange(6, n);
  }

  /** SSMA #5, taken for d5. */
  lemma {:induction false} SsmaFive(st: State, ip: Addr)
    requires Wf(st)
    ensures var t := Immediate(Numeric(5, false));
            && Accepted(t, 0) && Ea(t, 0, true) == Emitted(0xC5, [], true) && !Faithful(t, 0, Unread(true))
            && Decode(st, 0xC5 % 64, 2, ip) == Ok(Operand(InReg(5, 36), st.a, ip))
            && !Agrees(t, 0, Unread(true), st, ip)
  {
    Widths();
    RegisterField(st, 5, 2, ip);
    NoShortForm(st, 5, ip, 5);
  }

  lemma {:induction false} UnsizedDataReg(t: Tree, osz: nat, z: Sizing, st: State, ip: Addr)
    requires WellFormed(t) && t.DataReg? && Wf(st) && Sized(z) && !z.Written? && ip.addr < P64
    ensures Agrees(t, osz, z, st, ip)
  {
    PlusZero(ip);
    var e := Ea(t, osz, Unsized(z));
    assert e == Emitted(Eam(0, Unsized(z)) + t.r, [], true) && e.bits % 64 == t.r;
    RegisterField(st, t.r, Worked(t, e.bits, z), ip);
  }

  /** Every accepted operand outside the listed families, of any instruction, means to
      the processor what it meant in the source. */
  lemma {:induction false} AgreementHolds(t: Tree, osz: nat, z: Sizing, st: State, ip: Addr)
    requires Accepted(t, osz) && Faithful(t, osz, z) && Wf(st) && Sized(z) && CodeAt(st, ip, Ea(t, osz, Unsized(z)).ext)
    ensures Agrees(t, osz, z, st, ip)
  {
    if z.Written? {
      SizedHolds(t, osz, st, ip);
    } else if t.DataReg? {
      UnsizedDataReg(t, osz, z, st, ip);
    } else if t.Immediate? {
      ImmediateEitherWay(t, osz, z, st, ip);
      if z.Unread? {
        UnreadImmediate(t, osz, z, st, ip);
      } else {
        SizedHolds(t, osz, st, ip);
      }
    } else {
      AcceptedAtAnySize(t, osz, z);
      AsSized(t, osz, z, st, ip);
      SizedHolds(t, Meaning(osz, z), st, ip);
    }
  }

  /** ... and every operand of those families is encoded wrongly: the condition is
      exact. */
  lemma {:induction false} AgreementExactly(t: Tree, osz: nat, z: Sizing)
    requires Accepted(t, osz) && Sized(z)
    ensures (forall st, ip :: Wf(st) && CodeAt(st, ip, Ea(t, osz, Unsized(z)).ext) ==> Agrees(t, osz, z, st, ip))
            <==> Faithful(t, osz, z)
  {
    if Faithful(t, osz, z) {
      forall st, ip | Wf(st) && CodeAt(st, ip, Ea(t, osz, Unsized(z)).ext)
        ensures Agrees(t, osz, z, st, ip)
      {
        AgreementHolds(t, osz, z, st, ip);
      }
    } else {
      var st, ip := Misread(t, osz, z);
    }
  }

  // ----- witnesses for the families that go wrong ------------------------------------------------------

  function CodeBytes(ws: seq<nat>): (b: seq<Byte>)
    ensures |b| == 2 * |ws|
  {
    if |ws| == 0 then [] else CodeBytes(ws[..|ws| - 1]) + WordBytes(ws[|ws| - 1])
  }

  lemma {:induction false} CodeBytesRead(ws: seq<nat>, i: nat)
    requires i < |ws| && ws[i] < P18
    ensures Uw(CodeBytes(ws), 2 * i) == ws[i]
    decreases |ws|
  {
    var n := |ws| - 1;
    if i < n {
      CodeBytesRead(ws[..n], i);
    } else {
      WordRoundTrip(ws[n], CodeBytes(ws[..n]), []);
      assert CodeBytes(ws) == CodeBytes(ws[..n]) + WordBytes(ws[n]) + [];
    }
  }

  /** A machine holding nothing but the extension words, in supervisor mode, with
      all address registers at physical 0. */
  function Small(ws: seq<nat>, tab: seq<Desc>): (st: State)
    ensures Wf(st)
  {
    State(AReg(0, 0), seq(8, _ => 0), seq(8, _ => AReg(FLAT, 0)), AReg(0, 0), 0, 0, SU, tab, CodeBytes(ws))
  }

  function Start(ws: seq<nat>): Addr {
    Addr(CSeg(FLAT, EXEC, 2 * |ws|, 0), 0)
  }

  lemma {:induction false} SmallHolds(ws: seq<nat>, tab: seq<Desc>)
    requires |ws| <= 3 && forall i :: 0 <= i < |ws| ==> ws[i] < P18
    ensures CodeAt(Small(ws, tab), Start(ws), ws)
  {
    forall i | 0 <= i < |ws|
      ensures Uw(CodeBytes(ws), 0 + 2 * i) == ws[i]
    {
      CodeBytesRead(ws, i);
    }
  }

  /** An operand of one of the families, and a state in which the processor reads
      something else. */
  lemma {:induction false} Misread(t: Tree, osz: nat, z: Sizing) returns (st: State, ip: Addr)
    requires Accepted(t, osz) && !Faithful(t, osz, z) && Sized(z)
    ensures Wf(st) && CodeAt(st, ip, Ea(t, osz, Unsized(z)).ext) && !Agrees(t, osz, z, st, ip)
  {
    if z.Written? {
      st, ip := SizedMisread(t, osz);
    } else if t.AddressReg? {
      st, ip := SizedMisread(t, osz);
      UnsizedAddressReg(t, osz, z, st, ip);
    } else if t.Immediate? {
      var ws := Ea(t, osz, false).ext;
      st, ip := Small(ws, []), Start(ws);
      ImmediateEitherWay(t, osz, z, st, ip);
      ImmediateHolds(t, osz);
      if z.Unread? {
        UnreadImmediate(t, osz, z, st, ip);
      } else {
        ImmediateAgrees(t, osz, st, ip);
      }
    } else {
      AcceptedAtAnySize(t, osz, z);
      st, ip := SizedMisread(t, Meaning(osz, z));
      AsSized(t, osz, z, st, ip);
    }
  }

  lemma {:induction false} ImmediateHolds(t: Tree, osz: nat)
    requires Accepted(t, osz) && t.Immediate?
    ensures var ws := Ea(t, osz, false).ext; CodeAt(Small(ws, []), Start(ws), ws)
  {
    var ws := Ea(t, osz, false).ext;
    SmallHolds(ws, []);
  }

  lemma {:induction false} UnsizedAddressReg(t: Tree, osz: nat, z: Sizing, st: State, ip: Addr)
    requires WellFormed(t) && t.AddressReg? && Wf(st) && Sized(z) && !z.Written?
    ensures var e := Ea(t, osz, Unsized(z)); e.Emitted? && e.ext == Ea(t, osz, false).ext == []
    ensures !Agrees(t, osz, z, st, ip)
  {
    var e := Ea(t, osz, Unsized(z));
    assert e == Emitted(Eam(0, Unsized(z)) + t.r, [], true) && e.bits % 64 == t.r;
    RegisterField(st, t.r, Worked(t, e.bits, z), ip);
    assert Denote(t, Meaning(osz, z), st) == Ok((InAddressReg(t.r), st.a));
    assert !ReadsAs(t, Meaning(osz, z), st, ip, t.r, Worked(t, e.bits, z), 0);
  }

  lemma {:induction false} RegisterField(st: State, r: nat, easz: nat, ip: Addr)
    requires Wf(st) && r < 8 && easz < 3
    ensures Decode(st, r, easz, ip) == Ok(Operand(InReg(r, Bits(easz)), st.a, ip))
  {
  }

  lemma {:induction false} SizedMisread(t: Tree, osz: nat) returns (st: State, ip: Addr)
    requires Accepted(t, osz) && !Faithful(t, osz, Written)
    ensures Wf(st) && CodeAt(st, ip, Ea(t, osz, false).ext) && !SizedAgrees(t, osz, st, ip)
  {
    var ws := Ea(t, osz, false).ext;
    ip := Start(ws);
    match t
    case DataReg(_) =>
      st := Small(ws, []);
      MisreadRegister(t, osz);
    case AddressReg(_) =>
      st := Small(ws, []);
      MisreadRegister(t, osz);
    case RegOffset(r, v) =>
      st := Small(ws, []);
      MisreadRegOffset(t, osz);
    case Absolute(v) =>
      var tab := AbsoluteTable(v);
      st := Small(ws, tab);
      MisreadAbsolute(t, osz);
    case Immediate(v) =>
      st := Small(ws, []);
      MisreadImmediate(t, osz);
    case Based(_, _, _, _, _) =>
      st := Small(ws, []);
      MisreadBased(t, osz);
  }

  lemma {:induction false} MisreadImmediate(t: Tree, osz: nat)
    requires Accepted(t, osz) && !Faithful(t, osz, Written) && t.Immediate?
    ensures var ws := Ea(t, osz, false).ext;
            CodeAt(Small(ws, []), Start(ws), ws) && !SizedAgrees(t, osz, Small(ws, []), Start(ws))
  {
    var ws := Ea(t, osz, false).ext;
    ImmediateExt(t, osz);
    SmallHolds(ws, []);
    ImmediateAgrees(t, osz, Small(ws, []), Start(ws));
  }

  lemma {:induction false} ImmediateExt(t: Tree, osz: nat)
    requires Accepted(t, osz) && t.Immediate?
    ensures var ws := Ea(t, osz, false).ext; |ws| <= 3 && forall i :: 0 <= i < |ws| ==> ws[i] < P18
  {
    ImmediateWords(t, osz);
  }

  lemma {:induction false} Wraps(n: int)
    requires 0 - P64 <= n < P64
    ensures n % P64 == if n < 0 then P64 + n else n
  {
    DivUnique(n, P64, if n < 0 then -1 else 0, if n < 0 then P64 + n else n);
  }

  lemma {:induction false} AbsoluteDecode(st: State, easz: nat, ip: Addr, ptr: AReg)
    requires Wf(st) && easz < 3 && FetchPointer(st, ip) == Ok((ptr, ip.Plus(6)))
    ensures Decode(st, 0x3A, easz, ip) == Landed(AddrOf(st, ptr), easz, st.a, ip.Plus(6))
  {
  }

  lemma {:induction false} MisreadRegister(t: Tree, osz: nat)
    requires Accepted(t, osz) && !Faithful(t, osz, Written) && (t.DataReg? || t.AddressReg?)
    ensures var ws := Ea(t, osz, false).ext;
            CodeAt(Small(ws, []), Start(ws), ws) && !SizedAgrees(t, osz, Small(ws, []), Start(ws))
  {
    var ws := Ea(t, osz, false).ext;
    var st, ip := Small(ws, []), Start(ws);
    SmallHolds(ws, []);
    FieldSplits(0, t.r);
    assert Ea(t, osz, false) == Emitted(Eam(0, false) + t.r, [], true);
    RegisterField(st, t.r, 2, ip);
    assert !ReadsAs(t, osz, st, ip, t.r, 2, 0);
  }

  lemma {:induction false} MisreadRegOffset(t: Tree, osz: nat)
    requires Accepted(t, osz) && !Faithful(t, osz, Written) && t.RegOffset?
    ensures var ws := Ea(t, osz, false).ext;
            CodeAt(Small(ws, []), Start(ws), ws) && !SizedAgrees(t, osz, Small(ws, []), Start(ws))
  {
    var n := Amount(t.to);
    var ws := Ea(t, osz, false).ext;
    SwordReads(n);
    FieldSplits(osz, 0x28 + t.r);
    assert ws == [0x2_0000 - n];
    SmallHolds(ws, []);
    FetchOne(Small(ws, []), Start(ws), ws);
    RegOffsetDecode(Small(ws, []), t.r, SizeCode(osz), Start(ws), 0x2_0000 - n);
    Wraps(n);
  }

  /** A table in which the segment of an absolute address exists, if it can. */
  function AbsoluteTable(v: Value): seq<Desc> {
    if SegOf(v) < FLAT then seq(SegOf(v) + 1, _ => Desc(0, 0, 0, 0)) else []
  }

  lemma {:induction false} MisreadAbsolute(t: Tree, osz: nat)
    requires Accepted(t, osz) && !Faithful(t, osz, Written) && t.Absolute?
    ensures var ws := Ea(t, osz, false).ext;
            var st := Small(ws, AbsoluteTable(t.at));
            CodeAt(st, Start(ws), ws) && !SizedAgrees(t, osz, st, Start(ws))
  {
    var ws := Ea(t, osz, false).ext;
    var st := Small(ws, AbsoluteTable(t.at));
    SmallHolds(ws, AbsoluteTable(t.at));
    FetchThree(st, Start(ws), ws);
    FieldSplits(osz, 0x3A);
    AbsoluteWords(t, osz);
    AbsoluteDecode(st, SizeCode(osz), Start(ws), AReg(ws[0], ws[1] + ws[2] * P18));
    OtherAddress(st, t.at);
  }

  /** On the small machine an absolute address that does not fit its fields is not
      where the fields point. */
  lemma {:induction false} OtherAddress(st: State, v: Value)
    requires v.Address? && st.tab == AbsoluteTable(v) && |st.mem| <= 6 && 0 - P64 / 2 <= Amount(v) < P64 / 2
    requires !(0 <= Amount(v) < P36 && SegOf(v) < P18)
    ensures AddrOf(st, AReg(SegOf(v) % P18, Amount(v) % P36)) != AddrOf(st, AReg(SegOf(v), Amount(v) % P64))
  {
    Wraps(Amount(v));
  }

  lemma {:induction false} MisreadBased(t: Tree, osz: nat)
    requires Accepted(t, osz) && !Faithful(t, osz, Written) && t.Based?
    ensures var ws := Ea(t, osz, false).ext;
            CodeAt(Small(ws, []), Start(ws), ws) && !SizedAgrees(t, osz, Small(ws, []), Start(ws))
  {
    var off := AmountOf(t.off);
    var ws := Ea(t, osz, false).ext;
    LostIndirection(t, osz);
    SwordReads(off);
    SmallHolds(ws, []);
    FetchOne(Small(ws, []), Start(ws), ws);
    FieldSplits(osz, 0x20 + t.base.r);
    LongOffsetDecode(Small(ws, []), t.base.r, SizeCode(osz), Start(ws), ws[0]);
    SmallBase(ws);
    PointerFaults(t, osz, ws, off);
  }

  lemma {:induction false} LostIndirection(t: Tree, osz: nat)
    requires Accepted(t, osz) && !Faithful(t, osz, Written) && t.Based?
    ensures var off := AmountOf(t.off);
            && t.kind.PreIndex? && t.base.Areg? && !Overflow(18, off)
            && ((off <= -256 && off > -0x2_0000) || 256 <= off < 0x2_0000)
            && Ea(t, osz, false).ext == [Sword(off)] && Ea(t, osz, false).bits == Eam(osz, false) + 0x20 + t.base.r
  {
    Widths();
  }

  lemma {:induction false} SmallBase(ws: seq<nat>)
    ensures AddrOf(Small(ws, []), AReg(FLAT, 0))
         == Ok(Addr(CSeg(FLAT, VALID + SUPER + READ + WRITE + EXEC, 2 * |ws|, 0), 0))
  {
  }

  /** On the small machine the plain address exists, but no pointer does. */
  lemma {:induction false} PointerFaults(t: Tree, osz: nat, ws: seq<nat>, off: int)
    requires t.Based? && WellFormed(t) && t.kind.PreIndex? && t.base.Areg? && off == AmountOf(t.off) && |ws| == 1
    requires (off <= -256 && off > -0x2_0000) || 256 <= off < 0x2_0000
    ensures Denote(t, osz, Small(ws, [])).Fault?
  {
    var st := Small(ws, []);
    SmallBase(ws);
    var p := AddrOf(st, AReg(FLAT, 0)).value;
    assert p.Plus(off).addr == if off < 0 then P64 + off else off;
    assert (p.Plus(off).addr + 6) % P64 > 2;
    assert BasedAddress(t, st).Fault?;
  }
}
