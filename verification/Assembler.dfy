/** The operand encoder of nas/nas.cc: operand trees with their expressions
    evaluated, the EA field and extension words `ea` emits for them, and the
    length `ealen` predicts in pass 1. */
module Assembler {
  import opened Codec
  import opened Kernel

  /** The segment an address value belongs to. */
  datatype SegRef = NoSegment | LiteralSegment(value: nat) | OtherSegment

  /** Values of expressions (nas.cc's Value, errors and relocation aside). */
  datatype Value =
    | Invalid
    | Numeric(value: int, unresolved: bool)
    | Segment
    | Address(value: int, unresolved: bool, seg: SegRef)

  function Amount(v: Value): int {
    match v
    case Numeric(n, _) => n
    case Address(n, _, _) => n
    case _ => 0
  }

  predicate Unresolved(v: Value) {
    match v
    case Numeric(_, u) => u
    case Address(_, u, _) => u
    case _ => false
  }

  predicate Constant(v: Value) {
    v.Numeric? && !v.unresolved
  }

  datatype Kind = Indirect | PreIndex | PostIndex

  datatype BaseReg = Areg(r: nat) | Pc

  datatype Index = Index(r: nat, scale: Option<Value>)

  /** The operand forms of the grammar. */
  datatype Tree =
    | DataReg(r: nat)
    | AddressReg(r: nat)
    | RegOffset(r: nat, to: Value)
    | Absolute(at: Value)
    | PostInc(r: nat)
    | PreDec(r: nat)
    | Immediate(imm: Value)
    | Based(kind: Kind, base: BaseReg, off: Option<Value>, index: Option<Index>, disp: Option<Value>)

  /** What the grammar can produce. */
  predicate WellFormed(t: Tree) {
    match t
    case DataReg(r) => r < 8
    case AddressReg(r) => r < 8
    case RegOffset(r, _) => r < 8
    case PostInc(r) => r < 8
    case PreDec(r) => r < 8
    case Based(kind, base, _, index, _) =>
      && (base.Areg? ==> base.r < 8)
      && (index.Some? ==> index.value.r < 8)
      && (kind.PostIndex? ==> index.Some?)
    case _ => true
  }

  /** `bits` is the EA field with its size bits (eam); `clean` says that no error
      was recorded on the way. */
  datatype Emitted = Emitted(bits: nat, ext: seq<nat>, clean: bool) | Rejected

  /** The eam bits of a size suffix: 0 is no suffix, else 1, 2, 4, 6 or 8. */
  function Eam(osz: nat, unsized: bool): nat {
    if unsized || osz == 1 then 0 else if osz == 2 then 0x40 else 0x80
  }

  function Sword(n: int): nat {
    NasSigned(18, n) % P18
  }

  /** A long as its two extension words, low word first. */
  function Dword(n: int): seq<nat> {
    [n % P18, n / P18 % P18]
  }

  function Field(base: BaseReg): nat {
    if base.Areg? then base.r else 0x38
  }

  /** Assembly::ea. The parser hangs a size suffix on a data register as its only
      child, where it is not looked at. */
  function Ea(t: Tree, osz: nat, unsized: bool): (e: Emitted)
    requires WellFormed(t)
  {
    var eam := Eam(osz, unsized);
    match t
    case DataReg(r) => Emitted(Eam(0, unsized) + r, [], true)
    // the register's number, less 8
    case AddressReg(r) => Emitted(Eam(0, unsized) + r, [], true)
    case RegOffset(r, v) =>
      if Overflow(18, Amount(v)) then Rejected
      else Emitted(eam + 0x28 + r, [Sword(Amount(v))], true)
    case Absolute(v) =>
      var segnum := if v.Address? && v.seg.LiteralSegment? then v.seg.value else 0;
      Emitted(eam + 0x3A, [segnum % P18] + Dword(Amount(v)), v.Address?)
    case PostInc(r) => Emitted(eam + 0x10 + r, [], true)
    case PreDec(r) => Emitted(eam + 0x18 + r, [], true)
    case Immediate(v) => EaImmediate(v, osz)
    case Based(kind, base, off, index, disp) => EaBased(kind, base, off, index, disp, eam)
  }

  /** An explicit size falls through to the next wider range test, but stays the
      emitted size. */
  function ImmediateSize(v: Value, osz: nat): (sz: Option<nat>) {
    var n := Amount(v);
    var asked := if Unresolved(v) || !v.Numeric? then 4 else osz;
    if asked == 0 then Some(if !Overflow(6, n) then 1 else if !Overflow(18, n) then 2 else 4)
    else if asked == 1 then
      if !Overflow(6, n) || !Overflow(18, n) || !Overflow(36, n) then Some(1) else None
    else if asked == 2 then
      if !Overflow(18, n) || !Overflow(36, n) then Some(2) else None
    else if asked == 4 then
      if !Overflow(36, n) then Some(4) else None
    else None
  }

  function EaImmediate(v: Value, osz: nat): Emitted {
    var n := Amount(v);
    match ImmediateSize(v, osz)
    case None => Rejected
    case Some(sz) =>
      if sz == 1 then Emitted(0xC0 + NasSigned(6, n), [], Constant(v))
      else if sz == 2 then Emitted(0x79, [Sword(n)], Constant(v))
      else Emitted(0xB9, Dword(NasSigned(36, n)), Constant(v))
  }

  function ScaleBits(index: Index): Option<nat> {
    match index.scale
    case None => Some(0)
    case Some(v) =>
      if !Constant(v) then None
      else if v.value == 1 then Some(0)
      else if v.value == 2 then Some(1)
      else if v.value == 4 then Some(2)
      else if v.value == 8 then Some(3)
      else None
  }

  function KindBits(kind: Kind, index: Option<Index>): Option<nat> {
    match index
    case Some(x) =>
      var scale := ScaleBits(x);
      if scale.None? then None
      else
        var top := match kind
                   case Indirect => 0x2_0000
                   case PreIndex => 0x2_8000
                   case PostIndex => 0x3_8000;
        Some(top + scale.value * 0x1000 + x.r * 0x200)
    case None =>
      match kind
      case Indirect => Some(0x1_0000)
      case PreIndex => Some(0x1_8000)
      case PostIndex => None
  }

  function EaBased(kind: Kind, base: BaseReg, off: Option<Value>, index: Option<Index>, disp: Option<Value>,
                   eam: nat): Emitted {
    var offset := if off.Some? then Amount(off.value) else 0;
    var simple := index.None? && disp.None?;
    if off.Some? && !Constant(off.value) then Rejected
    else if simple && base.Areg? && offset == 0 && kind.Indirect? then Emitted(eam + 0x08 + base.r, [], true)
    else if simple && !Overflow(9, offset) then
      Emitted(eam + (if base.Areg? then 0x30 + base.r else 0x38),
              [NasSigned(9, offset) + if kind.Indirect? then 0 else 0x8000], true)
    else if simple && base.Areg? && !Overflow(18, offset) then
      // the addressing kind is not looked at
      Emitted(eam + 0x20 + base.r, [Sword(offset)], true)
    else EaFull(kind, base, offset, off.Some?, index, disp, eam)
  }

  /** The form with a full extension word. */
  function EaFull(kind: Kind, base: BaseReg, offset: int, hasoffset: bool, index: Option<Index>, disp: Option<Value>,
                  eam: nat): Emitted {
    if disp.Some? && !Constant(disp.value) then Rejected
    else
      var d := if disp.Some? then Amount(disp.value) else 0;
      var moved := Overflow(9, d) && kind.Indirect? && !hasoffset && !Overflow(18, d);
      var offset' := if moved then d else offset;
      var d' := if moved then 0 else d;
      EaForm(kind, base, offset', d', index, eam)
  }

  function EaForm(kind: Kind, base: BaseReg, offset: int, d: int, index: Option<Index>, eam: nat): Emitted {
    if Overflow(9, d) || Overflow(18, offset) then Rejected
    else
      match KindBits(kind, index)
      case None => Rejected
      case Some(top) =>
        var ext := top + NasSigned(9, d);
        Emitted(eam + (if base.Areg? then 0x30 + base.r else 0x38),
                if offset != 0 then [ext + 0x4000, Sword(offset)] else [ext], true)
  }

  /** The operands that are encoded without a reported error. */
  predicate Encodable(t: Tree, osz: nat) {
    match t
    case RegOffset(_, v) => !Overflow(18, Amount(v))
    case Absolute(v) => v.Address?
    case Immediate(v) =>
      Constant(v) && (osz == 0 || ((osz == 1 || osz == 2 || osz == 4) && !Overflow(36, Amount(v))))
    case Based(kind, _, off, index, disp) =>
      && (off.Some? ==> Constant(off.value) && !Overflow(18, Amount(off.value)))
      && (index.Some? && index.value.scale.Some? ==>
            Constant(index.value.scale.value) && Amount(index.value.scale.value) in {1, 2, 4, 8})
      && (disp.Some? ==>
            && Constant(disp.value)
            && !Overflow(if kind.Indirect? && off.None? then 18 else 9, Amount(disp.value)))
    case _ => true
  }

  lemma {:induction false} AcceptedIff(t: Tree, osz: nat, unsized: bool)
    requires WellFormed(t)
    ensures Ea(t, osz, unsized).Emitted? && Ea(t, osz, unsized).clean <==> Encodable(t, osz)
  {
    WiderRanges();
    if t.Based? {
      BasedIff(t, Eam(osz, unsized));
    }
  }

  lemma {:induction false} WiderRanges()
    ensures forall n {:trigger Overflow(6, n)} :: Overflow(18, n) ==> Overflow(6, n)
    ensures forall n {:trigger Overflow(18, n)} :: Overflow(36, n) ==> Overflow(18, n)
    ensures forall n {:trigger Overflow(9, n)} :: Overflow(18, n) ==> Overflow(9, n)
  {
    Widths();
  }

  lemma {:induction false} BasedIff(t: Tree, eam: nat)
    requires WellFormed(t) && t.Based?
    ensures var e := EaBased(t.kind, t.base, t.off, t.index, t.disp, eam);
            (e.Emitted? <==> Encodable(t, 0)) && (e.Emitted? ==> e.clean)
  {
    WiderRanges();
    ZeroFits();
    if t.index.Some? {
      ScaleIff(t.index.value);
    }
  }

  lemma {:induction false} ZeroFits()
    ensures !Overflow(9, 0) && !Overflow(18, 0)
  {
    Widths();
  }

  lemma {:induction false} ScaleIff(x: Index)
    ensures ScaleBits(x).Some? <==> x.scale.Some? ==> Constant(x.scale.value) && Amount(x.scale.value) in {1, 2, 4, 8}
  {
  }

  /** Assembly::ealen: the length of the opcode word and its extensions, 0 when it
      cannot tell. */
  function Ealen(t: Tree, osz: nat): nat
    requires WellFormed(t)
  {
    match t
    case DataReg(_) => 2
    case AddressReg(_) => 2
    case RegOffset(_, _) => 4
    case Absolute(_) => 8
    case PostInc(_) => 2
    case PreDec(_) => 2
    case Immediate(v) =>
      var n := Amount(v);
      var asked := if (osz == 0 && Unresolved(v)) || !v.Numeric? then 4 else osz;
      if asked == 0 then (if !Overflow(6, n) then 2 else if !Overflow(18, n) then 4 else 6)
      else if asked == 1 && (!Overflow(6, n) || !Overflow(18, n) || !Overflow(36, n)) then 2
      else if asked == 2 && (!Overflow(18, n) || !Overflow(36, n)) then 4
      else if asked == 4 && !Overflow(36, n) then 6
      else 0
    case Based(kind, base, off, index, disp) =>
      var offset := if off.Some? then Amount(off.value) else 0;
      var simple := index.None? && disp.None?;
      if simple && base.Areg? && offset == 0 && kind.Indirect? then 2
      else if simple && !Overflow(9, offset) then 4
      else if simple && base.Areg? && !Overflow(18, offset) then 4
      else
        var d := if disp.Some? then Amount(disp.value) else 0;
        var moved := Overflow(9, d) && kind.Indirect? && off.None? && !Overflow(18, d);
        if (if moved then d else offset) != 0 then 6 else 4
  }

  /** Pass 1 and pass 2 agree on the length of every operand that is accepted. */
  lemma {:induction false} LengthAgrees(t: Tree, osz: nat, unsized: bool)
    requires WellFormed(t) && Ea(t, osz, unsized).Emitted? && Ea(t, osz, unsized).clean
    ensures Ealen(t, osz) == 2 + 2 * |Ea(t, osz, unsized).ext|
  {
    match t
    case DataReg(_) =>
    case AddressReg(_) =>
    case RegOffset(_, _) =>
    case Absolute(_) =>
    case PostInc(_) =>
    case PreDec(_) =>
    case Immediate(v) => LengthImmediate(v, osz);
    case Based(_, _, _, _, _) => LengthBased(t, osz, unsized);
  }

  lemma {:induction false} LengthImmediate(v: Value, osz: nat)
    requires EaImmediate(v, osz).Emitted? && EaImmediate(v, osz).clean
    ensures ImmediateSize(v, osz).Some?
    ensures var sz := ImmediateSize(v, osz).value;
            |EaImmediate(v, osz).ext| == if sz == 1 then 0 else if sz == 2 then 1 else 2
  {
  }

  lemma {:induction false} LengthBased(t: Tree, osz: nat, unsized: bool)
    requires WellFormed(t) && t.Based? && Ea(t, osz, unsized).Emitted?
    ensures Ealen(t, osz) == 2 + 2 * |Ea(t, osz, unsized).ext|
  {
    match t
    case Based(kind, base, off, index, disp) =>
      var offset := if off.Some? then Amount(off.value) else 0;
      if index.None? && disp.None? && (!Overflow(9, offset) || (base.Areg? && !Overflow(18, offset))) {
      } else {
        LengthFull(kind, base, offset, off.Some?, index, disp, Eam(osz, unsized));
      }
  }

  lemma {:induction false} LengthFull(kind: Kind, base: BaseReg, offset: int, hasoffset: bool, index: Option<Index>,
                                      disp: Option<Value>, eam: nat)
    requires EaFull(kind, base, offset, hasoffset, index, disp, eam).Emitted?
    ensures var d := if disp.Some? then Amount(disp.value) else 0;
            var moved := Overflow(9, d) && kind.Indirect? && !hasoffset && !Overflow(18, d);
            |EaFull(kind, base, offset, hasoffset, index, disp, eam).ext|
                == if (if moved then d else offset) != 0 then 2 else 1
  {
  }

  lemma {:induction false} FormIs(kind: Kind, base: BaseReg, offset: int, d: int, index: Option<Index>, eam: nat)
    requires !Overflow(9, d) && !Overflow(18, offset) && KindBits(kind, index).Some?
    ensures var ext := KindBits(kind, index).value + NasSigned(9, d);
            EaForm(kind, base, offset, d, index, eam)
            == Emitted(eam + (if base.Areg? then 0x30 + base.r else 0x38),
                       if offset != 0 then [ext + 0x4000, Sword(offset)] else [ext], true)
  {
  }

  lemma {:induction false} NineBits(n: int)
    ensures NasSigned(9, n) < 0x200
  {
    Widths();
    NasSignedInRange(9, n);
  }

  /** Extension words fit their 18 bits. */
  lemma {:induction false} ExtensionFits(kind: Kind, index: Option<Index>)
    requires index.Some? ==> index.value.r < 8
    ensures KindBits(kind, index).Some? ==> KindBits(kind, index).value + 0x4000 + 0x200 <= P18
  {
  }

  /** The operand under construction (nas.cc's EA), filled in as `ea` goes along;
      `errors` counts what it reports. */
  class EA {
    var eabits: nat
    var eaext: seq<nat>
    var errors: nat

    constructor ()
      ensures eabits == 0 && eaext == [] && errors == 0
    {
      eabits, eaext, errors := 0, [], 0;
    }

    method Word(n: int)
      modifies this`eaext
      ensures eaext == old(eaext) + [n % P18]
    {
      eaext := eaext + [n % P18];
    }

    method Words2(n: int)
      modifies this`eaext
      ensures eaext == old(eaext) + Dword(n)
    {
      Word(n);
      Word(n / P18);
    }

    /** The result says that the operand was given up. */
    method Fill(t: Tree, osz: nat, unsized: bool) returns (failed: bool)
      requires WellFormed(t) && eaext == [] && errors == 0
      modifies this
      ensures failed == Ea(t, osz, unsized).Rejected?
      ensures var e := Ea(t, osz, unsized);
              !failed ==> eabits == e.bits && eaext == e.ext && (errors == 0 <==> e.clean)
    {
      failed := false;
      var eam := if unsized || osz == 1 then 0 else if osz == 2 then 0x40 else 0x80;
      match t
      case DataReg(r) => eabits := (if unsized then 0 else 0x80) + r;
      case AddressReg(r) => eabits := (if unsized then 0 else 0x80) + r;
      case RegOffset(r, v) =>
        if Overflow(18, Amount(v)) {
          return true;
        }
        eabits := eam + 0x28 + r;
        Word(NasSigned(18, Amount(v)));
      case Absolute(v) =>
        eabits := eam + 0x3A;
        if !v.Address? {
          errors := errors + 1;
        }
        var segnum := 0;
        if v.Address? && v.seg.LiteralSegment? {
          segnum := v.seg.value;
        }
        Word(segnum);
        Words2(Amount(v));
      case PostInc(r) => eabits := eam + 0x10 + r;
      case PreDec(r) => eabits := eam + 0x18 + r;
      case Immediate(v) => failed := FillImmediate(v, osz);
      case Based(kind, base, off, index, disp) => failed := FillBased(kind, base, off, index, disp, eam);
    }

    method FillImmediate(v: Value, suffix: nat) returns (failed: bool)
      requires eaext == [] && errors == 0
      modifies this
      ensures failed == EaImmediate(v, suffix).Rejected?
      ensures var e := EaImmediate(v, suffix);
              !failed ==> eabits == e.bits && eaext == e.ext && (errors == 0 <==> e.clean)
    {
      if Unresolved(v) || !v.Numeric? {
        errors := errors + 1;
      }
      var size := ChooseSize(v, suffix);
      if size.None? {
        return true;
      }
      var n := Amount(v);
      if size.value == 1 {
        eabits := 0xC0 + NasSigned(6, n);
      } else if size.value == 2 {
        eabits := 0x79;
        Word(NasSigned(18, n));
      } else {
        eabits := 0xB9;
        Words2(NasSigned(36, n));
      }
      return false;
    }

    /** The size switch: each explicit size falls through to the next one when the
        value does not fit. */
    static method ChooseSize(v: Value, suffix: nat) returns (size: Option<nat>)
      ensures size == ImmediateSize(v, suffix)
    {
      var n := Amount(v);
      var osz := if Unresolved(v) || !v.Numeric? then 4 else suffix;
      if osz != 0 {
        if osz == 1 && !Overflow(6, n) {
          return Some(osz);
        }
        if (osz == 1 || osz == 2) && !Overflow(18, n) {
          return Some(osz);
        }
        if (osz == 1 || osz == 2 || osz == 4) && !Overflow(36, n) {
          return Some(osz);
        }
        return None;
      } else if !Overflow(6, n) {
        return Some(1);
      } else if !Overflow(18, n) {
        return Some(2);
      }
      return Some(4);
    }

    method FillBased(kind: Kind, base: BaseReg, off: Option<Value>, index: Option<Index>, disp: Option<Value>, eam: nat)
      returns (failed: bool)
      requires eaext == [] && errors == 0 && (index.Some? ==> index.value.r < 8)
      modifies this
      ensures failed == EaBased(kind, base, off, index, disp, eam).Rejected?
      ensures var e := EaBased(kind, base, off, index, disp, eam);
              !failed ==> eabits == e.bits && eaext == e.ext && (errors == 0 <==> e.clean)
    {
      var offset, hasoffset := 0, off.Some?;
      var areg := Field(base);
      if off.Some? {
        if !Constant(off.value) {
          return true;
        }
        offset := off.value.value;
      }
      if index.None? && disp.None? {
        if base.Areg? && offset == 0 && kind.Indirect? {
          eabits := eam + 0x08 + areg;
          return false;
        }
        if !Overflow(9, offset) {
          NineBits(offset);
          eabits := eam + (if base.Areg? then 0x30 + areg else areg);
          Word(NasSigned(9, offset) + if kind.Indirect? then 0 else 0x8000);
          return false;
        }
        if base.Areg? && !Overflow(18, offset) {
          eabits := eam + 0x20 + areg;
          Word(NasSigned(18, offset));
          return false;
        }
      }
      failed := FillFull(kind, base, offset, hasoffset, index, disp, eam);
    }

    method FillFull(kind: Kind, base: BaseReg, given: int, hasoffset: bool, index: Option<Index>, disp: Option<Value>,
                    eam: nat)
      returns (failed: bool)
      requires eaext == [] && errors == 0 && (index.Some? ==> index.value.r < 8)
      modifies this
      ensures failed == EaFull(kind, base, given, hasoffset, index, disp, eam).Rejected?
      ensures var e := EaFull(kind, base, given, hasoffset, index, disp, eam);
              !failed ==> eabits == e.bits && eaext == e.ext && (errors == 0 <==> e.clean)
    {
      var offset, d := given, 0;
      if disp.Some? {
        if !Constant(disp.value) {
          return true;
        }
        d := disp.value.value;
        if Overflow(9, d) {
          if !kind.Indirect? || hasoffset || Overflow(18, d) {
            return true;
          }
          offset, d := d, 0;
        }
      }
      failed := FillForm(kind, base, offset, d, index, eam);
    }

    method FillForm(kind: Kind, base: BaseReg, offset: int, d: int, index: Option<Index>,
                    eam: nat) returns (failed: bool)
      requires eaext == [] && errors == 0 && (index.Some? ==> index.value.r < 8) && !Overflow(9, d)
      modifies this`eabits, this`eaext
      ensures failed == EaForm(kind, base, offset, d, index, eam).Rejected?
      ensures var e := EaForm(kind, base, offset, d, index, eam);
              !failed ==> eabits == e.bits && eaext == e.ext && e.clean
    {
      if Overflow(18, offset) {
        return true;
      }
      var top := KindBits(kind, index);
      if top.None? {
        return true;
      }
      ExtensionFits(kind, index);
      FormIs(kind, base, offset, d, index, eam);
      eabits := eam + (if base.Areg? then 0x30 + base.r else 0x38);
      Extension(top.value, offset, d);
      return false;
    }

    method Extension(top: nat, offset: int, d: int)
      requires top + 0x4000 + 0x200 <= P18
      modifies this`eaext
      ensures eaext == old(eaext) + if offset != 0 then [top + NasSigned(9, d) + 0x4000, Sword(offset)]
              else [top + NasSigned(9, d)]
    {
      NineBits(d);
      if offset != 0 {
        Word(top + NasSigned(9, d) + 0x4000);
        Word(NasSigned(18, offset));
      } else {
        Word(top + NasSigned(9, d));
      }
    }
  }
}
