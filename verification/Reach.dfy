/** Which decoded operands can leave their segment: the 64-bit address of an operand
    against the address it stands for. */
module Reach {
  import opened Codec
  import opened Kernel
  import opened Cpu

  /** The address an operand stands for, without the reduction to 64 bits; 0 when it
      is no address. */
  function Exact(st: State, ea: nat, easz: nat, ip: Addr): Out<int>
    requires Wf(st) && ea < 64 && easz < 4
  {
    var reg := ea % 8;
    if easz == 3 then Ok(0)
    else match ea / 8
      case 0 => Ok(0)
      case 1 => Ok(st.a[reg].addr)
      case 2 => Ok(st.a[reg].addr)
      case 3 => Ok(st.a[reg].addr - |Unit(easz, 0)|)
      case 4 =>
        var (w, _) :- FetchWord(st, ip);
        Ok(st.a[reg].addr + Sex(18, w))
      case 5 =>
        var (w, _) :- FetchWord(st, ip);
        Ok(w)
      case 6 => ExactExtended(st, reg, ip)
      case _ =>
        if reg == 0 then ExactExtended(st, 8, ip)
        else if reg == 2 then
          var (ptr, _) :- FetchPointer(st, ip);
          Ok(ptr.addr)
        else Ok(0)
  }

  function ExactExtended(st: State, ereg: nat, ip: Addr): Out<int>
    requires Wf(st) && ereg <= 8
  {
    var (ext, ip1) :- FetchWord(st, ip);
    var index := if Bit(ext, 0x2_0000) then Sex(36, st.d[ext / 0x200 % 8]) * Scale(ext / 0x1000 % 4) else 0;
    var small := Sex(9, ext % 0x200);
    var long := ext / 0x8000 > 1;
    var more := long && Bit(ext, 0x4000);
    var (w, _) :- if more then FetchWord(st, ip1) else Ok((0, ip1));
    var offset := if more then Sex(18, w) else if long then 0 else small;
    var disp := if long then small else 0;
    ExactForm(st, ereg, Bit(ext, 0x8000), ext / 0x8000 == 7, offset, index, disp)
  }

  function ExactForm(st: State, ereg: nat, memory: bool, post: bool, offset: int, index: int, disp: int): Out<int>
    requires Wf(st) && ereg <= 8
  {
    var p :- AddrOf(st, Base(st, ereg));
    if !memory then Ok(p.addr + offset + index + disp)
    else if post then
      var q :- Deref(st, p.Plus(offset).Plus(index));
      Ok(q.addr + disp)
    else
      var q :- Deref(st, p.Plus(offset));
      Ok(q.addr + disp + index)
  }

  /** The decoded address is that one modulo 2^64. */
  lemma {:induction false} DecodedAddress(st: State, ea: nat, easz: nat, ip: Addr)
    requires Wf(st) && ea < 64 && easz < 4 && Decode(st, ea, easz, ip).Ok? && Decode(st, ea, easz, ip).value.target.At?
    ensures var t := Decode(st, ea, easz, ip).value.target;
            && t.size == |Unit(easz, 0)| && easz < 3
            && Exact(st, ea, easz, ip).Ok? && t.p.addr == Exact(st, ea, easz, ip).value % P64
  {
    if ea / 8 == 6 {
      ExtendedAddress(st, ea % 8, easz, ip);
    } else if ea / 8 == 7 && ea % 8 == 0 {
      ExtendedAddress(st, 8, easz, ip);
    } else {
      match ea / 8
      case 1 => RegisterAddress(st, ea, easz, ip);
      case 2 => RegisterAddress(st, ea, easz, ip);
      case 3 => PreDecAddress(st, ea, easz, ip);
      case 4 => DisplacedAddress(st, ea, easz, ip);
      case 5 => OffsetAddress(st, ea, easz, ip);
      case _ => AbsoluteAddress(st, ea, easz, ip);
    }
  }

  /** The decoded address against the one it stands for. */
  predicate AddressIs(st: State, ea: nat, easz: nat, ip: Addr)
    requires Wf(st) && ea < 64 && easz < 3
    requires Decode(st, ea, easz, ip).Ok? && Decode(st, ea, easz, ip).value.target.At?
  {
    var t := Decode(st, ea, easz, ip).value.target;
    t.size == |Unit(easz, 0)| && Exact(st, ea, easz, ip).Ok? && t.p.addr == Exact(st, ea, easz, ip).value % P64
  }

  lemma {:induction false} RegisterAddress(st: State, ea: nat, easz: nat, ip: Addr)
    requires Wf(st) && ea < 64 && easz < 3 && (ea / 8 == 1 || ea / 8 == 2)
    requires Decode(st, ea, easz, ip).Ok? && Decode(st, ea, easz, ip).value.target.At?
    ensures AddressIs(st, ea, easz, ip)
  {
    Reduced(st.a[ea % 8].addr);
  }

  lemma {:induction false} PreDecAddress(st: State, ea: nat, easz: nat, ip: Addr)
    requires Wf(st) && ea < 64 && easz < 3 && ea / 8 == 3
    requires Decode(st, ea, easz, ip).Ok? && Decode(st, ea, easz, ip).value.target.At?
    ensures AddressIs(st, ea, easz, ip)
  {
  }

  lemma {:induction false} DisplacedAddress(st: State, ea: nat, easz: nat, ip: Addr)
    requires Wf(st) && ea < 64 && easz < 3 && ea / 8 == 4
    requires Decode(st, ea, easz, ip).Ok? && Decode(st, ea, easz, ip).value.target.At?
    ensures AddressIs(st, ea, easz, ip)
  {
    DisplacedDecode(st, ea, easz, ip);
    DisplacedExact(st, ea, easz, ip);
  }

  lemma {:induction false} DisplacedDecode(st: State, ea: nat, easz: nat, ip: Addr)
    requires Wf(st) && ea < 64 && easz < 3 && ea / 8 == 4 && Decode(st, ea, easz, ip).Ok?
    ensures FetchWord(st, ip).Ok? && AddrOf(st, st.a[ea % 8]).Ok?
    ensures var (w, next) := FetchWord(st, ip).value;
            var p := AddrOf(st, st.a[ea % 8]).value;
            Decode(st, ea, easz, ip) == Ok(Operand(At(p.Plus(Sex(18, w)), Size(easz)), st.a, next))
            && p.addr == st.a[ea % 8].addr
  {
  }

  lemma {:induction false} DisplacedExact(st: State, ea: nat, easz: nat, ip: Addr)
    requires Wf(st) && ea < 64 && easz < 3 && ea / 8 == 4 && FetchWord(st, ip).Ok?
    ensures Exact(st, ea, easz, ip) == Ok(st.a[ea % 8].addr + Sex(18, FetchWord(st, ip).value.0))
  {
  }

  lemma {:induction false} OffsetAddress(st: State, ea: nat, easz: nat, ip: Addr)
    requires Wf(st) && ea < 64 && easz < 3 && ea / 8 == 5
    requires Decode(st, ea, easz, ip).Ok? && Decode(st, ea, easz, ip).value.target.At?
    ensures AddressIs(st, ea, easz, ip)
  {
    Reduced(FetchWord(st, ip).value.0);
  }

  lemma {:induction false} AbsoluteAddress(st: State, ea: nat, easz: nat, ip: Addr)
    requires Wf(st) && ea < 64 && easz < 3 && ea == 0x3A
    requires Decode(st, ea, easz, ip).Ok? && Decode(st, ea, easz, ip).value.target.At?
    ensures AddressIs(st, ea, easz, ip)
  {
    Reduced(FetchPointer(st, ip).value.0.addr);
  }

  lemma {:induction false} Reduced(n: nat)
    ensures n < P64 ==> n % P64 == n
  {
  }

  lemma {:induction false} ExtendedAddress(st: State, ereg: nat, easz: nat, ip: Addr)
    requires Wf(st) && ereg <= 8 && DecodeExtended(st, ereg, easz, ip).Ok?
    ensures var t := DecodeExtended(st, ereg, easz, ip).value.target;
            && t.At? && t.size == |Unit(easz, 0)|
            && ExactExtended(st, ereg, ip).Ok? && t.p.addr == ExactExtended(st, ereg, ip).value % P64
  {
    var (ext, ip1) := FetchWord(st, ip).value;
    var index := if Bit(ext, 0x2_0000) then Sex(36, st.d[ext / 0x200 % 8]) * Scale(ext / 0x1000 % 4) else 0;
    var small := Sex(9, ext % 0x200);
    var long := ext / 0x8000 > 1;
    var more := long && Bit(ext, 0x4000);
    var offset := if more then Sex(18, FetchWord(st, ip1).value.0) else if long then 0 else small;
    FormedAddress(st, ereg, Bit(ext, 0x8000), ext / 0x8000 == 7, offset, index, if long then small else 0);
  }

  lemma {:induction false} FormedAddress(st: State, ereg: nat, memory: bool, post: bool, offset: int, index: int,
                                         disp: int)
    requires Wf(st) && ereg <= 8 && FormAddress(st, ereg, memory, post, offset, index, disp).Ok?
    ensures ExactForm(st, ereg, memory, post, offset, index, disp).Ok?
    ensures FormAddress(st, ereg, memory, post, offset, index, disp).value.addr
         == ExactForm(st, ereg, memory, post, offset, index, disp).value % P64
  {
    var p := AddrOf(st, Base(st, ereg)).value;
    if !memory {
      PlusPlus(p, offset, index);
      PlusPlus(p, offset + index, disp);
    }
  }

  /** Registers at their architectural width, segments and memory inside 36 bits. */
  predicate Canonical(st: State) {
    && |st.mem| <= P36 && (forall i :: 0 <= i < |st.tab| ==> st.tab[i].size < P36)
    && forall i :: 0 <= i < |st.d| ==> st.d[i] < P36
  }

  /** An operand's access wraps exactly when the address it stands for is negative by
      no more than its size. */
  lemma {:induction false} OperandWrapsIff(st: State, ea: nat, easz: nat, ip: Addr)
    requires Wf(st) && Canonical(st) && ea < 64 && easz < 4
    requires Decode(st, ea, easz, ip).Ok? && Decode(st, ea, easz, ip).value.target.At?
    ensures Exact(st, ea, easz, ip).Ok?
    ensures var t := Decode(st, ea, easz, ip).value.target;
            t.p.addr + t.size >= P64 <==> 0 - t.size <= Exact(st, ea, easz, ip).value < 0
    ensures ea / 8 == 1 || ea / 8 == 2 || ea / 8 == 5 || ea == 0x3A ==> Exact(st, ea, easz, ip).value >= 0
    ensures ea / 8 == 3 ==> Exact(st, ea, easz, ip).value == st.a[ea % 8].addr - |Unit(easz, 0)|
  {
    DecodedAddress(st, ea, easz, ip);
    ExactSmall(st, ea, easz, ip);
    var x := Exact(st, ea, easz, ip).value;
    DivUnique(x, P64, if x < 0 then -1 else 0, if x < 0 then x + P64 else x);
  }

  /** No address an operand stands for is far out. */
  lemma {:induction false} ExactSmall(st: State, ea: nat, easz: nat, ip: Addr)
    requires Wf(st) && Canonical(st) && ea < 64 && easz < 4
    requires Decode(st, ea, easz, ip).Ok? && Decode(st, ea, easz, ip).value.target.At? && Exact(st, ea, easz, ip).Ok?
    ensures 0 - 16 * P36 < Exact(st, ea, easz, ip).value < 16 * P36
  {
    Widths();
    if ea / 8 == 6 {
      ExtendedSmall(st, ea % 8, easz, ip);
    } else if ea / 8 == 7 && ea % 8 == 0 {
      ExtendedSmall(st, 8, easz, ip);
    } else if ea / 8 == 4 {
      SexNarrow(18, FetchWord(st, ip).value.0);
    }
  }

  lemma {:induction false} ExtendedSmall(st: State, ereg: nat, easz: nat, ip: Addr)
    requires Wf(st) && Canonical(st) && ereg <= 8 && DecodeExtended(st, ereg, easz, ip).Ok?
             && ExactExtended(st, ereg, ip).Ok?
    ensures 0 - 16 * P36 < ExactExtended(st, ereg, ip).value < 16 * P36
  {
    Widths();
    var (ext, ip1) := FetchWord(st, ip).value;
    var r, s := ext / 0x200 % 8, ext / 0x1000 % 4;
    var index := if Bit(ext, 0x2_0000) then Sex(36, st.d[r]) * Scale(s) else 0;
    var small := Sex(9, ext % 0x200);
    var long := ext / 0x8000 > 1;
    var more := long && Bit(ext, 0x4000);
    var offset := if more then Sex(18, FetchWord(st, ip1).value.0) else if long then 0 else small;
    SexNarrow(36, st.d[r]);
    ScaledSmall(Sex(36, st.d[r]), s);
    SexNarrow(9, ext % 0x200);
    if more {
      SexNarrow(18, FetchWord(st, ip1).value.0);
    }
    FormSmall(st, ereg, Bit(ext, 0x8000), ext / 0x8000 == 7, offset, index, if long then small else 0);
  }

  lemma {:induction false} FormSmall(st: State, ereg: nat, memory: bool, post: bool, offset: int, index: int, disp: int)
    requires Wf(st) && Canonical(st) && ereg <= 8 && ExactForm(st, ereg, memory, post, offset, index, disp).Ok?
    requires 0 - P36 < offset < P36 && 0 - P36 < disp < P36 && 0 - 4 * P36 < index < 4 * P36
    ensures 0 - 16 * P36 < ExactForm(st, ereg, memory, post, offset, index, disp).value < 16 * P36
  {
  }

  lemma {:induction false} ScaledSmall(n: int, s: nat)
    requires 0 - P36 / 2 < n < P36 / 2 && s < 4
    ensures 0 - 4 * P36 < n * Scale(s) < 4 * P36
  {
  }

  /** The access of -(a0) with a0 at the start of a segment, in user mode: it passes
      the tests and lands on the byte before the segment. */
  lemma {:induction false} PreDecrementEscapes(st: State, ip: Addr, base: nat)
    requires Wf(st) && st.smr == 0 && st.a[0] == AReg(0, 0) && 0 < base < |st.mem|
    requires |st.tab| > 0 && st.tab[0] == Desc(base, 100, VALID + READ, 7)
    ensures var o := Decode(st, 0x18, 0, ip);
            && o.Ok? && o.value.target == At(Addr(Fetch(st.tab[0], 0), P64 - 1), 1)
            && Access(st, o.value.target.p, 1, READ) == Ok(base - 1)
  {
    assert AddrOf(st, st.a[0]) == Ok(Addr(Fetch(st.tab[0], 0), 0));
    var p := Addr(Fetch(st.tab[0], 0), 0);
    assert p.Plus(-1) == Addr(p.c, P64 - 1);
    assert (P64 - 1 + 1) % P64 == 0;
  }
}
