/** What the processor reads where a line's bytes stand: opcode, extension words,
    register mask and branch words, in their order. */
module Emission {
  import opened Codec
  import opened Kernel
  import opened Memory
  import opened Cpu
  import opened Assembler
  import opened Agreement
  import opened Layout
  import Branch
  import Passes

  // ----- words ---------------------------------------------------------------------

  /** Words written one after the other are read one after the other, wherever they
      stand. */
  lemma {:induction false} WordsRead(pre: seq<Byte>, ws: seq<nat>, post: seq<Byte>, i: nat)
    requires i < |ws|
    ensures Uw(pre + WordsBytes(ws) + post, |pre| + 2 * i) == ws[i] % P18
    decreases i
  {
    var m := pre + WordsBytes(ws) + post;
    if i == 0 {
      var w := WordBytes(ws[0]);
      assert m[|pre|] == w[0] && m[|pre| + 1] == w[1];
      WordOf(m, |pre|, ws[0]);
    } else {
      WordsRead(pre + WordBytes(ws[0]), ws[1..], post, i - 1);
      assert pre + WordBytes(ws[0]) + WordsBytes(ws[1..]) + post == m;
    }
  }

  lemma {:induction false} WordOf(m: seq<Byte>, p: nat, n: nat)
    requires p + 2 <= |m| && m[p] == WordBytes(n)[0] && m[p + 1] == WordBytes(n)[1]
    ensures Uw(m, p) == n % P18
  {
    assert m == Splice(m, p, WordBytes(n));
    SpliceWord(m, p, n);
  }

  /** The words `ws` are read one after the other from `p` on. */
  predicate WordsAt(m: seq<Byte>, p: nat, ws: seq<nat>) {
    p + 2 * |ws| <= |m| && forall i :: 0 <= i < |ws| ==> Uw(m, p + 2 * i) == ws[i] % P18
  }

  lemma {:induction false} WordsStand(m: seq<Byte>, p: nat, ws: seq<nat>)
    requires Stands(m, p, WordsBytes(ws))
    ensures WordsAt(m, p, ws)
  {
    var b := WordsBytes(ws);
    assert m == m[..p] + b + m[p + |b|..];
    forall i | 0 <= i < |ws|
      ensures Uw(m, p + 2 * i) == ws[i] % P18
    {
      WordsRead(m[..p], ws, m[p + |b|..], i);
    }
  }

  lemma {:induction false} WordsAppend(ws: seq<nat>, vs: seq<nat>)
    ensures WordsBytes(ws + vs) == WordsBytes(ws) + WordsBytes(vs)
    decreases |ws|
  {
    if |ws| == 0 {
      assert ws + vs == vs;
    } else {
      assert (ws + vs)[1..] == ws[1..] + vs;
      WordsAppend(ws[1..], vs);
    }
  }

  lemma {:induction false} OneWord(n: nat)
    ensures WordsBytes([n]) == WordBytes(n)
  {
    assert WordsBytes([n][1..]) == [];
  }

  // ----- branches --------------------------------------------------------------------

  /** The words of a branch as the processor takes them from memory. */
  function BranchWords(m: seq<Byte>, p: nat): (ws: seq<nat>)
    requires p + 2 <= |m|
    ensures |ws| >= 1 && (Bit(ws[0], 0x2000) && p + 4 <= |m| ==> |ws| >= 2)
  {
    if Bit(Uw(m, p), 0x2000) && p + 4 <= |m| then [Uw(m, p), Uw(m, p + 2)] else [Uw(m, p)]
  }

  /** At `p` the processor finds a branch of condition `op` that leads from `addr` to
      `target`. */
  predicate BranchReads(m: seq<Byte>, p: nat, op: nat, addr: nat, target: nat) {
    && p + 2 <= |m|
    && var ws := BranchWords(m, p);
       && Branch.IsBranch(ws[0]) && Branch.Code(ws[0]) == op && (Bit(ws[0], 0x2000) ==> |ws| == 2)
       && Branch.Destination(ws, addr) == target
  }

  lemma {:induction false} EncodedReads(op: nat, addr: nat, ilen: nat, target: nat, m: seq<Byte>, p: nat)
    requires op < 14 && addr < P64 && target < P64 && (ilen == 2 || ilen == 4) && Branch.Leads(op, addr, ilen, target)
    requires Stands(m, p, WordsBytes(Branch.Encode(op, addr, ilen, target).value))
    ensures BranchReads(m, p, op, addr, target)
  {
    Branch.RoundTrip(op, addr, ilen, target);
    BranchRead(m, p, Branch.Encode(op, addr, ilen, target).value);
  }

  /** Where a branch line's bytes stand, the processor finds a branch of its condition
      to its target. */
  lemma {:induction false} BranchStands(op: Op, at: Placement, m: seq<Byte>, p: nat)
    requires Passes.BranchesThere(op, at) && at.addr < P64 && op.target < P64
    requires Stands(m, p, Output(op, at).value)
    ensures BranchReads(m, p, op.op, at.addr, op.target)
  {
    Passes.NoDesync(op, at);
    EncodedReads(op.op, at.addr, op.ilen, op.target, m, p);
  }

  lemma {:induction false} BranchRead(m: seq<Byte>, p: nat, ws: seq<nat>)
    requires Stands(m, p, WordsBytes(ws)) && (forall i :: 0 <= i < |ws| ==> ws[i] < P18)
    requires 1 <= |ws| <= 2 && (Bit(ws[0], 0x2000) <==> |ws| == 2)
    ensures p + 2 * |ws| <= |m| && BranchWords(m, p) == ws
  {
    WordsStand(m, p, ws);
    assert Uw(m, p + 2 * 0) == ws[0] % P18 == ws[0];
    if |ws| == 2 {
      assert Uw(m, p + 2 * 1) == ws[1] % P18 == ws[1];
    }
  }

  // ----- operands ----------------------------------------------------------------------

  /** The encoder's bits and words fit their places. */
  lemma {:induction false} EaFits(t: Tree, osz: nat, unsized: bool)
    requires WellFormed(t) && Ea(t, osz, unsized).Emitted?
    ensures var e := Ea(t, osz, unsized); e.bits < 0x100 && forall i :: 0 <= i < |e.ext| ==> e.ext[i] < P18
    ensures unsized && !t.Immediate? ==> Ea(t, osz, unsized).bits < 0x40
  {
    match t
    case Immediate(v) => ImmediateEaFits(v, osz);
    case Based(kind, base, off, index, disp) =>
      BasedFits(kind, base, off, index, disp, Eam(osz, unsized));
    case _ =>
  }

  lemma {:induction false} ImmediateEaFits(v: Value, osz: nat)
    requires EaImmediate(v, osz).Emitted?
    ensures var e := EaImmediate(v, osz); e.bits < 0x100 && forall i :: 0 <= i < |e.ext| ==> e.ext[i] < P18
  {
    Widths();
    NasSignedInRange(6, Amount(v));
  }

  lemma {:induction false} BasedFits(kind: Kind, base: BaseReg, off: Option<Value>, index: Option<Index>,
                                     disp: Option<Value>, eam: nat)
    requires (base.Areg? ==> base.r < 8) && (index.Some? ==> index.value.r < 8)
    requires EaBased(kind, base, off, index, disp, eam).Emitted?
    ensures var e := EaBased(kind, base, off, index, disp, eam);
            eam <= e.bits < eam + 0x40 && forall i :: 0 <= i < |e.ext| ==> e.ext[i] < P18
  {
    var offset := if off.Some? then Amount(off.value) else 0;
    NineBits(offset);
    FullFits(kind, base, offset, off.Some?, index, disp, eam);
  }

  lemma {:induction false} FullFits(kind: Kind, base: BaseReg, offset: int, hasoffset: bool, index: Option<Index>,
                                    disp: Option<Value>, eam: nat)
    requires (base.Areg? ==> base.r < 8) && (index.Some? ==> index.value.r < 8)
    ensures var e := EaFull(kind, base, offset, hasoffset, index, disp, eam);
            e.Emitted? ==> eam <= e.bits < eam + 0x40 && forall i :: 0 <= i < |e.ext| ==> e.ext[i] < P18
  {
    var d := if disp.Some? then Amount(disp.value) else 0;
    var moved := Overflow(9, d) && kind.Indirect? && !hasoffset && !Overflow(18, d);
    FormFits(kind, base, if moved then d else offset, if moved then 0 else d, index, eam);
  }

  lemma {:induction false} FormFits(kind: Kind, base: BaseReg, offset: int, d: int, index: Option<Index>, eam: nat)
    requires (base.Areg? ==> base.r < 8) && (index.Some? ==> index.value.r < 8)
    ensures var e := EaForm(kind, base, offset, d, index, eam);
            e.Emitted? ==> eam <= e.bits < eam + 0x40 && forall i :: 0 <= i < |e.ext| ==> e.ext[i] < P18
  {
    NineBits(d);
  }

  /** The opcode word keeps the EA field, the size bits and the operation apart. */
  lemma {:induction false} OpcodeWord(opcode: nat, bits: nat)
    requires opcode % 0x40 == 0 && bits < 0x100
    ensures var w := Or(opcode, bits) % P18;
            && w % 0x40 == bits % 0x40 && w / 0x100 == opcode % P18 / 0x100
            && (opcode % 0x100 == 0 ==> w / 0x40 % 4 == bits / 0x40)
            && (bits < 0x40 ==> w / 0x40 % 4 == opcode / 0x40 % 4)
  {
    OpcodeBits(opcode, bits);
    Narrow(Or(opcode, bits));
    Narrow(opcode);
  }

  lemma {:induction false} OpcodeBits(opcode: nat, bits: nat)
    requires opcode % 0x40 == 0 && bits < 0x100
    ensures Or(opcode, bits) % 0x40 == bits % 0x40 && Or(opcode, bits) / 0x100 == opcode / 0x100
    ensures opcode % 0x100 == 0 ==> Or(opcode, bits) % 0x100 == bits
    ensures bits < 0x40 ==> Or(opcode, bits) / 0x40 == opcode / 0x40
  {
    LowWidths();
    OrBelow(opcode, bits, 6);
    OrAbove(opcode, bits, 8);
    if opcode % 0x100 == 0 {
      OrBelow(opcode, bits, 8);
      DivUnique(bits, 0x100, 0, bits);
    }
    if bits < 0x40 {
      OrAbove(opcode, bits, 6);
    }
  }

  lemma {:induction false} LowWidths()
    ensures Pow2(6) == 0x40 && Pow2(8) == 0x100
  {
    Widths();
  }

  /** Reducing to a word disturbs none of its parts. */
  lemma {:induction false} Narrow(n: nat)
    ensures var w := n % P18;
            && w % 0x40 == n % 0x40 && w % 0x100 == n % 0x100 && w / 0x40 % 4 == n / 0x40 % 4
            && w / 0x40 % 4 == n % 0x100 / 0x40 && w / 0x100 == n / 0x100 % 0x400
  {
    var q, w := n / P18, n % P18;
    Above(n, 0x40, q * 0x1000, w);
    Above(n, 0x100, q * 0x400, w);
    Above(n / 0x40, 4, q * 0x400, w / 0x40);
    Above(n / 0x100, 0x400, q, w / 0x100);
    DivUnique(w / 0x100, 0x400, 0, w / 0x100);
    Quarter(w);
  }

  lemma {:induction false} Above(n: nat, d: nat, k: nat, w: nat)
    requires d > 0 && n == k * d + w
    ensures n % d == w % d && n / d == k + w / d
  {
    var q, r := w / d, w % d;
    assert n == (k + q) * d + r;
    DivUnique(n, d, k + q, r);
  }

  lemma {:induction false} Quarter(w: nat)
    ensures w / 0x40 % 4 == w % 0x100 / 0x40
  {
    var q, r := w / 0x100, w % 0x100;
    Above(w, 0x40, q * 4, r);
    Above(w / 0x40, 4, q, r / 0x40);
  }

  /** The words of an operand line: the opcode with the operand's field, the extension
      words, and for a register list the mask. */
  function LineWords(op: Op): (ws: seq<nat>)
    requires Grammatical(op) && (op.Operand? || op.RegisterList?)
    requires Ea(op.second, op.osz, op.RegisterList? || op.unsized).Emitted?
  {
    var e := Ea(op.second, op.osz, op.RegisterList? || op.unsized);
    [Or(op.opcode, e.bits)] + e.ext + if op.RegisterList? then [op.mask] else []
  }

  /** They are what is read where the line's bytes stand. */
  lemma {:induction false} LineStands(op: Op, at: Placement, m: seq<Byte>, p: nat)
    requires (op.Operand? || op.RegisterList?) && Grammatical(op) && Output(op, at).Some?
    requires Stands(m, p, Output(op, at).value)
    ensures Ea(op.second, op.osz, op.RegisterList? || op.unsized).Emitted?
    ensures |Output(op, at).value| == 2 * |LineWords(op)| && WordsAt(m, p, LineWords(op))
  {
    var e := Ea(op.second, op.osz, op.RegisterList? || op.unsized);
    OneWord(Or(op.opcode, e.bits));
    WordsAppend([Or(op.opcode, e.bits)], e.ext);
    if op.RegisterList? {
      OneWord(op.mask);
      WordsAppend([Or(op.opcode, e.bits)] + e.ext, [op.mask]);
    } else {
      assert LineWords(op) == [Or(op.opcode, e.bits)] + e.ext;
    }
    assert Output(op, at).value == WordsBytes(LineWords(op));
    WordsStand(m, p, LineWords(op));
  }

  // ----- from line to meaning ------------------------------------------------------------

  /** `ip` is at a stretch of `n` bytes of code. */
  predicate Executable(st: Cpu.State, ip: Addr, n: nat) {
    ip.addr + n < P64 && ip.addr + n <= ip.c.len && Bit(ip.c.flags, EXEC) && ip.c.base + ip.addr + n <= |st.mem|
  }

  /** An opcode without EA bits: only instructions whose size bits are not written, or
      not read, have other bits in their place. */
  predicate Suits(opcode: nat, t: Tree, z: Sizing) {
    && opcode % 0x40 == 0
    && match z
       case Written => opcode % 0x100 == 0
       case Assumed(code) => opcode / 0x40 % 4 == code && (t.Immediate? ==> code == 0)
       case Unread(_) => true
  }

  /** The size code at which the processor works the opcode word `w`. */
  function SizeRead(w: nat, z: Sizing): nat {
    if z.Unread? then 2 else w / 0x40 % 4
  }

  lemma {:induction false} SizeFound(opcode: nat, t: Tree, osz: nat, z: Sizing)
    requires WellFormed(t) && Ea(t, osz, Unsized(z)).Emitted? && Sized(z) && Suits(opcode, t, z)
    ensures var e := Ea(t, osz, Unsized(z));
            var w := Or(opcode, e.bits) % P18;
            e.bits < 0x100 && w % 0x40 == e.bits % 0x40 && SizeRead(w, z) == Worked(t, e.bits, z)
  {
    EaFits(t, osz, Unsized(z));
    SizeOfWord(opcode, t, Ea(t, osz, Unsized(z)).bits, z);
  }

  lemma {:induction false} SizeOfWord(opcode: nat, t: Tree, bits: nat, z: Sizing)
    requires bits < 0x100 && Sized(z) && Suits(opcode, t, z) && (Unsized(z) && !t.Immediate? ==> bits < 0x40)
    ensures var w := Or(opcode, bits) % P18; w % 0x40 == bits % 0x40 && SizeRead(w, z) == Worked(t, bits, z)
  {
    OpcodeWord(opcode, bits);
    if z.Assumed? {
      WholeCode(opcode);
    }
  }

  lemma {:induction false} WholeCode(opcode: nat)
    requires opcode % 0x40 == 0
    ensures opcode / 0x40 % 4 == 0 <==> opcode % 0x100 == 0
  {
    Quarter(opcode);
    Above(opcode, 0x40, opcode / 0x100 * 4, opcode % 0x100);
  }

  /** The words behind the first are code for the decoder. */
  lemma {:induction false} CodeStands(st: Cpu.State, ip: Addr, w: nat, ext: seq<nat>, rest: seq<nat>)
    requires Executable(st, ip, 2 * |[w] + ext + rest|) && WordsAt(st.mem, ip.c.base + ip.addr, [w] + ext + rest)
    requires forall i :: 0 <= i < |ext| ==> ext[i] < P18
    ensures Uw(st.mem, ip.c.base + ip.addr) == w % P18 && CodeAt(st, ip.Plus(2), ext)
  {
    var p, ws := ip.c.base + ip.addr, [w] + ext + rest;
    assert Uw(st.mem, p + 2 * 0) == ws[0] % P18;
    forall i | 0 <= i < |ext|
      ensures Uw(st.mem, ip.c.base + (ip.addr + 2) + 2 * i) == ext[i]
    {
      assert Uw(st.mem, p + 2 * (i + 1)) == ws[i + 1] % P18 && ws[i + 1] == ext[i];
      assert p + 2 * (i + 1) == ip.c.base + (ip.addr + 2) + 2 * i;
    }
  }

  lemma {:induction false} WordFetched(st: Cpu.State, ip: Addr, ws: seq<nat>, i: nat)
    requires Executable(st, ip, 2 * |ws|) && WordsAt(st.mem, ip.c.base + ip.addr, ws) && i < |ws|
    ensures WordReads(st, ip, i, ws[i])
  {
    PlusPlus(ip, 2 * i, 2);
    assert Uw(st.mem, ip.c.base + ip.addr + 2 * i) == ws[i] % P18;
  }

  /** At `ip` the processor finds the opcode word `w` of the operation `opcode`, and
      decodes the operand `t` from it and the words behind it as meant. */
  predicate OperandReads(st: Cpu.State, ip: Addr, opcode: nat, t: Tree, osz: nat, z: Sizing, n: nat)
    requires WellFormed(t) && Wf(st)
  {
    && ip.c.base + ip.addr >= 0 && ip.c.base + ip.addr + 2 <= |st.mem|
    && var w := Uw(st.mem, ip.c.base + ip.addr);
       w / 0x100 == opcode % P18 / 0x100 && ReadsAs(t, Meaning(osz, z), st, ip.Plus(2), w % 0x40, SizeRead(w, z), n)
  }

  lemma {:induction false} WordsMean(st: Cpu.State, ip: Addr, opcode: nat, t: Tree, osz: nat, z: Sizing, rest: seq<nat>)
    requires WellFormed(t) && Wf(st) && Sized(z) && Accepted(t, osz) && Faithful(t, osz, z) && Suits(opcode, t, z)
    requires Ea(t, osz, Unsized(z)).Emitted?
    requires var e := Ea(t, osz, Unsized(z));
             var ws := [Or(opcode, e.bits)] + e.ext + rest;
             Executable(st, ip, 2 * |ws|) && WordsAt(st.mem, ip.c.base + ip.addr, ws)
    ensures OperandReads(st, ip, opcode, t, osz, z, |Ea(t, osz, Unsized(z)).ext|)
  {
    var e := Ea(t, osz, Unsized(z));
    EaFits(t, osz, Unsized(z));
    CodeStands(st, ip, Or(opcode, e.bits), e.ext, rest);
    AgreementHolds(t, osz, z, st, ip.Plus(2));
    SizeFound(opcode, t, osz, z);
    OpcodeWord(opcode, e.bits);
  }

  /** Where an operand line's bytes stand as code, the processor takes the field and
      size of the opcode word it reads there, and decodes the operand's meaning from
      the words behind it. */
  lemma {:induction false} OperandMeans(op: Op, at: Placement, st: Cpu.State, ip: Addr, z: Sizing)
    requires op.Operand? && Grammatical(op) && Output(op, at).Some? && Wf(st) && Sized(z) && Unsized(z) == op.unsized
    requires Accepted(op.second, op.osz) && Faithful(op.second, op.osz, z) && Suits(op.opcode, op.second, z)
    requires Executable(st, ip, |Output(op, at).value|) && Stands(st.mem, ip.c.base + ip.addr, Output(op, at).value)
    ensures OperandReads(st, ip, op.opcode, op.second, op.osz, z, |Ea(op.second, op.osz, op.unsized).ext|)
  {
    LineStands(op, at, st.mem, ip.c.base + ip.addr);
    WordsMean(st, ip, op.opcode, op.second, op.osz, z, []);
  }

  /** The same for a register list, whose mask is the word behind its operand. */
  lemma {:induction false} ListMeans(op: Op, at: Placement, st: Cpu.State, ip: Addr)
    requires op.RegisterList? && Grammatical(op) && Output(op, at).Some? && Wf(st)
    requires Accepted(op.second, op.osz) && Faithful(op.second, op.osz, Unread(true)) && op.opcode % 0x40 == 0
    requires Executable(st, ip, |Output(op, at).value|) && Stands(st.mem, ip.c.base + ip.addr, Output(op, at).value)
    ensures OperandReads(st, ip, op.opcode, op.second, op.osz, Unread(true), |Ea(op.second, op.osz, true).ext|)
    ensures WordReads(st, ip, 1 + |Ea(op.second, op.osz, true).ext|, op.mask)
  {
    var ext := Ea(op.second, op.osz, true).ext;
    LineStands(op, at, st.mem, ip.c.base + ip.addr);
    WordsMean(st, ip, op.opcode, op.second, op.osz, Unread(true), [op.mask]);
    var ws := LineWords(op);
    assert |ws| == 2 + |ext| && ws[1 + |ext|] == op.mask;
    WordFetched(st, ip, ws, 1 + |ext|);
  }

  /** Word `n` from `ip` on is fetched as `w`. */
  predicate WordReads(st: Cpu.State, ip: Addr, n: nat, w: nat) {
    FetchWord(st, ip.Plus(2 * n)) == Ok((w % P18, ip.Plus(2 * n + 2)))
  }
}
