/** The two passes of Assembly::assemble (nas/nas.cc): pass 1 gives every line its
    address and defines the labels, pass 2 generates the bytes. */
module Layout {
  import opened Codec
  import opened Kernel
  import opened Labels
  import Assembler
  import Branch
  import Literals
  import Ranges

  datatype Label = NoLabel | Named(name: string) | Numbered(num: nat)

  datatype SegKind = Literal | External | Relocatable

  /** Statements, their operands evaluated: an operand's tree as pass 1 and as
      pass 2 sees it, a branch's target as pass 2 does; an opcode without its EA bits. */
  datatype Op =
    | Segment(kind: SegKind)
    | Select(seg: nat)
    | Origin(at: Option<nat>, addr: nat)
    | Space(skip: int)
    | DW(words: seq<int>)
    | DL(longs: seq<int>)
    | DA(addrs: seq<(nat, int)>)
    | DB(bytes: seq<int>)
    | Operand(opcode: nat, first: Assembler.Tree, second: Assembler.Tree, osz: nat, unsized: bool)
    | RegisterList(opcode: nat, first: Assembler.Tree, second: Assembler.Tree, osz: nat, mask: nat)
    | Relative(op: nat, ilen: nat, tseg: nat, target: nat)

  datatype Line = Line(tag: Label, op: Op)

  predicate Grammatical(op: Op) {
    && (op.Operand? || op.RegisterList? ==> Assembler.WellFormed(op.first) && Assembler.WellFormed(op.second))
    && (op.Relative? ==> op.op < 14 && Branch.IsLength(op.ilen))
  }

  /** A program whose statements each fit the address space. */
  predicate Source(lines: seq<Line>) {
    forall i :: 0 <= i < |lines| ==> Grammatical(lines[i].op) && Length(lines[i].op) < P64
  }

  // ----- pass 1 ----------------------------------------------------------------------

  datatype Seg = Seg(kind: SegKind, based: bool, addr: nat, length: nat)

  datatype Placement = Nowhere | At(seg: nat, addr: nat)

  datatype State = State(
    segs: seq<Seg>,
    cseg: Option<nat>,
    syms: map<string, (nat, nat)>,
    locals: seq<Local>,
    placed: seq<Placement>)

  predicate Ok(p: State) {
    p.cseg.Some? ==> p.cseg.value < |p.segs|
  }

  /** The length of a statement's bytes as pass 1 has it. */
  function Length(op: Op): nat
    requires Grammatical(op)
  {
    match op
    case DW(vs) => 2 * |vs|
    case DL(vs) => 4 * |vs|
    case DA(vs) => 6 * |vs|
    case DB(vs) => |vs|
    case Operand(_, first, _, osz, _) => Assembler.Ealen(first, osz)
    case RegisterList(_, first, _, osz, _) =>
      if Assembler.Ealen(first, osz) == 0 then 0 else Assembler.Ealen(first, osz) + 2
    case Relative(_, ilen, _, _) => ilen
    case _ => 0
  }

  predicate Aligns(op: Op) {
    op.DW? || op.DL? || op.DA? || op.Operand? || op.RegisterList? || op.Relative? || op.Space?
  }

  /** The current address. */
  function Here(p: State): nat
    requires Ok(p) && p.cseg.Some?
  {
    p.segs[p.cseg.value].addr
  }

  /** The current segment's address becomes `a`, in 64 bits. */
  function Moved(p: State, a: int): (q: State)
    requires Ok(p) && p.cseg.Some?
    ensures Ok(q)
  {
    p.(segs := p.segs[p.cseg.value := p.segs[p.cseg.value].(addr := a % P64)])
  }

  /** What a statement does in its own first pass. */
  function Begin(p: State, op: Op): (r: Option<State>)
    requires Ok(p)
    ensures r.Some? ==> Ok(r.value)
  {
    match op
    case Segment(k) =>
      Some(p.(segs := p.segs + [Seg(k, false, 0, 0)], cseg := if k.Relocatable? then p.cseg else Some(|p.segs|)))
    case Select(s) => if s < |p.segs| then Some(p.(cseg := Some(s))) else None
    case Origin(at, addr) =>
      var s := if at.Some? then at else p.cseg;
      if s.None? || s.value >= |p.segs| then None
      else Some(Moved(p.(segs := p.segs[s.value := p.segs[s.value].(based := true)], cseg := s), addr))
    case _ => Some(p)
  }

  /** Code, data and space start at even addresses, bytes anywhere. */
  function Align(p: State, op: Op): (r: Option<State>)
    requires Ok(p)
    ensures r.Some? ==> Ok(r.value)
  {
    if !Aligns(op) then Some(p)
    else if p.cseg.None? then None
    else Some(if Here(p) % 2 == 1 then Moved(p, Here(p) + 1) else p)
  }

  function Define(p: State, tag: Label): (r: Option<State>)
    requires Ok(p)
    ensures r.Some? ==> Ok(r.value)
  {
    match tag
    case NoLabel => Some(p)
    case Numbered(n) =>
      if p.cseg.None? then None else Some(p.(locals := p.locals + [Local(n, Here(p), p.cseg.value)]))
    case Named(x) =>
      if p.cseg.None? || x in p.syms then None else Some(p.(syms := p.syms[x := (p.cseg.value, Here(p))]))
  }

  function Place(p: State, len: nat): (r: Option<State>)
    requires Ok(p)
    ensures r.Some? ==> Ok(r.value)
  {
    if len == 0 then Some(p.(placed := p.placed + [Nowhere]))
    else if p.cseg.None? || !p.segs[p.cseg.value].based || p.segs[p.cseg.value].kind.External? then None
    else Some(Moved(p, Here(p) + len).(placed := p.placed + [At(p.cseg.value, Here(p))]))
  }

  function Skip(p: State, op: Op): (q: State)
    requires Ok(p)
    ensures Ok(q)
  {
    if op.Space? && p.cseg.Some? then Moved(p, Here(p) + op.skip) else p
  }

  /** The length of a segment is the highest address reached in it. */
  function Grow(p: State): (q: State)
    requires Ok(p)
    ensures Ok(q)
  {
    if p.cseg.Some? && p.segs[p.cseg.value].based && Here(p) > p.segs[p.cseg.value].length then
      p.(segs := p.segs[p.cseg.value := p.segs[p.cseg.value].(length := Here(p))])
    else p
  }

  /** A line up to the point where its label is defined. */
  function Reached(p: State, op: Op): (r: Option<State>)
    requires Ok(p)
    ensures r.Some? ==> Ok(r.value)
  {
    var b := Begin(p, op);
    if b.None? then None else Align(b.value, op)
  }

  /** A line in pass 1; None is a fatal error. */
  function Step(p: State, line: Line): (r: Option<State>)
    requires Ok(p) && Grammatical(line.op)
    ensures r.Some? ==> Ok(r.value)
  {
    var a := Reached(p, line.op);
    if a.None? then None
    else
      var d := Define(a.value, line.tag);
      if d.None? then None
      else
        var e := Place(d.value, Length(line.op));
        if e.None? then None else Some(Grow(Skip(e.value, line.op)))
  }

  function Pass1(lines: seq<Line>): (r: Option<State>)
    requires Source(lines)
    ensures r.Some? ==> Ok(r.value)
  {
    if |lines| == 0 then Some(State([], None, map[], [], []))
    else
      var p := Pass1(lines[..|lines| - 1]);
      if p.None? then None else Step(p.value, lines[|lines| - 1])
  }

  // ----- pass 2 ----------------------------------------------------------------------

  function WordsBytes(ws: seq<nat>): (b: seq<Byte>)
    ensures |b| == 2 * |ws|
  {
    if |ws| == 0 then [] else WordBytes(ws[0]) + WordsBytes(ws[1..])
  }

  /** The bytes of a statement; None is a reported error. */
  function Output(op: Op, at: Placement): Option<seq<Byte>>
    requires Grammatical(op)
  {
    match op
    case DW(vs) => Some(Literals.Words(vs))
    case DL(vs) => Some(Literals.Longs(vs))
    case DA(vs) => Some(Literals.Addresses(vs))
    case DB(vs) => Some(Literals.Numbers(vs))
    case Operand(opcode, _, second, osz, unsized) =>
      var e := Assembler.Ea(second, osz, unsized);
      if e.Rejected? || !e.clean then None else Some(WordBytes(Or(opcode, e.bits)) + WordsBytes(e.ext))
    case RegisterList(opcode, _, second, osz, mask) =>
      // the register mask follows the extension words
      var e := Assembler.Ea(second, osz, true);
      if e.Rejected? || !e.clean then None else Some(WordBytes(Or(opcode,
          e.bits)) + WordsBytes(e.ext) + WordBytes(mask))
    case Relative(op, ilen, tseg, target) =>
      if at.Nowhere? || at.seg != tseg then None
      else
        var ws := Branch.Encode(op, at.addr, ilen, target);
        if ws.None? then None else Some(WordsBytes(ws.value))
    case _ => Some([])
  }

  /** No error, and no desync between the passes. */
  predicate Completed(op: Op, at: Placement)
    requires Grammatical(op)
  {
    Output(op, at).Some? && |Output(op, at).value| == Length(op)
  }

  /** The instructions of a completed second pass. */
  function Pass2(lines: seq<Line>, placed: seq<Placement>): Option<seq<Ranges.Insn>>
    requires Source(lines) && |placed| == |lines|
  {
    if |lines| == 0 then Some([])
    else
      var n := |lines| - 1;
      var before := Pass2(lines[..n], placed[..n]);
      if before.None? || !Completed(lines[n].op, placed[n]) then None
      else if placed[n].Nowhere? then before
      else Some(before.value + [Ranges.Insn(placed[n].seg, placed[n].addr, Output(lines[n].op, placed[n]).value)])
  }

  /** The passes as assemble runs them, changing the assembly's fields. */
  class Assembly {
    var segs: seq<Seg>
    var cseg: Option<nat>
    var syms: map<string, (nat, nat)>
    var locals: seq<Local>
    var placed: seq<Placement>

    ghost function Abs(): State
      reads this
    {
      State(segs, cseg, syms, locals, placed)
    }

    constructor ()
      ensures Abs() == State([], None, map[], [], [])
    {
      segs, cseg, syms, locals, placed := [], None, map[], [], [];
    }

    method FirstPass(lines: seq<Line>) returns (ok: bool)
      requires Source(lines) && Abs() == State([], None, map[], [], [])
      modifies this
      ensures ok <==> Pass1(lines).Some?
      ensures ok ==> Abs() == Pass1(lines).value
    {
      var i := 0;
      while i < |lines|
        invariant i <= |lines| && Pass1(lines[..i]) == Some(Abs())
      {
        assert lines[..i + 1][..i] == lines[..i];
        ok := FirstPassLine(lines[i]);
        if !ok {
          ErrorsStay(lines, i + 1);
          return;
        }
        i := i + 1;
      }
      assert lines[..i] == lines;
      return true;
    }

    method FirstPassLine(line: Line) returns (ok: bool)
      requires Ok(Abs()) && Grammatical(line.op)
      modifies this
      ensures ok <==> Step(old(Abs()), line).Some?
      ensures ok ==> Abs() == Step(old(Abs()), line).value
    {
      ok := Own(line.op);
      if ok {
        ok := AlignHere(line.op);
      }
      if ok {
        ok := DefineLabel(line.tag);
      }
      if ok {
        ok := Allot(Length(line.op));
      }
      if ok {
        if line.op.Space? && cseg.Some? {
          SetAddress(segs[cseg.value].addr + line.op.skip);
        }
        if cseg.Some? && segs[cseg.value].based && segs[cseg.value].addr > segs[cseg.value].length {
          segs := segs[cseg.value := segs[cseg.value].(length := segs[cseg.value].addr)];
        }
      }
    }

    method AlignHere(op: Op) returns (ok: bool)
      requires Ok(Abs())
      modifies this
      ensures ok <==> Align(old(Abs()), op).Some?
      ensures ok ==> Abs() == Align(old(Abs()), op).value
    {
      ok := true;
      if Aligns(op) {
        if cseg.None? {
          return false;
        }
        if segs[cseg.value].addr % 2 == 1 {
          SetAddress(segs[cseg.value].addr + 1);
        }
      }
    }

    method DefineLabel(tag: Label) returns (ok: bool)
      requires Ok(Abs())
      modifies this
      ensures ok <==> Define(old(Abs()), tag).Some?
      ensures ok ==> Abs() == Define(old(Abs()), tag).value
    {
      ok := true;
      if !tag.NoLabel? {
        if cseg.None? || (tag.Named? && tag.name in syms) {
          return false;
        }
        if tag.Numbered? {
          locals := locals + [Local(tag.num, segs[cseg.value].addr, cseg.value)];
        } else {
          syms := syms[tag.name := (cseg.value, segs[cseg.value].addr)];
        }
      }
    }

    method Allot(ilen: nat) returns (ok: bool)
      requires Ok(Abs())
      modifies this
      ensures ok <==> Place(old(Abs()), ilen).Some?
      ensures ok ==> Abs() == Place(old(Abs()), ilen).value
    {
      ok := true;
      if ilen == 0 {
        placed := placed + [Nowhere];
      } else {
        if cseg.None? || !segs[cseg.value].based || segs[cseg.value].kind.External? {
          return false;
        }
        placed := placed + [At(cseg.value, segs[cseg.value].addr)];
        SetAddress(segs[cseg.value].addr + ilen);
      }
    }

    method Own(op: Op) returns (ok: bool)
      requires Ok(Abs())
      modifies this
      ensures ok <==> Begin(old(Abs()), op).Some?
      ensures ok ==> Abs() == Begin(old(Abs()), op).value
    {
      ok := true;
      match op
      case Segment(k) =>
        segs := segs + [Seg(k, false, 0, 0)];
        if !k.Relocatable? {
          cseg := Some(|segs| - 1);
        }
      case Select(s) =>
        if s >= |segs| {
          return false;
        }
        cseg := Some(s);
      case Origin(at, addr) =>
        var s := if at.Some? then at else cseg;
        if s.None? || s.value >= |segs| {
          return false;
        }
        segs := segs[s.value := segs[s.value].(based := true)];
        cseg := s;
        SetAddress(addr);
      case _ =>
    }

    method SetAddress(a: int)
      requires Ok(Abs()) && cseg.Some?
      modifies this`segs
      ensures Abs() == Moved(old(Abs()), a)
    {
      segs := segs[cseg.value := segs[cseg.value].(addr := a % P64)];
    }

    /** Pass 2 goes by what pass 1 left in `placed`. */
    method SecondPass(lines: seq<Line>) returns (out: Option<seq<Ranges.Insn>>)
      requires Source(lines) && |placed| == |lines|
      ensures out == Pass2(lines, placed)
    {
      var src: seq<Ranges.Insn> := [];
      var i := 0;
      while i < |lines|
        invariant i <= |lines| && Pass2(lines[..i], placed[..i]) == Some(src)
      {
        assert lines[..i + 1][..i] == lines[..i] && placed[..i + 1][..i] == placed[..i];
        var bytes := Output(lines[i].op, placed[i]);
        if bytes.None? || |bytes.value| != Length(lines[i].op) {
          IncompleteStays(lines, placed, i + 1);
          return None;
        }
        if placed[i].At? {
          src := src + [Ranges.Insn(placed[i].seg, placed[i].addr, bytes.value)];
        }
        i := i + 1;
      }
      assert lines[..i] == lines && placed[..i] == placed;
      out := Some(src);
    }
  }

  lemma {:induction false} ErrorsStay(lines: seq<Line>, k: nat)
    requires Source(lines) && k <= |lines|
    ensures Pass1(lines).Some? ==> Pass1(lines[..k]).Some?
    decreases |lines|
  {
    if k == |lines| {
      assert lines[..k] == lines;
    } else {
      ErrorsStay(lines[..|lines| - 1], k);
      assert lines[..|lines| - 1][..k] == lines[..k];
    }
  }

  lemma {:induction false} IncompleteStays(lines: seq<Line>, placed: seq<Placement>, k: nat)
    requires Source(lines) && |placed| == |lines| && k <= |lines|
    ensures Pass2(lines, placed).Some? ==> Pass2(lines[..k], placed[..k]).Some?
    decreases |lines|
  {
    if k == |lines| {
      assert lines[..k] == lines && placed[..k] == placed;
    } else {
      var n := |lines| - 1;
      IncompleteStays(lines[..n], placed[..n], k);
      assert lines[..n][..k] == lines[..k] && placed[..n][..k] == placed[..k];
    }
  }
}
