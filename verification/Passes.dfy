/** What the two passes guarantee together: for every program whose lines do not
    clash, and more for those whose addresses never move back within a segment. */
module Passes {
  import opened Codec
  import opened Kernel
  import opened Labels
  import opened Layout
  import Assembler
  import Branch
  import Ranges

  /** No segment's address is lower in `q` than in `p`. */
  predicate Forward(p: State, q: State) {
    |p.segs| <= |q.segs| && forall s :: 0 <= s < |p.segs| ==> p.segs[s].addr <= q.segs[s].addr
  }

  /** Pass 1 succeeds, and neither a line's own effect (an origin, alignment) nor
      its bytes or space take an address back. */
  ghost predicate Steady(lines: seq<Line>)
    requires Source(lines)
  {
    |lines| == 0 ||
    var n := |lines| - 1;
    && Steady(lines[..n]) && Pass1(lines).Some?
    && Forward(Pass1(lines[..n]).value, Reached(Pass1(lines[..n]).value, lines[n].op).value)
    && Forward(Reached(Pass1(lines[..n]).value, lines[n].op).value, Pass1(lines).value)
  }

  /** The bytes of a line, `len` of them, lie in a based segment below its current
      address and within its length. */
  predicate Fits(p: State, at: Placement, len: nat, even: bool)
    requires at.At?
  {
    && at.seg < |p.segs| && p.segs[at.seg].based && !p.segs[at.seg].kind.External? && len > 0
    && at.addr + len <= p.segs[at.seg].addr && at.addr + len <= p.segs[at.seg].length < P64
    && (even ==> at.addr % 2 == 0)
  }

  predicate AllFit(lines: seq<Line>, p: State)
    requires Source(lines) && |p.placed| == |lines|
  {
    forall i :: 0 <= i < |lines| && p.placed[i].At? ==> Fits(p, p.placed[i], Length(lines[i].op), Aligns(lines[i].op))
  }

  /** Later lines of a segment lie above earlier ones. */
  predicate InOrder(lines: seq<Line>, p: State)
    requires Source(lines) && |p.placed| == |lines|
  {
    forall i, j :: 0 <= i < j < |lines| && p.placed[i].At? && p.placed[j].At? && p.placed[i].seg == p.placed[j].seg ==>
      p.placed[i].addr + Length(lines[i].op) <= p.placed[j].addr
  }

  /** A label denotes the address of the bytes of its line. */
  predicate LabelOk(line: Line, at: Placement, p: State) {
    match line.tag
    case NoLabel => true
    case Named(x) => x in p.syms && (at.At? ==> p.syms[x] == (at.seg, at.addr))
    case Numbered(n) => at.At? ==> Local(n, at.addr, at.seg) in p.locals
  }

  predicate AllLabels(lines: seq<Line>, p: State)
    requires |p.placed| == |lines|
  {
    && (forall i :: 0 <= i < |lines| ==> LabelOk(lines[i], p.placed[i], p))
    && (forall i, j :: 0 <= i < j < |lines| && lines[i].tag.Named? && lines[j].tag.Named? ==>
          lines[i].tag.name != lines[j].tag.name)
  }

  predicate LocalsOk(p: State) {
    && Ascending(p.locals)
    && forall l :: l in p.locals ==> l.seg < |p.segs| && l.addr <= p.segs[l.seg].addr
  }

  /** The bytes of a line lie in a based segment, and within its length unless they
      wrap 64 bits. */
  predicate Lies(p: State, at: Placement, len: nat, even: bool)
    requires at.At?
  {
    && at.seg < |p.segs| && p.segs[at.seg].based && !p.segs[at.seg].kind.External? && len > 0 && at.addr < P64
    && (even ==> at.addr % 2 == 0)
    && (at.addr + len < P64 ==> at.addr + len <= p.segs[at.seg].length)
  }

  predicate AllLie(lines: seq<Line>, p: State)
    requires Source(lines) && |p.placed| == |lines|
  {
    forall i :: 0 <= i < |lines| && p.placed[i].At? ==> Lies(p, p.placed[i], Length(lines[i].op), Aligns(lines[i].op))
  }

  /** What pass 1 leaves of any program. */
  predicate Laid(lines: seq<Line>, p: State)
    requires Source(lines)
  {
    Ok(p) && InRange(p) && |p.placed| == |lines| && AllLie(lines, p) && AllLabels(lines, p)
  }

  /** Two lines of one segment put no bytes at one address. */
  predicate Clear(a: Placement, n: nat, b: Placement, m: nat) {
    a.At? && b.At? && a.seg == b.seg ==> a.addr + n <= b.addr || b.addr + m <= a.addr
  }

  /** The lines as pass 1 placed them do not overlap, and none wraps 64 bits. */
  predicate NoClash(lines: seq<Line>, placed: seq<Placement>)
    requires Source(lines) && |placed| == |lines|
  {
    && (forall i :: 0 <= i < |lines| && placed[i].At? ==> placed[i].addr + Length(lines[i].op) < P64)
    && forall i, j :: 0 <= i < j < |lines| ==> Clear(placed[i], Length(lines[i].op), placed[j], Length(lines[j].op))
  }

  predicate LaidOut(lines: seq<Line>, p: State)
    requires Source(lines)
  {
    Laid(lines, p) && AllFit(lines, p) && InOrder(lines, p) && LocalsOk(p)
  }

  // ----- one line --------------------------------------------------------------------

  /** The current segment as the line's label and bytes see it. */
  function Current(r: State): nat {
    if r.cseg.Some? then r.cseg.value else 0
  }

  /** The line up to its label touches nothing but segments' addresses. */
  lemma {:induction false} ReachedFacts(p: State, op: Op)
    requires Ok(p) && Reached(p, op).Some?
    requires InRange(p)
    ensures var r := Reached(p, op).value;
            && r.placed == p.placed && r.syms == p.syms && r.locals == p.locals
            && |p.segs| <= |r.segs|
            && (forall s :: 0 <= s < |p.segs| ==>
                  r.segs[s].length == p.segs[s].length && (p.segs[s].based ==> r.segs[s].based)
                      && r.segs[s].kind == p.segs[s].kind)
            && InRange(r)
            && (Aligns(op) ==> r.cseg.Some? && Here(r) % 2 == 0)
  {
    var b := Begin(p, op).value;
    if Aligns(op) && Here(b) % 2 == 1 {
      EvenMod(Here(b) + 1);
    }
  }

  predicate InRange(p: State) {
    forall s :: 0 <= s < |p.segs| ==> p.segs[s].addr < P64 && p.segs[s].length < P64
  }

  /** Only the current segment's address and length may differ, and its length only
      upwards. */
  predicate OnlyCurrent(r: State, q: State) {
    && |q.segs| == |r.segs| && InRange(q)
    && (forall s :: 0 <= s < |r.segs| && s != Current(r) ==> q.segs[s] == r.segs[s])
    && (forall s :: 0 <= s < |r.segs| ==>
          r.segs[s].length <= q.segs[s].length && q.segs[s].based == r.segs[s].based
              && q.segs[s].kind == r.segs[s].kind)
  }

  lemma {:induction false} FinishFacts(e: State, op: Op)
    requires Ok(e) && InRange(e)
    ensures var q := Grow(Skip(e, op));
            && OnlyCurrent(e, q) && q.placed == e.placed
            && (!op.Space? ==> forall s :: 0 <= s < |e.segs| ==> q.segs[s].addr == e.segs[s].addr)
            && (e.cseg.Some? && e.segs[e.cseg.value].based ==> q.segs[e.cseg.value].addr <= q.segs[e.cseg.value].length)
  {
  }

  lemma {:induction false} PlaceFacts(d: State, len: nat)
    requires Ok(d) && InRange(d) && Place(d, len).Some?
    ensures var e := Place(d, len).value;
            && OnlyCurrent(d, e) && e.cseg == d.cseg
            && (len == 0 ==> e.placed == d.placed + [Nowhere] && e.segs == d.segs)
            && (len > 0 ==>
                  && d.cseg.Some? && d.segs[Current(d)].based && !d.segs[Current(d)].kind.External?
                  && e.placed == d.placed + [At(Current(d), Here(d))]
                     && e.segs[Current(d)].addr == (Here(d) + len) % P64)
  {
  }

  lemma {:induction false} LabelKeeps(r: State, tag: Label)
    requires Ok(r) && Define(r, tag).Some?
    ensures var d := Define(r, tag).value; d.segs == r.segs && d.cseg == r.cseg && d.placed == r.placed
  {
  }

  /** The rest of the line. */
  lemma {:induction false} RestFacts(p: State, line: Line)
    requires Ok(p) && Grammatical(line.op) && Length(line.op) < P64 && Step(p, line).Some? && InRange(p)
    ensures var r, q, len := Reached(p, line.op).value, Step(p, line).value, Length(line.op);
            && OnlyCurrent(r, q)
            && (len == 0 ==> q.placed == r.placed + [Nowhere])
            && (len > 0 ==>
                  && r.cseg.Some? && r.segs[Current(r)].based && !r.segs[Current(r)].kind.External?
                  && q.placed == r.placed + [At(Current(r), Here(r))]
                  && q.segs[Current(r)].addr == (Here(r) + len) % P64
                     && q.segs[Current(r)].addr <= q.segs[Current(r)].length)
  {
    ReachedFacts(p, line.op);
    var r := Reached(p, line.op).value;
    LabelKeeps(r, line.tag);
    var d := Define(r, line.tag).value;
    PlaceFacts(d, Length(line.op));
    FinishFacts(Place(d, Length(line.op)).value, line.op);
  }

  lemma {:induction false} LabelFacts(p: State, line: Line)
    requires Ok(p) && Grammatical(line.op) && Step(p, line).Some?
    ensures var r, q := Reached(p, line.op).value, Step(p, line).value;
            && (!line.tag.NoLabel? ==> r.cseg.Some?)
            && q.syms == (if line.tag.Named? then r.syms[line.tag.name := (r.cseg.value, Here(r))] else r.syms)
            && (line.tag.Named? ==> line.tag.name !in r.syms)
            && q.locals == r.locals + if line.tag.Numbered? then [Local(line.tag.num, Here(r), r.cseg.value)] else []
  {
    match line.tag
    case NoLabel =>
    case Named(_) =>
    case Numbered(_) =>
  }

  /** The bytes placed end where the segment's address then stands. */
  lemma {:induction false} PlacedEnd(p: State, line: Line)
    requires Ok(p) && Grammatical(line.op) && 0 < Length(line.op) < P64 && Step(p, line).Some?
    requires InRange(p)
    requires Forward(Reached(p, line.op).value, Step(p, line).value)
    ensures var r, q := Reached(p, line.op).value, Step(p, line).value;
            r.cseg.Some? && Current(r) < |q.segs| && q.segs[Current(r)].addr == Here(r) + Length(line.op)
  {
    RestFacts(p, line);
    var r := Reached(p, line.op).value;
    assert r.segs[Current(r)].addr == Here(r);
    Wrapped(Here(r), Length(line.op));
  }

  lemma {:induction false} Wrapped(a: nat, n: nat)
    requires a < P64 && n < P64
    ensures (a + n) % P64 == if a + n < P64 then a + n else a + n - P64
  {
    DivUnique(a + n, P64, if a + n < P64 then 0 else 1, if a + n < P64 then a + n else a + n - P64);
  }

  /** Facts kept by a line that takes no address back. */
  ghost predicate LineOk(lines: seq<Line>, p: State, line: Line) {
    && Source(lines) && LaidOut(lines, p) && Grammatical(line.op) && Length(line.op) < P64 && Step(p, line).Some?
    && Forward(p, Reached(p, line.op).value) && Forward(Reached(p, line.op).value, Step(p, line).value)
  }

  /** One more line of any program. */
  lemma {:induction false} LineLies(lines: seq<Line>, p: State, line: Line)
    requires Source(lines) && Laid(lines, p) && Grammatical(line.op) && Length(line.op) < P64 && Step(p, line).Some?
    ensures Source(lines + [line]) && Laid(lines + [line], Step(p, line).value)
  {
    ReachedFacts(p, line.op);
    RestFacts(p, line);
    var r, q, ls := Reached(p, line.op).value, Step(p, line).value, lines + [line];
    forall i | 0 <= i < |ls| && q.placed[i].At?
      ensures Lies(q, q.placed[i], Length(ls[i].op), Aligns(ls[i].op))
    {
      if i < |lines| {
        assert Lies(p, p.placed[i], Length(lines[i].op), Aligns(lines[i].op));
      } else {
        Wrapped(Here(r), Length(line.op));
      }
    }
    LineLabels(lines, p, line);
  }

  lemma {:induction false} LineFits(lines: seq<Line>, p: State, line: Line)
    requires LineOk(lines, p, line)
    ensures |Step(p, line).value.placed| == |lines| + 1 && Source(lines + [line])
            && AllFit(lines + [line], Step(p, line).value)
  {
    ReachedFacts(p, line.op);
    RestFacts(p, line);
    var r, q, ls := Reached(p, line.op).value, Step(p, line).value, lines + [line];
    forall i | 0 <= i < |ls| && q.placed[i].At?
      ensures Fits(q, q.placed[i], Length(ls[i].op), Aligns(ls[i].op))
    {
      if i < |lines| {
        assert Fits(p, p.placed[i], Length(lines[i].op), Aligns(lines[i].op));
        var s := p.placed[i].seg;
        assert p.segs[s].addr <= r.segs[s].addr <= q.segs[s].addr;
      } else {
        PlacedEnd(p, line);
      }
    }
  }

  lemma {:induction false} LineInOrder(lines: seq<Line>, p: State, line: Line)
    requires LineOk(lines, p, line)
    ensures |Step(p, line).value.placed| == |lines| + 1 && InOrder(lines + [line], Step(p, line).value)
  {
    ReachedFacts(p, line.op);
    RestFacts(p, line);
    var r, q, ls := Reached(p, line.op).value, Step(p, line).value, lines + [line];
    forall i, j | 0 <= i < j < |ls| && q.placed[i].At? && q.placed[j].At? && q.placed[i].seg == q.placed[j].seg
      ensures q.placed[i].addr + Length(ls[i].op) <= q.placed[j].addr
    {
      assert Fits(p, p.placed[i], Length(lines[i].op), Aligns(lines[i].op));
      if j == |lines| {
        var s := p.placed[i].seg;
        assert p.segs[s].addr <= r.segs[s].addr;
      }
    }
  }

  lemma {:induction false} LineLabels(lines: seq<Line>, p: State, line: Line)
    requires Source(lines) && Laid(lines, p) && Grammatical(line.op) && Length(line.op) < P64 && Step(p, line).Some?
    ensures |Step(p, line).value.placed| == |lines| + 1 && AllLabels(lines + [line], Step(p, line).value)
  {
    ReachedFacts(p, line.op);
    RestFacts(p, line);
    LabelFacts(p, line);
    var q, ls := Step(p, line).value, lines + [line];
    forall i | 0 <= i < |ls|
      ensures LabelOk(ls[i], q.placed[i], q)
    {
      if i < |lines| {
        assert LabelOk(lines[i], p.placed[i], p);
      }
    }
    forall i, j | 0 <= i < j < |ls| && ls[i].tag.Named? && ls[j].tag.Named?
      ensures ls[i].tag.name != ls[j].tag.name
    {
      assert LabelOk(lines[i], p.placed[i], p);
    }
  }

  lemma {:induction false} LineLocals(lines: seq<Line>, p: State, line: Line)
    requires LineOk(lines, p, line)
    ensures LocalsOk(Step(p, line).value)
  {
    ReachedFacts(p, line.op);
    RestFacts(p, line);
    LabelFacts(p, line);
    var r, q := Reached(p, line.op).value, Step(p, line).value;
    forall l | l in q.locals
      ensures l.seg < |q.segs| && l.addr <= q.segs[l.seg].addr
    {
      if l in p.locals {
        assert p.segs[l.seg].addr <= r.segs[l.seg].addr <= q.segs[l.seg].addr;
      } else {
        assert r.segs[l.seg].addr <= q.segs[l.seg].addr;
      }
    }
    forall i, j | 0 <= i < j < |q.locals| && q.locals[i].seg == q.locals[j].seg
      ensures q.locals[i].addr <= q.locals[j].addr
    {
      assert q.locals[i] == p.locals[i] && p.locals[i] in p.locals;
      if j == |p.locals| {
        var s := p.locals[i].seg;
        assert p.segs[s].addr <= r.segs[s].addr;
      }
    }
  }

  lemma {:induction false} LineLaid(lines: seq<Line>, p: State, line: Line)
    requires LineOk(lines, p, line)
    ensures Source(lines + [line]) && LaidOut(lines + [line], Step(p, line).value)
  {
    LineLies(lines, p, line);
    LineFits(lines, p, line);
    LineInOrder(lines, p, line);
    LineLocals(lines, p, line);
  }

  // ----- all lines -------------------------------------------------------------------

  lemma {:induction false} Front<T>(s: seq<T>)
    requires |s| > 0
    ensures s[..|s| - 1] + [s[|s| - 1]] == s
  {
  }

  lemma {:induction false} Prefix<T>(a: seq<T>, b: seq<T>)
    requires a <= b
    ensures b[..|a|] == a
  {
  }

  /** The layout of any program that pass 1 accepts: bytes at even addresses where
      required, in based segments and inside their lengths, and every label, defined
      once, at the address of its line's bytes. */
  lemma {:induction false} AnyLaid(lines: seq<Line>)
    requires Source(lines) && Pass1(lines).Some?
    ensures Laid(lines, Pass1(lines).value)
    decreases |lines|
  {
    if |lines| > 0 {
      var n := |lines| - 1;
      Front(lines);
      AnyLaid(lines[..n]);
      LineLies(lines[..n], Pass1(lines[..n]).value, lines[n]);
    }
  }

  /** The layout of any steady program: bytes even and in order, inside their
      segments' lengths, and every label, defined once, at the address of its line's
      bytes. */
  lemma {:induction false} SteadyLaid(lines: seq<Line>)
    requires Source(lines) && Steady(lines)
    ensures Pass1(lines).Some? && LaidOut(lines, Pass1(lines).value)
    decreases |lines|
  {
    if |lines| > 0 {
      var n := |lines| - 1;
      Front(lines);
      SteadyLaid(lines[..n]);
      LineLaid(lines[..n], Pass1(lines[..n]).value, lines[n]);
    }
  }

  /** Pass 2 generates as many bytes as pass 1 counted whenever an operand means the
      same to both, unless a branch has a size suffix other than .b: the only error
      left is a reported one. */
  lemma {:induction false} NoDesync(op: Op, at: Placement)
    requires Grammatical(op) && (op.Operand? || op.RegisterList? ==> op.first == op.second)
    ensures Completed(op, at) <==> Output(op, at).Some? && (op.Relative? ==> op.ilen == 2 || op.ilen == 4)
  {
    if op.Operand? && Output(op, at).Some? {
      Assembler.LengthAgrees(op.second, op.osz, op.unsized);
    }
    if op.RegisterList? && Output(op, at).Some? {
      Assembler.LengthAgrees(op.second, op.osz, true);
    }
  }

  /** The instructions that come out of pass 2 are the lines placed by pass 1, at
      the addresses of pass 1. */
  ghost predicate Generated(lines: seq<Line>, placed: seq<Placement>, src: seq<Ranges.Insn>)
    requires Source(lines) && |placed| == |lines|
  {
    && (forall i :: 0 <= i < |lines| && placed[i].At? ==>
          Output(lines[i].op, placed[i]).Some?
          && Ranges.Insn(placed[i].seg, placed[i].addr, Output(lines[i].op, placed[i]).value) in src)
    && (forall x :: x in src ==> exists i :: 0 <= i < |lines| && IsLine(lines[i], placed[i], x))
  }

  predicate IsLine(line: Line, at: Placement, x: Ranges.Insn) {
    && Grammatical(line.op) && at == At(x.seg, x.addr)
    && Output(line.op, at) == Some(x.bytes) && |x.bytes| == Length(line.op)
  }

  /** One more line, which did or did not place bytes. */
  lemma {:induction false} GeneratedNext(lines: seq<Line>, placed: seq<Placement>, before: seq<Ranges.Insn>,
                                         line: Line, at: Placement)
    requires Source(lines) && |placed| == |lines| && Generated(lines, placed, before)
    requires Grammatical(line.op) && Length(line.op) < P64 && Completed(line.op, at)
    ensures Source(lines + [line])
    ensures var src := if at.Nowhere? then before
                       else before + [Ranges.Insn(at.seg, at.addr, Output(line.op, at).value)];
            Generated(lines + [line], placed + [at], src)
  {
    var n := |lines|;
    var src := if at.Nowhere? then before else before + [Ranges.Insn(at.seg, at.addr, Output(line.op, at).value)];
    var ls, ps := lines + [line], placed + [at];
    assert forall x :: x in before ==> x in src;
    forall i | 0 <= i < |ls| && ps[i].At?
      ensures Output(ls[i].op, ps[i]).Some? && Ranges.Insn(ps[i].seg, ps[i].addr, Output(ls[i].op, ps[i]).value) in src
    {
      assert i < n ==> ls[i] == lines[i] && ps[i] == placed[i];
    }
    forall x | x in src
      ensures exists i :: 0 <= i < |ls| && IsLine(ls[i], ps[i], x)
    {
      if x in before {
        var i :| 0 <= i < n && IsLine(lines[i], placed[i], x);
        assert IsLine(ls[i], ps[i], x);
      } else {
        assert IsLine(ls[n], ps[n], x);
      }
    }
  }

  lemma {:induction false} Pass2Generates(lines: seq<Line>, placed: seq<Placement>)
    requires Source(lines) && |placed| == |lines| && Pass2(lines, placed).Some?
    ensures Generated(lines, placed, Pass2(lines, placed).value)
    decreases |lines|
  {
    if |lines| > 0 {
      var n := |lines| - 1;
      assert lines[..n] + [lines[n]] == lines && placed[..n] + [placed[n]] == placed;
      Pass2Generates(lines[..n], placed[..n]);
      GeneratedNext(lines[..n], placed[..n], Pass2(lines[..n], placed[..n]).value, lines[n], placed[n]);
    }
  }

  /** How many of the first `i` lines place bytes. */
  function Rank(placed: seq<Placement>, i: nat): nat
    requires i <= |placed|
  {
    if i == 0 then 0 else Rank(placed, i - 1) + if placed[i - 1].At? then 1 else 0
  }

  lemma {:induction false} RankGrows(placed: seq<Placement>, i: nat, j: nat)
    requires i < j <= |placed| && placed[i].At?
    ensures Rank(placed, i) < Rank(placed, j)
    decreases j
  {
    if i < j - 1 {
      RankGrows(placed, i, j - 1);
    }
  }

  lemma {:induction false} RankPrefix(placed: seq<Placement>, n: nat, i: nat)
    requires i <= n <= |placed|
    ensures Rank(placed[..n], i) == Rank(placed, i)
    decreases i
  {
    if i > 0 {
      RankPrefix(placed, n, i - 1);
    }
  }

  /** The instruction of a line. */
  function InsnOf(line: Line, at: Placement): Ranges.Insn
    requires Grammatical(line.op) && at.At? && Output(line.op, at).Some?
  {
    Ranges.Insn(at.seg, at.addr, Output(line.op, at).value)
  }

  /** Pass 2 generates the lines that place bytes one after the other. */
  lemma {:induction false} Pass2At(lines: seq<Line>, placed: seq<Placement>, i: nat)
    requires Source(lines) && |placed| == |lines| && Pass2(lines, placed).Some?
    ensures |Pass2(lines, placed).value| == Rank(placed, |placed|)
    ensures i < |lines| && placed[i].At? ==>
              && Output(lines[i].op, placed[i]).Some? && |Output(lines[i].op, placed[i]).value| == Length(lines[i].op)
              && Rank(placed, i) < |Pass2(lines, placed).value|
              && Pass2(lines, placed).value[Rank(placed, i)] == InsnOf(lines[i], placed[i])
    decreases |lines|
  {
    if |lines| > 0 {
      var n := |lines| - 1;
      Pass2At(lines[..n], placed[..n], i);
      RankPrefix(placed, n, n);
      if i < n {
        RankPrefix(placed, n, i);
        assert lines[..n][i] == lines[i] && placed[..n][i] == placed[i];
      }
    }
  }

  /** The instruction of a line is apart from those of earlier lines. */
  lemma {:induction false} NewApart(lines: seq<Line>, placed: seq<Placement>, n: nat, before: seq<Ranges.Insn>,
                                    x: Ranges.Insn)
    requires Source(lines) && |placed| == |lines| && NoClash(lines, placed) && n < |lines| && placed[n].At?
    requires Generated(lines[..n], placed[..n], before) && x in before && x.seg == placed[n].seg
    requires Output(lines[n].op, placed[n]).Some? && |Output(lines[n].op, placed[n]).value| == Length(lines[n].op)
    ensures Ranges.Apart(Ranges.RangeOf(x), Ranges.RangeOf(InsnOf(lines[n], placed[n])))
  {
    var j :| 0 <= j < n && IsLine(lines[..n][j], placed[..n][j], x);
    assert lines[..n][j] == lines[j] && placed[..n][j] == placed[j];
    assert Clear(placed[j], Length(lines[j].op), placed[n], Length(lines[n].op));
  }

  /** Lines that do not clash give instructions that do not overlap. */
  lemma {:induction false} NeverOverlap(lines: seq<Line>, p: State, k: nat)
    requires Source(lines) && Laid(lines, p) && NoClash(lines, p.placed)
    requires k <= |lines| && Pass2(lines[..k], p.placed[..k]).Some?
    ensures Ranges.Placeable(Pass2(lines[..k], p.placed[..k]).value, |p.segs|)
    decreases k
  {
    if k > 0 {
      var n := k - 1;
      assert lines[..k][..n] == lines[..n] && p.placed[..k][..n] == p.placed[..n];
      NeverOverlap(lines, p, n);
      Pass2Generates(lines[..n], p.placed[..n]);
      var before := Pass2(lines[..n], p.placed[..n]).value;
      if p.placed[n].At? {
        assert Lies(p, p.placed[n], Length(lines[n].op), Aligns(lines[n].op));
        forall i | 0 <= i < |before| && before[i].seg == p.placed[n].seg
          ensures Ranges.Apart(Ranges.RangeOf(before[i]), Ranges.RangeOf(InsnOf(lines[n], p.placed[n])))
        {
          assert before[i] in before;
          NewApart(lines, p.placed, n, before, before[i]);
        }
      }
    }
  }

  /** ... and lines that clash give instructions that do, or that wrap. */
  lemma {:induction false} ClashOverlaps(lines: seq<Line>, placed: seq<Placement>, i: nat, j: nat)
    requires Source(lines) && |placed| == |lines| && Pass2(lines, placed).Some? && i < j < |lines|
    requires !Clear(placed[i], Length(lines[i].op), placed[j], Length(lines[j].op))
    ensures forall n: nat :: !Ranges.Placeable(Pass2(lines, placed).value, n)
  {
    Pass2At(lines, placed, i);
    Pass2At(lines, placed, j);
    RankGrows(placed, i, j);
    var src := Pass2(lines, placed).value;
    var a, b := Rank(placed, i), Rank(placed, j);
    assert src[a] == InsnOf(lines[i], placed[i]) && src[b] == InsnOf(lines[j], placed[j]);
    assert !Ranges.Apart(Ranges.RangeOf(src[a]), Ranges.RangeOf(src[b]));
  }

  /** Every instruction ends within its segment's length. */
  predicate InLengths(src: seq<Ranges.Insn>, p: State) {
    forall x :: x in src ==> x.seg < |p.segs| && x.addr + |x.bytes| <= p.segs[x.seg].length
  }

  lemma {:induction false} LengthsHold(lines: seq<Line>, p: State, src: seq<Ranges.Insn>)
    requires Source(lines) && Laid(lines, p) && Pass2(lines, p.placed) == Some(src)
    requires forall i :: 0 <= i < |lines| && p.placed[i].At? ==> p.placed[i].addr + Length(lines[i].op) < P64
    ensures InLengths(src, p)
  {
    Pass2Generates(lines, p.placed);
    forall x | x in src
      ensures x.seg < |p.segs| && x.addr + |x.bytes| <= p.segs[x.seg].length
    {
      var i :| 0 <= i < |lines| && IsLine(lines[i], p.placed[i], x);
      assert Lies(p, p.placed[i], Length(lines[i].op), Aligns(lines[i].op));
    }
  }

  /** The instructions of any program that both passes accept can be collected into
      an image, each within its segment's length, exactly when its lines do not
      clash, as pass 1 already shows. */
  lemma {:induction false} CollectableIff(lines: seq<Line>)
    requires Source(lines) && Pass1(lines).Some?
    requires |Pass1(lines).value.placed| == |lines| && Pass2(lines, Pass1(lines).value.placed).Some?
    ensures var p, src := Pass1(lines).value, Pass2(lines, Pass1(lines).value.placed).value;
            Ranges.Placeable(src, |p.segs|) && InLengths(src, p) <==> NoClash(lines, p.placed)
  {
    var p := Pass1(lines).value;
    AnyLaid(lines);
    var src := Pass2(lines, p.placed).value;
    if NoClash(lines, p.placed) {
      Prefix(lines, lines);
      Prefix(p.placed, p.placed);
      NeverOverlap(lines, p, |lines|);
      LengthsHold(lines, p, src);
    }
    if Ranges.Placeable(src, |p.segs|) && InLengths(src, p) {
      forall i, j | 0 <= i < j < |lines|
        ensures Clear(p.placed[i], Length(lines[i].op), p.placed[j], Length(lines[j].op))
      {
        if !Clear(p.placed[i], Length(lines[i].op), p.placed[j], Length(lines[j].op)) {
          ClashOverlaps(lines, p.placed, i, j);
        }
      }
      forall i | 0 <= i < |lines| && p.placed[i].At?
        ensures p.placed[i].addr + Length(lines[i].op) < P64
      {
        Pass2At(lines, p.placed, i);
        assert src[Rank(p.placed, i)] in src;
      }
    }
  }

  /** A program that both passes accept and whose lines do not clash, in whatever
      order they come: its instructions can be collected into an image and lie within
      their segments; each line's bytes are at the line's address, and the label of a
      line denotes that address. */
  lemma {:induction false} AssemblyLaysOut(lines: seq<Line>)
    requires Source(lines) && Pass1(lines).Some?
    requires |Pass1(lines).value.placed| == |lines| && NoClash(lines, Pass1(lines).value.placed)
    requires Pass2(lines, Pass1(lines).value.placed).Some?
    ensures var p, src := Pass1(lines).value, Pass2(lines, Pass1(lines).value.placed).value;
            Ranges.Placeable(src, |p.segs|) && Generated(lines, p.placed, src) && Laid(lines, p) && InLengths(src, p)
  {
    AnyLaid(lines);
    CollectableIff(lines);
    Pass2Generates(lines, Pass1(lines).value.placed);
  }

  /** Lines of a steady program never clash. */
  lemma {:induction false} SteadyNoClash(lines: seq<Line>)
    requires Source(lines) && Steady(lines)
    ensures Pass1(lines).Some? && |Pass1(lines).value.placed| == |lines| && NoClash(lines, Pass1(lines).value.placed)
  {
    SteadyLaid(lines);
    var p := Pass1(lines).value;
    forall i | 0 <= i < |lines| && p.placed[i].At?
      ensures p.placed[i].addr + Length(lines[i].op) < P64
    {
      assert Fits(p, p.placed[i], Length(lines[i].op), Aligns(lines[i].op));
    }
  }

  lemma {:induction false} SteadyPrefix(lines: seq<Line>, k: nat)
    requires Source(lines) && Steady(lines) && k <= |lines|
    ensures Steady(lines[..k]) && Pass1(lines[..k]).Some?
    decreases |lines|
  {
    if k == |lines| {
      assert lines[..k] == lines;
    } else {
      SteadyPrefix(lines[..|lines| - 1], k);
      assert lines[..|lines| - 1][..k] == lines[..k];
    }
  }

  // ----- space --------------------------------------------------------------------------

  /** DS leaves its bytes free, from the next even address on. */
  lemma {:induction false} SpaceStep(p: State, skip: int)
    requires Ok(p) && p.cseg.Some?
    ensures var q := Step(p, Line(NoLabel, Space(skip)));
            && q.Some? && q.value.cseg == p.cseg && Here(q.value) == (Evened(Here(p)) + skip) % P64
            && q.value.syms == p.syms && q.value.placed == p.placed + [Nowhere]
  {
  }

  function Evened(a: nat): nat {
    (a + a % 2) % P64
  }

  /** A label behind DS stands its bytes further on: on the next line, if that is one of
      bytes, or of code or data and the space is even. */
  lemma {:induction false} LabelAfterSpace(p: State, skip: int, x: string, op: Op)
    requires Ok(p) && p.cseg.Some? && x !in p.syms && Grammatical(op)
    requires op.DB? || (Aligns(op) && !op.Space? && skip % 2 == 0)
    ensures var q := Step(p, Line(NoLabel, Space(skip))).value;
            Step(q, Line(Named(x), op)).Some? ==>
              var r := Step(q, Line(Named(x), op)).value;
              x in r.syms && r.syms[x] == (p.cseg.value, (Evened(Here(p)) + skip) % P64)
  {
    SpaceStep(p, skip);
    var q := Step(p, Line(NoLabel, Space(skip))).value;
    if op.DB? {
      assert Reached(q, op) == Some(q);
    } else {
      EvenSum(Here(p), skip);
      assert Reached(q, op) == Some(q);
    }
    LabelHere(q, x, op);
  }

  lemma {:induction false} EvenSum(a: nat, n: int)
    requires n % 2 == 0
    ensures (Evened(a) + n) % P64 % 2 == 0
  {
    var b := a + a % 2;
    assert b % 2 == 0;
    EvenMod(b);
    assert (Evened(a) + n) % 2 == 0;
    EvenMod(Evened(a) + n);
  }

  lemma {:induction false} EvenMod(a: int)
    ensures a % P64 % 2 == a % 2
  {
    var q, r, h := a / P64, a % P64, a / P64 * 0x8000_0000_0000_0000;
    assert q * P64 == 2 * h;
    Parity(h, r);
  }

  lemma {:induction false} Parity(h: int, r: int)
    ensures (2 * h + r) % 2 == r % 2
  {
  }

  lemma {:induction false} LabelHere(q: State, x: string, op: Op)
    requires Ok(q) && q.cseg.Some? && x !in q.syms && Grammatical(op) && Reached(q, op) == Some(q)
    ensures Step(q, Line(Named(x), op)).Some? ==>
              var r := Step(q, Line(Named(x), op)).value; x in r.syms && r.syms[x] == (q.cseg.value, Here(q))
  {
    if Step(q, Line(Named(x), op)).Some? {
      LabelFacts(q, Line(Named(x), op));
    }
  }

  // ----- branches ----------------------------------------------------------------------

  /** Where a branch stands after alignment. */
  lemma {:induction false} RelativePlaced(p: State, line: Line)
    requires Ok(p) && InRange(p) && Grammatical(line.op) && line.op.Relative? && Step(p, line).Some?
    ensures p.cseg.Some?
    ensures var q, n, a := Step(p, line).value, |p.placed|, Here(p);
            |q.placed| == n + 1 && (a + 1 < P64 ==> q.placed[n] == At(p.cseg.value, a + a % 2))
  {
    ReachedFacts(p, line.op);
    RestFacts(p, line);
    Wrapped(Here(p), Here(p) % 2);
  }

  /** A branch whose length pass 1 chose from its target: in pass 2, the target being
      the same, it becomes a branch there exactly when the long form reaches it, unless
      it was moved off an odd address and the target lies 253 bytes below that. */
  lemma {:induction false} GuessedBranch(lines: seq<Line>, k: nat, p: State, late: State)
    requires Source(lines) && k < |lines| && Pass1(lines[..k]) == Some(p) && Pass1(lines) == Some(late)
    requires lines[k].op.Relative? && p.cseg == Some(lines[k].op.tseg) && lines[k].op.target < P64
    requires Ok(p) && Here(p) + 1 < P64
    requires lines[k].op.ilen == Branch.ChosenLength(None, Here(p), Some(lines[k].op.target))
    ensures |late.placed| == |lines| && late.placed[k] == At(lines[k].op.tseg, Here(p) + Here(p) % 2)
    ensures BranchesThere(lines[k].op, late.placed[k]) <==> Branch.GuessReaches(Here(p), lines[k].op.target)
  {
    RelativeAt(lines, k, p, late);
    GuessedOutput(lines[k].op, Here(p), late.placed[k]);
  }

  /** Pass 2 completes the line with the bytes of a branch to its target. */
  predicate BranchesThere(op: Op, at: Placement) {
    && op.Relative? && at.At? && Grammatical(op) && Completed(op, at)
    && Branch.Leads(op.op, at.addr, op.ilen, op.target)
    && Output(op, at) == Some(WordsBytes(Branch.Encode(op.op, at.addr, op.ilen, op.target).value))
  }

  lemma {:induction false} GuessedOutput(op: Op, before: nat, at: Placement)
    requires Grammatical(op) && op.Relative? && op.target < P64 && before + 1 < P64
    requires op.ilen == Branch.ChosenLength(None, before, Some(op.target)) && at == At(op.tseg, before + before % 2)
    ensures BranchesThere(op, at) <==> Branch.GuessReaches(before, op.target)
  {
    Branch.GuessInRange(op.op, before, op.target);
    LeadingOutput(op, at);
  }

  lemma {:induction false} LeadingOutput(op: Op, at: Placement)
    requires Grammatical(op) && op.Relative? && (op.ilen == 2 || op.ilen == 4) && at.At? && at.seg == op.tseg
    ensures BranchesThere(op, at) <==> Branch.Leads(op.op, at.addr, op.ilen, op.target)
  {
    if Branch.Leads(op.op, at.addr, op.ilen, op.target) {
      RelativeOutput(op, at);
      NoDesync(op, at);
    }
  }

  lemma {:induction false} RelativeOutput(op: Op, at: Placement)
    requires Grammatical(op) && op.Relative? && at.At? && at.seg == op.tseg
    ensures var ws := Branch.Encode(op.op, at.addr, op.ilen, op.target);
            Output(op, at) == if ws.None? then None else Some(WordsBytes(ws.value))
  {
  }

  lemma {:induction false} RelativeAt(lines: seq<Line>, k: nat, p: State, late: State)
    requires Source(lines) && k < |lines| && Pass1(lines[..k]) == Some(p) && Pass1(lines) == Some(late)
    requires lines[k].op.Relative? && Ok(p) && p.cseg.Some? && Here(p) + 1 < P64
    ensures |late.placed| == |lines| && late.placed[k] == At(p.cseg.value, Here(p) + Here(p) % 2)
  {
    var q := LineAt(lines, k, p);
    RelativePlaced(p, lines[k]);
    PlacedStays(lines, k + 1, q, late);
    AtPrefix(q.placed, late.placed, k);
    AnyLaid(lines);
  }

  lemma {:induction false} AtPrefix<T>(a: seq<T>, b: seq<T>, i: nat)
    requires a <= b && i < |a|
    ensures b[i] == a[i]
  {
  }

  /** Line `k` of an accepted program. */
  lemma {:induction false} LineAt(lines: seq<Line>, k: nat, p: State) returns (q: State)
    requires Source(lines) && k < |lines| && Pass1(lines[..k]) == Some(p) && Pass1(lines).Some?
    ensures Step(p, lines[k]) == Some(q) && Pass1(lines[..k + 1]) == Some(q) && Ok(p) && InRange(p) && |p.placed| == k
  {
    ErrorsStay(lines, k + 1);
    q := Pass1(lines[..k + 1]).value;
    LastOfFront(lines, k, p, q);
  }

  lemma {:induction false} LastOfFront(lines: seq<Line>, k: nat, p: State, q: State)
    requires Source(lines) && k < |lines| && Pass1(lines[..k]) == Some(p) && Pass1(lines[..k + 1]) == Some(q)
    ensures Step(p, lines[k]) == Some(q) && Ok(p) && InRange(p) && |p.placed| == k
  {
    var front := lines[..k + 1];
    assert front[..k] == lines[..k] && front[k] == lines[k];
    var p' := LastLine(front, q);
  }

  // ----- an origin that moves back without a clash -------------------------------------

  lemma {:induction false} AllComplete(lines: seq<Line>, placed: seq<Placement>)
    requires Source(lines) && |placed| == |lines| && forall i :: 0 <= i < |lines| ==> Completed(lines[i].op, placed[i])
    ensures Pass2(lines, placed).Some?
    decreases |lines|
  {
    if |lines| > 0 {
      AllComplete(lines[..|lines| - 1], placed[..|lines| - 1]);
    }
  }

  lemma {:induction false} Next(lines: seq<Line>, n: nat, p: State, q: State)
    requires Source(lines) && n < |lines| && Ok(p) && Pass1(lines[..n]) == Some(p) && Step(p, lines[n]) == Some(q)
    ensures Pass1(lines[..n + 1]) == Some(q)
  {
    assert lines[..n + 1][..n] == lines[..n];
  }

  /** A word at 10, and then another at 0. */
  predicate MovesBack(lines: seq<Line>, x: string, y: string) {
    && |lines| == 5 && lines[0] == Line(NoLabel, Segment(Literal))
    && lines[1] == Line(NoLabel, Origin(None, 10)) && lines[2] == Line(Named(x), DW([1]))
    && lines[3] == Line(NoLabel, Origin(None, 0)) && lines[4] == Line(Named(y), DW([2])) && x != y
  }

  /** The one segment stands at `addr` and is `length` long. */
  predicate OneSeg(p: State, based: bool, addr: nat, length: nat) {
    p.segs == [Seg(Literal, based, addr, length)] && p.cseg == Some(0)
  }

  lemma {:induction false} OriginStep(p: State, line: Line, based: bool, from: nat, length: nat,
                                      addr: nat) returns (q: State)
    requires OneSeg(p, based, from, length) && line == Line(NoLabel, Origin(None, addr)) && addr < P64
    ensures Step(p, line) == Some(q) && OneSeg(q, true, addr, if addr > length then addr else length)
    ensures q.placed == p.placed + [Nowhere] && q.syms == p.syms
    ensures Reached(p, line.op).Some? && Reached(p, line.op).value.segs == [Seg(Literal, true, addr, length)]
  {
    q := Step(p, line).value;
  }

  lemma {:induction false} NamedWordStep(p: State, line: Line, addr: nat, length: nat, x: string,
                                         w: int) returns (q: State)
    requires OneSeg(p, true, addr, length) && line == Line(Named(x), DW([w])) && addr % 2 == 0 && addr + 2 < P64
    requires x !in p.syms
    ensures Step(p, line) == Some(q) && OneSeg(q, true, addr + 2, if addr + 2 > length then addr + 2 else length)
    ensures q.placed == p.placed + [At(0, addr)] && q.syms == p.syms[x := (0, addr)]
  {
    q := Step(p, line).value;
  }

  /** Both passes accept that program, its lines do not clash, and it is not
      steady. */
  lemma {:induction false} MovedBackAssembles(lines: seq<Line>, x: string, y: string)
    requires MovesBack(lines, x, y)
    ensures Source(lines) && Pass1(lines).Some? && !Steady(lines)
    ensures var placed := Pass1(lines).value.placed;
            placed == [Nowhere, Nowhere, At(0, 10), Nowhere, At(0, 0)] && NoClash(lines, placed)
                && Pass2(lines, placed).Some?
  {
    MovedBackSource(lines, x, y);
    var p3 := FirstWord(lines, x, y);
    var p5 := SecondWord(lines, x, y, p3);
    Prefix(lines, lines);
    MovedBackCompletes(lines, x, y, p5.placed);
    NotForward(lines, x, y, p3);
  }

  lemma {:induction false} MovedBackSource(lines: seq<Line>, x: string, y: string)
    requires MovesBack(lines, x, y)
    ensures Source(lines) && Length(lines[2].op) == 2 && Length(lines[4].op) == 2
  {
  }

  /** After the first two lines. */
  predicate AtTen(p: State) {
    OneSeg(p, true, 10, 10) && p.placed == [Nowhere, Nowhere] && p.syms == map[]
  }

  lemma {:induction false} FirstOrigin(lines: seq<Line>) returns (p: State)
    requires Source(lines) && |lines| >= 2 && lines[0] == Line(NoLabel, Segment(Literal))
    requires lines[1] == Line(NoLabel, Origin(None, 10))
    ensures Pass1(lines[..2]) == Some(p) && AtTen(p)
  {
    var p1 := SegmentFirst(lines);
    p := OriginNext(lines, 1, p1, false, 0, 0, 10);
    assert p.placed == [Nowhere] + [Nowhere];
  }

  lemma {:induction false} FirstWord(lines: seq<Line>, x: string, y: string) returns (p: State)
    requires Source(lines) && MovesBack(lines, x, y)
    ensures Pass1(lines[..3]) == Some(p) && OneSeg(p, true, 12, 12)
    ensures p.placed == [Nowhere, Nowhere, At(0, 10)] && y !in p.syms
  {
    var p2 := FirstOrigin(lines);
    p := WordAfter(lines, p2, x);
    FirstNamed(p2, p, x, y);
  }

  lemma {:induction false} WordAfter(lines: seq<Line>, p2: State, x: string) returns (p: State)
    requires Source(lines) && |lines| >= 3 && lines[2] == Line(Named(x), DW([1]))
    requires Pass1(lines[..2]) == Some(p2) && AtTen(p2)
    ensures Pass1(lines[..3]) == Some(p) && OneSeg(p, true, 12, 12)
    ensures p.placed == p2.placed + [At(0, 10)] && p.syms == p2.syms[x := (0, 10)]
  {
    p := WordNext(lines, 2, p2, 10, 10, x, 1);
  }

  lemma {:induction false} FirstNamed(p2: State, p: State, x: string, y: string)
    requires p2.placed == [Nowhere, Nowhere] && p2.syms == map[] && x != y
    requires p.placed == p2.placed + [At(0, 10)] && p.syms == p2.syms[x := (0, 10)]
    ensures p.placed == [Nowhere, Nowhere, At(0, 10)] && y !in p.syms
  {
  }

  lemma {:induction false} SecondWord(lines: seq<Line>, x: string, y: string, p3: State) returns (p: State)
    requires Source(lines) && MovesBack(lines, x, y) && Pass1(lines[..3]) == Some(p3) && OneSeg(p3, true, 12, 12)
    requires p3.placed == [Nowhere, Nowhere, At(0, 10)] && y !in p3.syms
    ensures Pass1(lines[..5]) == Some(p) && p.placed == [Nowhere, Nowhere, At(0, 10), Nowhere, At(0, 0)]
  {
    var p4 := OriginNext(lines, 3, p3, true, 12, 12, 0);
    assert p4.placed == [Nowhere, Nowhere, At(0, 10), Nowhere];
    p := WordNext(lines, 4, p4, 0, 12, y, 2);
  }

  lemma {:induction false} SegmentFirst(lines: seq<Line>) returns (q: State)
    requires Source(lines) && |lines| > 0 && lines[0] == Line(NoLabel, Segment(Literal))
    ensures Pass1(lines[..1]) == Some(q) && OneSeg(q, false, 0, 0) && q.placed == [Nowhere] && q.syms == map[]
  {
    var p := State([], None, map[], [], []);
    NoLines(lines[..0], p);
    q := SegmentStep(p, lines[0]);
    Next(lines, 0, p, q);
  }

  lemma {:induction false} OriginNext(lines: seq<Line>, n: nat, p: State, based: bool, from: nat, length: nat,
                                      addr: nat)
    returns (q: State)
    requires Source(lines) && n < |lines| && lines[n] == Line(NoLabel, Origin(None, addr)) && addr < P64
    requires Pass1(lines[..n]) == Some(p) && OneSeg(p, based, from, length)
    ensures Pass1(lines[..n + 1]) == Some(q) && OneSeg(q, true, addr, if addr > length then addr else length)
    ensures q.placed == p.placed + [Nowhere] && q.syms == p.syms
  {
    q := OriginStep(p, lines[n], based, from, length, addr);
    Next(lines, n, p, q);
  }

  lemma {:induction false} WordNext(lines: seq<Line>, n: nat, p: State, addr: nat, length: nat, x: string, w: int)
    returns (q: State)
    requires Source(lines) && n < |lines| && lines[n] == Line(Named(x), DW([w])) && addr % 2 == 0 && addr + 2 < P64
    requires Pass1(lines[..n]) == Some(p) && OneSeg(p, true, addr, length) && x !in p.syms
    ensures Pass1(lines[..n + 1]) == Some(q) && OneSeg(q, true, addr + 2, if addr + 2 > length then addr + 2
            else length)
    ensures q.placed == p.placed + [At(0, addr)] && q.syms == p.syms[x := (0, addr)]
  {
    q := NamedWordStep(p, lines[n], addr, length, x, w);
    Next(lines, n, p, q);
  }

  lemma {:induction false} MovedBackCompletes(lines: seq<Line>, x: string, y: string, placed: seq<Placement>)
    requires Source(lines) && MovesBack(lines, x, y) && Length(lines[2].op) == 2 && Length(lines[4].op) == 2
    requires placed == [Nowhere, Nowhere, At(0, 10), Nowhere, At(0, 0)]
    ensures NoClash(lines, placed) && Pass2(lines, placed).Some?
  {
    forall i | 0 <= i < |lines|
      ensures Completed(lines[i].op, placed[i])
    {
      assert i == 0 || i == 1 || i == 2 || i == 3 || i == 4;
    }
    AllComplete(lines, placed);
  }

  lemma {:induction false} SegmentStep(p: State, line: Line) returns (q: State)
    requires p == State([], None, map[], [], []) && line == Line(NoLabel, Segment(Literal))
    ensures Step(p, line) == Some(q) && OneSeg(q, false, 0, 0) && q.placed == [Nowhere] && q.syms == map[]
  {
    q := Step(p, line).value;
  }

  lemma {:induction false} NotForward(lines: seq<Line>, x: string, y: string, p: State)
    requires Source(lines) && MovesBack(lines, x, y) && Pass1(lines[..3]) == Some(p) && OneSeg(p, true, 12, 12)
    ensures !Steady(lines)
  {
    if Steady(lines) {
      SteadyPrefix(lines, 4);
      assert lines[..4][..3] == lines[..3] && lines[..4][3] == lines[3];
      var q := OriginStep(p, lines[3], true, 12, 12, 0);
    }
  }

  /** Where a line that places bytes stands before alignment. */
  lemma {:induction false} StartOf(p: State, line: Line)
    requires Ok(p) && InRange(p) && Grammatical(line.op) && Length(line.op) < P64 && Step(p, line).Some?
    requires Forward(p, Reached(p, line.op).value)
    ensures Begin(p, line.op).Some?
    ensures var early, q := Begin(p, line.op).value, Step(p, line).value;
            && |q.placed| == |p.placed| + 1 && p.placed <= q.placed && early.locals == p.locals
            && (q.placed[|p.placed|].At? ==>
                  var at := q.placed[|p.placed|];
                  early.cseg == Some(at.seg) && Here(early) <= at.addr <= Here(early) + 1)
  {
    ReachedFacts(p, line.op);
    RestFacts(p, line);
    var early, r := Begin(p, line.op).value, Reached(p, line.op).value;
    if Length(line.op) > 0 && r.cseg.Some? {
      assert early == p;
      assert p.segs[Current(r)].addr <= r.segs[Current(r)].addr;
      if Aligns(line.op) && Here(p) % 2 == 1 {
        Wrapped(Here(p), 1);
      }
    }
  }

  /** Steady programs, line by line. */
  lemma {:induction false} SteadyStep(lines: seq<Line>) returns (p: State)
    requires Source(lines) && Steady(lines) && |lines| > 0
    ensures var n := |lines| - 1;
            && Steady(lines[..n]) && Pass1(lines[..n]) == Some(p) && Pass1(lines) == Step(p, lines[n])
               && Step(p, lines[n]).Some?
            && LineOk(lines[..n], p, lines[n])
  {
    SteadyLaid(lines[..|lines| - 1]);
    p := Pass1(lines[..|lines| - 1]).value;
  }

  /** Later lines do not change what earlier ones got. */
  lemma {:induction false} PlacedStays(lines: seq<Line>, k: nat, p: State, q: State)
    requires Source(lines) && k <= |lines| && Pass1(lines[..k]) == Some(p) && Pass1(lines) == Some(q)
    ensures |p.placed| == k && p.placed <= q.placed
    decreases |lines|
  {
    if k == |lines| {
      assert lines[..k] == lines;
      AnyLaid(lines);
    } else {
      var front := lines[..|lines| - 1];
      var q' := LastLine(lines, q);
      assert front[..k] == lines[..k];
      PlacedStays(front, k, p, q');
    }
  }

  /** Pass 1 before the last line of an accepted program. */
  lemma {:induction false} LastLine(lines: seq<Line>, q: State) returns (p: State)
    requires Source(lines) && |lines| > 0 && Pass1(lines) == Some(q)
    ensures Pass1(lines[..|lines| - 1]) == Some(p) && Step(p, lines[|lines| - 1]) == Some(q)
    ensures Laid(lines[..|lines| - 1], p) && |q.placed| == |p.placed| + 1 && p.placed <= q.placed
  {
    var n := |lines| - 1;
    p := Pass1(lines[..n]).value;
    AnyLaid(lines[..n]);
    ReachedFacts(p, lines[n].op);
    RestFacts(p, lines[n]);
  }

  /** Labels defined after `p`, from line `k` on, stand at or above its bytes. */
  ghost predicate LaterAbove(k: nat, p: State, q: State) {
    && k < |q.placed| && q.placed[k].At? && q.placed[k].seg < |q.segs|
    && p.locals <= q.locals && q.placed[k].addr <= q.segs[q.placed[k].seg].addr
    && forall j :: |p.locals| <= j < |q.locals| && q.locals[j].seg == q.placed[k].seg ==>
       q.locals[j].addr >= q.placed[k].addr
  }

  lemma {:induction false} LaterFirst(lines: seq<Line>, p: State, line: Line)
    requires LineOk(lines, p, line) && |Step(p, line).value.placed| == |lines| + 1
             && Step(p, line).value.placed[|lines|].At?
    ensures LaterAbove(|lines|, p, Step(p, line).value)
  {
    ReachedFacts(p, line.op);
    RestFacts(p, line);
    LabelFacts(p, line);
    PlacedEnd(p, line);
  }

  lemma {:induction false} LaterNext(lines: seq<Line>, k: nat, p0: State, p: State, line: Line)
    requires LineOk(lines, p, line) && LaterAbove(k, p0, p)
    ensures LaterAbove(k, p0, Step(p, line).value)
  {
    ReachedFacts(p, line.op);
    RestFacts(p, line);
    LabelFacts(p, line);
    var r, s := Reached(p, line.op).value, p.placed[k].seg;
    assert p.segs[s].addr <= r.segs[s].addr <= Step(p, line).value.segs[s].addr;
  }

  lemma {:induction false} LocalsAfter(lines: seq<Line>, k: nat, p: State, q: State)
    requires Source(lines) && Steady(lines) && k < |lines| && Pass1(lines[..k]) == Some(p) && Pass1(lines) == Some(q)
    requires |q.placed| == |lines| && q.placed[k].At?
    ensures LaterAbove(k, p, q)
    decreases |lines|
  {
    var n := |lines| - 1;
    var q' := SteadyStep(lines);
    assert q == Step(q', lines[n]).value;
    if k == n {
      assert p == q';
      LaterFirst(lines[..n], q', lines[n]);
    } else {
      StartOf(q', lines[n]);
      assert |q'.placed| == n && q'.placed[k] == q.placed[k];
      assert lines[..n][..k] == lines[..k];
      LocalsAfter(lines[..n], k, p, q');
      LaterNext(lines[..n], k, p, q', lines[n]);
    }
  }

  /** Local labels between the passes. At a line that places bytes, `.Nb` looked up
      by pass 1 before the line is aligned, among the labels so far, is `.Nb` looked
      up by pass 2 among all labels, unless a label of that number stands in the
      byte skipped for alignment. */
  lemma {:induction false} BackwardStable(lines: seq<Line>, k: nat, num: nat, p: State, late: State)
    requires Source(lines) && Steady(lines) && k < |lines|
    requires Pass1(lines[..k]) == Some(p) && Pass1(lines) == Some(late) && |late.placed| == |lines|
             && late.placed[k].At?
    ensures Ok(p) && Begin(p, lines[k].op).Some?
    ensures var early, at := Begin(p, lines[k].op).value, late.placed[k];
            && early.cseg == Some(at.seg) && Here(early) <= at.addr <= Here(early) + 1
            && (Backward(early.locals, num, at.seg, Here(early)) == Backward(late.locals, num, at.seg, at.addr)
                <==> !exists l :: l in early.locals && Same(l, num, at.seg) && Here(early) <= l.addr < at.addr)
  {
    LineBegins(lines, k, p, late);
    LocalsAfter(lines, k, p, late);
    LocalsAscend(lines, late);
    Prefix(p.locals, late.locals);
    BackwardAcrossPasses(late.locals, |p.locals|, num, late.placed[k].seg, Here(Begin(p, lines[k].op).value),
        late.placed[k].addr);
  }

  /** An origin at an odd address, labelled, and a word after it. */
  predicate OddOrigin(lines: seq<Line>) {
    && |lines| == 3 && lines[0] == Line(NoLabel, Segment(Literal))
    && lines[1] == Line(Numbered(1), Origin(None, 3)) && lines[2] == Line(NoLabel, DW([0]))
  }

  /** There `.1b` in the last line is unresolved in pass 1, which looks it up from
      address 3, and is 3 in pass 2, which looks it up from 4. */
  lemma {:induction false} OddOriginLabel(lines: seq<Line>)
    requires OddOrigin(lines)
    ensures Source(lines) && Steady(lines) && Pass1(lines[..2]).Some? && Pass1(lines).Some?
    ensures var p, late := Pass1(lines[..2]).value, Pass1(lines).value;
            && |late.placed| == 3 && late.placed[2] == At(0, 4)
            && p.cseg == Some(0) && |p.segs| == 1 && Here(p) == 3
            && Backward(p.locals, 1, 0, 3) == None && Backward(late.locals, 1, 0, 4) == Some(3)
  {
    OddSource(lines);
    var p2 := OddFirst(lines);
    var p3 := OddWord(lines, p2);
    Prefix(lines, lines);
    OneLocal(p3.locals);
  }

  lemma {:induction false} OddSource(lines: seq<Line>)
    requires OddOrigin(lines)
    ensures Source(lines)
  {
  }

  lemma {:induction false} OddFirst(lines: seq<Line>) returns (p2: State)
    requires OddOrigin(lines) && Source(lines)
    ensures Pass1(lines[..2]) == Some(p2) && Steady(lines[..2])
    ensures p2.segs == [Seg(Literal, true, 3, 3)] && p2.cseg == Some(0)
    ensures p2.locals == [Local(1, 3, 0)] && p2.placed == [Nowhere, Nowhere]
  {
    var p0 := State([], None, map[], [], []);
    NoLines(lines[..0], p0);
    var p1 := OddSegment(lines, p0);
    p2 := OddLabel(lines, p1);
  }

  lemma {:induction false} NoLines(lines: seq<Line>, p: State)
    requires lines == [] && p == State([], None, map[], [], [])
    ensures Source(lines) && Pass1(lines) == Some(p) && Steady(lines)
  {
  }

  lemma {:induction false} OneLocal(ls: seq<Local>)
    requires ls == [Local(1, 3, 0)]
    ensures Backward(ls, 1, 0, 3) == None && Backward(ls, 1, 0, 4) == Some(3)
  {
    assert ls[..0] == [];
  }

  lemma {:induction false} OneMore(lines: seq<Line>, n: nat, p: State, q: State)
    requires Source(lines) && n < |lines| && Ok(p) && Pass1(lines[..n]) == Some(p) && Steady(lines[..n])
             && Step(p, lines[n]) == Some(q)
    requires Forward(p, Reached(p, lines[n].op).value) && Forward(Reached(p, lines[n].op).value, q)
    ensures Pass1(lines[..n + 1]) == Some(q) && Steady(lines[..n + 1])
  {
    assert lines[..n + 1][..n] == lines[..n];
  }

  lemma {:induction false} OddSegment(lines: seq<Line>, p: State) returns (q: State)
    requires Source(lines) && OddOrigin(lines) && p == State([], None, map[], [], [])
    requires Pass1(lines[..0]) == Some(p) && Steady(lines[..0])
    ensures Pass1(lines[..1]) == Some(q) && Steady(lines[..1])
    ensures q.segs == [Seg(Literal, false, 0, 0)] && q.cseg == Some(0) && q.locals == [] && q.placed == [Nowhere]
  {
    q := Step(p, lines[0]).value;
    OneMore(lines, 0, p, q);
  }

  lemma {:induction false} OddLabel(lines: seq<Line>, p: State) returns (q: State)
    requires Source(lines) && OddOrigin(lines) && Pass1(lines[..1]) == Some(p) && Steady(lines[..1])
    requires p.segs == [Seg(Literal, false, 0, 0)] && p.cseg == Some(0) && p.locals == [] && p.placed == [Nowhere]
    ensures Pass1(lines[..2]) == Some(q) && Steady(lines[..2])
    ensures q.segs == [Seg(Literal, true, 3, 3)] && q.cseg == Some(0)
    ensures q.locals == [Local(1, 3, 0)] && q.placed == [Nowhere, Nowhere]
  {
    q := Step(p, lines[1]).value;
    OneMore(lines, 1, p, q);
  }

  lemma {:induction false} OddWord(lines: seq<Line>, p: State) returns (q: State)
    requires Source(lines) && OddOrigin(lines) && Pass1(lines[..2]) == Some(p) && Steady(lines[..2])
    requires p.segs == [Seg(Literal, true, 3, 3)] && p.cseg == Some(0)
    requires p.locals == [Local(1, 3, 0)] && p.placed == [Nowhere, Nowhere]
    ensures Pass1(lines[..3]) == Some(q) && Steady(lines[..3])
    ensures q.locals == [Local(1, 3, 0)] && q.placed == [Nowhere, Nowhere, At(0, 4)]
  {
    q := WordStep(p, lines[2]);
    OneMore(lines, 2, p, q);
  }

  lemma {:induction false} WordStep(p: State, line: Line) returns (q: State)
    requires p.segs == [Seg(Literal, true, 3, 3)] && p.cseg == Some(0)
    requires p.locals == [Local(1, 3, 0)] && p.placed == [Nowhere, Nowhere] && line == Line(NoLabel, DW([0]))
    ensures Step(p, line) == Some(q) && q.locals == [Local(1, 3, 0)] && q.placed == [Nowhere, Nowhere, At(0, 4)]
    ensures Forward(p, Reached(p, line.op).value) && Forward(Reached(p, line.op).value, q)
  {
    q := Step(p, line).value;
  }

  /** Line `k` as pass 1 begins it. */
  lemma {:induction false} LineBegins(lines: seq<Line>, k: nat, p: State, late: State)
    requires Source(lines) && Steady(lines) && k < |lines|
    requires Pass1(lines[..k]) == Some(p) && Pass1(lines) == Some(late) && |late.placed| == |lines|
             && late.placed[k].At?
    ensures Ok(p) && Begin(p, lines[k].op).Some?
    ensures var early, at := Begin(p, lines[k].op).value, late.placed[k];
            early.locals == p.locals && early.cseg == Some(at.seg) && Here(early) <= at.addr <= Here(early) + 1
  {
    SteadyPrefix(lines, k + 1);
    assert lines[..k + 1][..k] == lines[..k];
    var p' := SteadyStep(lines[..k + 1]);
    StartOf(p, lines[k]);
    PlacedStays(lines, k + 1, Step(p, lines[k]).value, late);
  }

  lemma {:induction false} LocalsAscend(lines: seq<Line>, p: State)
    requires Source(lines) && Steady(lines) && Pass1(lines) == Some(p)
    ensures Ascending(p.locals)
  {
    SteadyLaid(lines);
  }
}
