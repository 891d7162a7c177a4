/** Where pass 1 puts a line, told from the lines alone: its segment, its address after
    an origin or after the line before, the errors, and the lengths of segments. */
module Placing {
  import opened Codec
  import opened Kernel
  import opened Layout
  import opened Passes

  // ----- segments --------------------------------------------------------------------

  /** The segments that the lines create. */
  function Created(lines: seq<Line>): nat {
    if |lines| == 0 then 0
    else Created(lines[..|lines| - 1]) + if lines[|lines| - 1].op.Segment? then 1 else 0
  }

  /** The segment chosen last: by creating one that is not relocatable, by SEG, or by an
      ORG that names one. */
  function Chosen(lines: seq<Line>): Option<nat> {
    if |lines| == 0 then None
    else
      var before := lines[..|lines| - 1];
      match lines[|lines| - 1].op
      case Segment(kind) => if kind.Relocatable? then Chosen(before) else Some(Created(before))
      case Select(s) => Some(s)
      case Origin(at, _) => if at.Some? then at else Chosen(before)
      case _ => Chosen(before)
  }

  /** A line changes the current segment only by its own effect. */
  lemma {:induction false} ChoiceStep(p: State, line: Line)
    requires Ok(p) && Grammatical(line.op) && Step(p, line).Some?
    ensures Begin(p, line.op).Some?
    ensures Step(p, line).value.cseg == Begin(p, line.op).value.cseg
    ensures |Step(p, line).value.segs| == |Begin(p, line.op).value.segs|
  {
  }

  lemma {:induction false} ChosenNow(lines: seq<Line>)
    requires Source(lines) && Pass1(lines).Some?
    ensures Pass1(lines).value.cseg == Chosen(lines) && |Pass1(lines).value.segs| == Created(lines)
    decreases |lines|
  {
    if |lines| > 0 {
      var n := |lines| - 1;
      ChosenNow(lines[..n]);
      ChosenStep(lines, Pass1(lines[..n]).value, Pass1(lines).value);
    }
  }

  lemma {:induction false} ChosenStep(lines: seq<Line>, p: State, q: State)
    requires |lines| > 0 && Ok(p) && Grammatical(lines[|lines| - 1].op) && Step(p, lines[|lines| - 1]) == Some(q)
    requires p.cseg == Chosen(lines[..|lines| - 1]) && |p.segs| == Created(lines[..|lines| - 1])
    ensures q.cseg == Chosen(lines) && |q.segs| == Created(lines)
  {
    ChoiceStep(p, lines[|lines| - 1]);
  }

  // ----- one line ----------------------------------------------------------------------

  /** Where a line that does not choose an address begins. */
  function Start(a: nat, op: Op): nat {
    if Aligns(op) then Evened(a) else a
  }

  predicate Chooses(op: Op) {
    op.Segment? || op.Select? || op.Origin?
  }

  lemma {:induction false} PlaceStep(p: State, line: Line)
    requires Ok(p) && InRange(p) && Grammatical(line.op) && Length(line.op) < P64 && Step(p, line).Some?
    requires !Chooses(line.op) && p.cseg.Some?
    ensures var q, a := Step(p, line).value, Start(Here(p), line.op);
            && q.cseg == p.cseg && |q.segs| == |p.segs|
            && (Length(line.op) > 0 ==> q.placed == p.placed + [At(p.cseg.value, a)])
            && (!line.op.Space? ==> Here(q) == (a + Length(line.op)) % P64)
            && (line.op.Space? ==> Here(q) == (a + line.op.skip) % P64)
  {
    ReachedFacts(p, line.op);
    RestFacts(p, line);
    Aligned(p, line.op);
    ChoiceStep(p, line);
    StepEnds(p, line);
  }

  lemma {:induction false} Aligned(p: State, op: Op)
    requires Ok(p) && InRange(p) && Reached(p, op).Some? && !Chooses(op) && p.cseg.Some?
    ensures var r := Reached(p, op).value; r.cseg == p.cseg && Here(r) == Start(Here(p), op)
  {
    Wrapped(Here(p), Here(p) % 2);
  }

  lemma {:induction false} StepEnds(p: State, line: Line)
    requires Ok(p) && InRange(p) && Grammatical(line.op) && Length(line.op) < P64 && Step(p, line).Some?
    requires Reached(p, line.op).value.cseg.Some?
    ensures var r, q := Reached(p, line.op).value, Step(p, line).value;
            && q.cseg == r.cseg
            && (!line.op.Space? ==> Here(q) == (Here(r) + Length(line.op)) % P64)
            && (line.op.Space? ==> Here(q) == (Here(r) + line.op.skip) % P64)
  {
    ReachedFacts(p, line.op);
    var r := Reached(p, line.op).value;
    LabelKeeps(r, line.tag);
    var d := Define(r, line.tag).value;
    PlaceFacts(d, Length(line.op));
    Wrapped(Here(r), 0);
  }

  // ----- lines in a row ------------------------------------------------------------------

  /** Between `p` and `q` a line with operation `op` was placed as line `k` of a program
      that ends in `late`. */
  predicate Stood(late: State, k: nat, op: Op, p: State, q: State)
    requires Grammatical(op)
  {
    && Ok(p) && p.cseg.Some? && Ok(q) && q.cseg == p.cseg && k < |late.placed|
    && late.placed[k] == At(p.cseg.value, Start(Here(p), op))
    && Here(q) == (Start(Here(p), op) + Length(op)) % P64
  }

  /** Line `k` of an accepted program, if it generates bytes: where it stands in the end. */
  lemma {:induction false} LineStands(lines: seq<Line>, k: nat, p: State, late: State) returns (q: State)
    requires Source(lines) && Pass1(lines) == Some(late) && k < |lines| && Length(lines[k].op) > 0
    requires Pass1(lines[..k]) == Some(p)
    ensures Pass1(lines[..k + 1]) == Some(q) && Stood(late, k, lines[k].op, p, q)
  {
    q := LineAt(lines, k, p);
    PlacedLine(p, lines[k], q);
    Stays(lines, k, q, late);
  }

  lemma {:induction false} PlacedLine(p: State, line: Line, q: State)
    requires Ok(p) && InRange(p) && Grammatical(line.op) && 0 < Length(line.op) < P64 && Step(p, line) == Some(q)
    ensures |q.placed| == |p.placed| + 1 && Stood(q, |p.placed|, line.op, p, q)
  {
    PlacedChosen(p, line);
    PlaceStep(p, line);
  }

  lemma {:induction false} Stays(lines: seq<Line>, k: nat, q: State, late: State)
    requires Source(lines) && Pass1(lines) == Some(late) && k < |lines| && Pass1(lines[..k + 1]) == Some(q)
    requires k < |q.placed|
    ensures k < |late.placed| && late.placed[k] == q.placed[k]
  {
    PlacedStays(lines, k + 1, q, late);
    AtPrefix(q.placed, late.placed, k);
  }

  /** A line that generates bytes is placed in the segment chosen last. */
  lemma {:induction false} PlacedIn(lines: seq<Line>, k: nat, late: State)
    requires Source(lines) && Pass1(lines) == Some(late) && k < |lines| && Length(lines[k].op) > 0
    ensures k < |late.placed| && late.placed[k].At? && Chosen(lines[..k]) == Some(late.placed[k].seg)
  {
    ErrorsStay(lines, k);
    var q := LineStands(lines, k, Pass1(lines[..k]).value, late);
    ChosenNow(lines[..k]);
  }

  lemma {:induction false} PlacedChosen(p: State, line: Line)
    requires Ok(p) && InRange(p) && Grammatical(line.op) && 0 < Length(line.op) < P64 && Step(p, line).Some?
    ensures p.cseg.Some?
    ensures var q, n := Step(p, line).value, |p.placed|;
            |q.placed| == n + 1 && q.placed[n] == At(p.cseg.value, Start(Here(p), line.op))
  {
    RestFacts(p, line);
    PlaceStep(p, line);
  }

  /** Line `k + 1` stands where line `k` ends. */
  predicate Follows(late: State, k: nat, op: Op, next: Op)
    requires Grammatical(op)
  {
    && k + 1 < |late.placed| && late.placed[k].At?
    && var a := late.placed[k];
       late.placed[k + 1] == At(a.seg, Start((a.addr + Length(op)) % P64, next))
  }

  /** Two lines in a row that both generate bytes lie one behind the other, the second
      from the next even address on if it has to. */
  lemma {:induction false} NextLine(lines: seq<Line>, k: nat, late: State)
    requires Source(lines) && Pass1(lines) == Some(late) && k + 1 < |lines|
    requires Length(lines[k].op) > 0 && Length(lines[k + 1].op) > 0
    ensures Follows(late, k, lines[k].op, lines[k + 1].op)
  {
    ErrorsStay(lines, k);
    var p := Pass1(lines[..k]).value;
    var q := LineStands(lines, k, p, late);
    var r := SecondStands(lines, k, q, late);
    InARow(late, k, lines[k].op, lines[k + 1].op, p, q, r);
  }

  lemma {:induction false} SecondStands(lines: seq<Line>, k: nat, p: State, late: State) returns (q: State)
    requires Source(lines) && Pass1(lines) == Some(late) && k + 1 < |lines| && Length(lines[k + 1].op) > 0
    requires Pass1(lines[..k + 1]) == Some(p)
    ensures Stood(late, k + 1, lines[k + 1].op, p, q)
  {
    q := LineStands(lines, k + 1, p, late);
  }

  lemma {:induction false} InARow(late: State, k: nat, op: Op, next: Op, p: State, q: State, r: State)
    requires Grammatical(op) && Grammatical(next) && Stood(late, k, op, p, q) && Stood(late, k + 1, next, q, r)
    ensures Follows(late, k, op, next)
  {
  }

  /** A line that generates bytes behind an ORG stands at its address, or at the next even
      one. */
  lemma {:induction false} AfterOrigin(lines: seq<Line>, k: nat, late: State)
    requires Source(lines) && Pass1(lines) == Some(late) && k + 1 < |lines|
    requires lines[k].op.Origin? && lines[k].op.addr < P64 && Length(lines[k + 1].op) > 0
    ensures k + 1 < |late.placed| && Chosen(lines[..k + 1]).Some?
    ensures late.placed[k + 1] == At(Chosen(lines[..k + 1]).value, Start(lines[k].op.addr, lines[k + 1].op))
  {
    ErrorsStay(lines, k);
    var p := Pass1(lines[..k]).value;
    var q := LineAt(lines, k, p);
    OriginMoves(p, lines[k]);
    ChosenNow(lines[..k + 1]);
    var r := LineStands(lines, k + 1, q, late);
  }

  lemma {:induction false} OriginMoves(p: State, line: Line)
    requires Ok(p) && InRange(p) && Grammatical(line.op) && line.op.Origin? && line.op.addr < P64
    requires Step(p, line).Some?
    ensures Step(p, line).value.cseg.Some? && Here(Step(p, line).value) == line.op.addr
  {
    StepEnds(p, line);
    Wrapped(line.op.addr, 0);
  }

  /** Every line that generates bytes but DB stands at an even address, and DB where the
      address happens to be. */
  lemma {:induction false} EvenLines(lines: seq<Line>, k: nat, late: State)
    requires Source(lines) && Pass1(lines) == Some(late) && k < |lines| && Length(lines[k].op) > 0
    ensures k < |late.placed| && late.placed[k].At? && Pass1(lines[..k]).Some?
    ensures var p := Pass1(lines[..k]).value;
            Ok(p) && p.cseg.Some?
            && if lines[k].op.DB? then late.placed[k].addr == Here(p) else late.placed[k].addr == Evened(Here(p))
  {
    ErrorsStay(lines, k);
    var q := LineStands(lines, k, Pass1(lines[..k]).value, late);
  }

  // ----- errors ----------------------------------------------------------------------------

  /** The segment that a line's bytes and label go to, if it has one. */
  function Target(p: State, op: Op): Option<nat> {
    match op
    case Segment(kind) => if kind.Relocatable? then p.cseg else Some(|p.segs|)
    case Select(s) => Some(s)
    case Origin(at, _) => if at.Some? then at else p.cseg
    case _ => p.cseg
  }

  /** What pass 1 rejects, and nothing else: a segment that there is not, code, data,
      space or a label without a segment, a name defined twice, and bytes in a segment
      without an origin or an external one. */
  lemma {:induction false} Rejected(p: State, line: Line)
    requires Ok(p) && Grammatical(line.op)
    ensures var s, op := Target(p, line.op), line.op;
            Step(p, line).None? <==>
              || (op.Select? && op.seg >= |p.segs|)
              || (op.Origin? && (s.None? || s.value >= |p.segs|))
              || (s.None? && (Aligns(op) || !line.tag.NoLabel? || Length(op) > 0))
              || (line.tag.Named? && line.tag.name in p.syms)
              || (Length(op) > 0 && s.Some? && (!p.segs[s.value].based || p.segs[s.value].kind.External?))
  {
  }

  // ----- lengths ---------------------------------------------------------------------------

  /** A segment's length is an address reached in it: after some line it was the current
      one, and its address that. */
  lemma {:induction false} LengthReached(lines: seq<Line>, s: nat) returns (k: nat)
    requires Source(lines) && Pass1(lines).Some? && s < |Pass1(lines).value.segs|
    requires Pass1(lines).value.segs[s].length > 0
    ensures k <= |lines| && Pass1(lines[..k]).Some? && Pass1(lines[..k]).value.cseg == Some(s)
    ensures Here(Pass1(lines[..k]).value) == Pass1(lines).value.segs[s].length
    decreases |lines|
  {
    var n := |lines| - 1;
    var p, q := Pass1(lines[..n]).value, Pass1(lines).value;
    LengthStep(p, lines[n], s);
    if s < |p.segs| && p.segs[s].length == q.segs[s].length {
      k := LengthReached(lines[..n], s);
      assert lines[..n][..k] == lines[..k];
    } else {
      k := |lines|;
      assert lines[..k] == lines;
    }
  }

  lemma {:induction false} LengthStep(p: State, line: Line, s: nat)
    requires Ok(p) && Grammatical(line.op) && Step(p, line).Some? && s < |Step(p, line).value.segs|
    ensures var q := Step(p, line).value;
            || (s < |p.segs| && q.segs[s].length == p.segs[s].length)
            || (s >= |p.segs| && q.segs[s].length == 0)
            || (q.cseg == Some(s) && q.segs[s].length == Here(q))
  {
    var r := Reached(p, line.op).value;
    var e := Skip(Place(Define(r, line.tag).value, Length(line.op)).value, line.op);
    ReachedLengths(p, line.op);
    RestLengths(r, line);
    assert Step(p, line).value == Grow(e);
  }

  predicate SameLengths(p: State, q: State) {
    |p.segs| <= |q.segs|
    && forall s :: 0 <= s < |q.segs| ==> q.segs[s].length == if s < |p.segs| then p.segs[s].length else 0
  }

  lemma {:induction false} ReachedLengths(p: State, op: Op)
    requires Ok(p) && Reached(p, op).Some?
    ensures SameLengths(p, Reached(p, op).value)
  {
  }

  lemma {:induction false} RestLengths(r: State, line: Line)
    requires Ok(r) && Grammatical(line.op) && Define(r, line.tag).Some?
    requires Place(Define(r, line.tag).value, Length(line.op)).Some?
    ensures SameLengths(r, Skip(Place(Define(r, line.tag).value, Length(line.op)).value, line.op))
  {
  }
}
