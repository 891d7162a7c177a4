/** The parser of object files (object.cc), and what it makes of the assembler's
    dump. */
module ObjectFile {
  import opened Codec
  import opened Kernel
  import opened Octal
  import opened ObjectText

  const P16: nat := 0x1_0000

  /** A segment of a parsed file; bytes are as wide as the host keeps them. */
  datatype Parsed = Parsed(name: string, value: nat, flags: nat, size: nat, data: seq<(nat, seq<int>)>)

  datatype Contents = Contents(segs: seq<Parsed>, sseg: nat, saddr: nat)

  /** The numbers of a data line. A number is extracted, good or not, as long as
      the stream was good before. */
  function Bytes(st: Stream, seg: nat): seq<int>
    decreases if Good(st) then 1 + |st.rest| else 0
  {
    if !Good(st) then []
    else
      var (v, st') := ReadNumber(st, seg, P32);
      [v % P16] + Bytes(st', v)
  }

  /** One line of the file. A data line that comes before any segment follows an
      unset pointer: None. */
  function ParseLine(p: Contents, line: string): Option<Contents> {
    var (c0, s0) := ReadChar(On(line));
    var (c1, s1) := ReadChar(s0);
    if c0 == Some('S') && c1 == Some('L') then
      var (seg, s2) := ReadNumber(s1, 0, P32);
      var (addr, s3) := ReadNumber(s2, 0, P64);
      var (flags, s4) := ReadNumber(s3, 0, P32);
      var (text, _) := ReadWord(s4);
      Some(p.(segs := p.segs + [Parsed(text, seg, flags, addr, [])]))
    else if c0 == Some('X') && c1 == Some('S') then
      var (seg, s2) := ReadNumber(s1, 0, P32);
      var (addr, _) := ReadNumber(s2, 0, P64);
      Some(p.(sseg := seg, saddr := addr))
    else if c0 == Some('D') && c1 == Some('D') then
      if |p.segs| == 0 then None
      else
        var (addr, s2) := ReadNumber(s1, 0, P64);
        Some(AddData(p, (addr, Bytes(s2, 0))))
    else Some(p)
  }

  function AddData(p: Contents, d: (nat, seq<int>)): Contents
    requires |p.segs| > 0
  {
    var last := |p.segs| - 1;
    p.(segs := p.segs[last := p.segs[last].(data := p.segs[last].data + [d])])
  }

  function ParseLines(p: Contents, lines: seq<string>): Option<Contents>
    decreases |lines|
  {
    if |lines| == 0 then Some(p)
    else
      match ParseLine(p, lines[0])
      case None => None
      case Some(q) => ParseLines(q, lines[1..])
  }

  /** The position of the first line break. */
  function LineEnd(s: string): (k: nat)
    ensures k <= |s| && forall i :: 0 <= i < k ==> s[i] != '\n'
    ensures k < |s| ==> s[k] == '\n'
  {
    if |s| == 0 || s[0] == '\n' then 0 else 1 + LineEnd(s[1..])
  }

  /** Complete lines; characters after the last line break are dropped, as the
      stream is at its end after reading them. */
  function Lines(s: string): seq<string>
    decreases |s|
  {
    var k := LineEnd(s);
    if k == |s| then [] else [s[..k]] + Lines(s[k + 1..])
  }

  class Object {
    var segs: seq<Parsed>
    var sseg: nat
    var saddr: nat

    ghost function Abs(): Contents
      reads this
    {
      Contents(segs, sseg, saddr)
    }

    constructor ()
      ensures Abs() == Contents([], 0, 0)
    {
      segs, sseg, saddr := [], 0, 0;
    }

    /** Reading a whole file. */
    method Load(file: string) returns (ok: bool)
      modifies this
      ensures var r := ParseLines(Contents([], old(sseg), old(saddr)), Lines(file));
              (ok <==> r.Some?) && (ok ==> Abs() == r.value)
    {
      segs := [];
      var rest := file;
      var k := LineEnd(rest);
      while k < |rest|
        invariant k == LineEnd(rest)
        invariant ParseLines(Contents([], old(sseg), old(saddr)), Lines(file)) == ParseLines(Abs(), Lines(rest))
        decreases |rest|
      {
        assert Lines(rest) == [rest[..k]] + Lines(rest[k + 1..]);
        ok := Line(rest[..k]);
        if !ok {
          return;
        }
        rest := rest[k + 1..];
        k := LineEnd(rest);
      }
      return true;
    }

    /** The number loop of a data line. */
    static method Numbers(start: Stream) returns (bytes: seq<int>)
      ensures bytes == Bytes(start, 0)
    {
      var seg: nat := 0;
      var il := start;
      bytes := [];
      while Good(il)
        invariant bytes + Bytes(il, seg) == Bytes(start, 0)
        decreases if Good(il) then 1 + |il.rest| else 0
      {
        var (v, s3) := ReadNumber(il, seg, P32);
        assert Bytes(il, seg) == [v % P16] + Bytes(s3, v);
        seg, il := v, s3;
        bytes := bytes + [v % P16];
      }
    }

    method Line(line: string) returns (ok: bool)
      modifies this
      ensures var r := ParseLine(old(Abs()), line); (ok <==> r.Some?) && (ok ==> Abs() == r.value)
    {
      var (c0, s0) := ReadChar(On(line));
      var (c1, il) := ReadChar(s0);
      var seg: nat, addr: nat, flags: nat := 0, 0, 0;
      if c0 == Some('S') && c1 == Some('L') {
        var (v, s2) := ReadNumber(il, seg, P32);
        var (n, s3) := ReadNumber(s2, addr, P64);
        var (f, s4) := ReadNumber(s3, flags, P32);
        var (text, _) := ReadWord(s4);
        segs := segs + [Parsed(text, v, f, n, [])];
      } else if c0 == Some('X') && c1 == Some('S') {
        var (v, s2) := ReadNumber(il, seg, P32);
        var (a, _) := ReadNumber(s2, addr, P64);
        sseg, saddr := v, a;
      } else if c0 == Some('D') && c1 == Some('D') {
        if |segs| == 0 {
          return false;
        }
        var (a, s2) := ReadNumber(il, addr, P64);
        var bytes := Numbers(s2);
        var cs := segs[|segs| - 1];
        segs := segs[|segs| - 1 := cs.(data := cs.data + [(a, bytes)])];
      }
      return true;
    }
  }

  // ----- reading back a dump ---------------------------------------------------------

  predicate Name(s: string) {
    forall i :: 0 <= i < |s| ==> !Space(s[i])
  }

  /** What the assembler can be asked to write: its fields' widths, and addresses
      below 2^64. */
  predicate Printable(s: Section) {
    && s.value < P32 && s.flags < P16 && s.length < P64 && Name(s.name)
    && forall r :: r in AllRuns(s.data) ==> r.0 < P64 && |r.1| > 0
  }

  predicate AllPrintable(secs: seq<Section>) {
    forall i :: 0 <= i < |secs| ==> Printable(secs[i])
  }

  function ReadBack(s: Section): Parsed {
    Parsed(s.name, s.value, s.flags, s.length, AllRuns(s.data))
  }

  lemma {:induction false} BytesStep(st: Stream, was: nat, b: Byte, st': Stream)
    requires Good(st) && ReadNumber(st, was, P32) == (b, st')
    ensures Bytes(st, was) == [b] + Bytes(st', b)
  {
    var v := ReadNumber(st, was, P32).0;
    assert v % P16 == v by { SmallMod(v, P16); }
  }

  lemma {:induction false} SmallMod(n: nat, d: nat)
    requires n < d
    ensures n % d == n
  {
  }

  /** Each byte of a row is read once, and the row ends the stream. */
  lemma {:induction false} RowBytes(bytes: seq<Byte>, was: nat)
    ensures |bytes| > 0 ==> Bytes(On(Row(bytes)), was) == bytes
    decreases |bytes|
  {
    if |bytes| > 0 {
      var tail := Row(bytes[1..]);
      assert |bytes| > 1 ==> tail[0] == ' ';
      ReadZeros(" ", 3, bytes[0], tail, was, P32);
      BytesStep(On(Row(bytes)), was, bytes[0], Stream(tail, |tail| == 0, false));
      if |bytes| > 1 {
        RowBytes(bytes[1..], bytes[0]);
      } else {
        assert tail == "";
      }
    }
  }

  lemma {:induction false} Command(c: char, d: char, s: string)
    requires !Space(c) && !Space(d)
    ensures ReadChar(On([c, d] + s)) == (Some(c), On([d] + s)) && ReadChar(On([d] + s)) == (Some(d), On(s))
  {
    assert ([c, d] + s)[1..] == [d] + s && ([d] + s)[1..] == s;
  }

  lemma {:induction false} ReadData(p: Contents, addr: nat, bytes: seq<Byte>)
    requires |p.segs| > 0 && addr < P64 && |bytes| > 0
    ensures ParseLine(p, DataLine(addr, bytes)) == Some(AddData(p, (addr, bytes)))
  {
    Regroup("DD", Blanks(9, addr), Row(bytes));
    Command('D', 'D', Blanks(9, addr) + Row(bytes));
    assert Row(bytes)[0] == ' ';
    ReadBlanks(9, addr, Row(bytes), 0, P64);
    RowBytes(bytes, 0);
  }

  lemma {:induction false} ReadHeader(p: Contents, s: Section)
    requires s.value < P32 && s.flags < P16 && s.length < P64 && Name(s.name)
    ensures ParseLine(p, Header(s)) == Some(p.(segs := p.segs + [Parsed(s.name, s.value, s.flags, s.length, [])]))
  {
    var t4 := " " + s.name;
    var t3 := " " + Zeros(3, s.flags) + t4;
    var t2 := " " + Zeros(9, s.length) + t3;
    HeaderShape(s);
    Command('S', 'L', Zeros(6, s.value) + t2);
    assert "" + Zeros(6, s.value) == Zeros(6, s.value);
    ReadZeros("", 6, s.value, t2, 0, P32);
    ReadZeros(" ", 9, s.length, t3, 0, P64);
    ReadZeros(" ", 3, s.flags, t4, 0, P32);
    ReadName(s.name);
  }

  lemma {:induction false} HeaderShape(s: Section)
    ensures Header(s)
            == "SL" + (Zeros(6, s.value) + (" " + Zeros(9, s.length) + (" " + Zeros(3, s.flags) + (" " + s.name))))
  {
    Regroup7("SL", Zeros(6, s.value), " ", Zeros(9, s.length), " ", Zeros(3, s.flags), " ", s.name);
  }

  lemma {:induction false} Regroup7(a: string, b: string, c: string, d: string, e: string, f: string, g: string,
                                    h: string)
    ensures a + b + c + d + e + f + g + h == a + (b + (c + d + (e + f + (g + h))))
  {
    Regroup(a, b, c + d + (e + f + (g + h)));
    Regroup(a + b, c + d, e + f + (g + h));
    Regroup(a + b, c, d);
    Regroup(a + b + c + d, e + f, g + h);
    Regroup(a + b + c + d, e, f);
    Regroup(a + b + c + d + e + f, g, h);
  }

  lemma {:induction false} ReadEntry(p: Contents, e: Entry)
    requires e.seg < P32 && e.addr < P64
    ensures ParseLine(p, EntryLine(e)) == Some(p.(sseg := e.seg, saddr := e.addr))
  {
    var t2 := " " + Zeros(9, e.addr);
    Regroup("XS" + Zeros(6, e.seg), " ", Zeros(9, e.addr));
    Regroup("XS", Zeros(6, e.seg), t2);
    Command('X', 'S', Zeros(6, e.seg) + t2);
    assert "" + Zeros(6, e.seg) == Zeros(6, e.seg);
    ReadZeros("", 6, e.seg, t2, 0, P32);
    assert t2 + "" == t2;
    ReadZeros(" ", 9, e.addr, "", 0, P64);
  }

  lemma {:induction false} ParseAppend(p: Contents, a: seq<string>, b: seq<string>)
    ensures ParseLines(p, a + b)
         == if ParseLines(p, a).Some? then ParseLines(ParseLines(p, a).value, b) else None
    decreases |a|
  {
    if |a| == 0 {
      assert a + b == b;
    } else {
      assert (a + b)[1..] == a[1..] + b;
      var q := ParseLine(p, a[0]);
      if q.Some? {
        ParseAppend(q.value, a[1..], b);
      }
    }
  }

  lemma {:induction false} ParseStep(p: Contents, line: string, lines: seq<string>, q: Contents)
    requires ParseLine(p, line) == Some(q)
    ensures ParseLines(p, [line] + lines) == ParseLines(q, lines)
  {
    assert ([line] + lines)[1..] == lines;
  }

  function With(p: Contents, s: Parsed): Contents {
    p.(segs := p.segs + [s])
  }

  function More(s: Parsed, runs: seq<(nat, seq<Byte>)>): Parsed {
    s.(data := s.data + runs)
  }

  /** A data line extends the segment last begun. */
  lemma {:induction false} ReadRun(p: Contents, s: Parsed, run: (nat, seq<Byte>), lines: seq<string>)
    requires run.0 < P64 && |run.1| > 0
    ensures ParseLines(With(p, s), [DataLine(run.0, run.1)] + lines) == ParseLines(With(p, More(s, [run])), lines)
  {
    var p1 := With(p, s);
    ReadData(p1, run.0, run.1);
    assert AddData(p1, (run.0, run.1)) == With(p, More(s, [run]));
    ParseStep(p1, DataLine(run.0, run.1), lines, With(p, More(s, [run])));
  }

  lemma {:induction false} MoreMore(s: Parsed, runs: seq<(nat, seq<Byte>)>)
    requires |runs| > 0
    ensures More(More(s, [runs[0]]), runs[1..]) == More(s, runs)
  {
    Regroup(s.data, [runs[0]], runs[1..]);
    assert [runs[0]] + runs[1..] == runs;
  }

  lemma {:induction false} ReadRuns(p: Contents, s: Parsed, runs: seq<(nat, seq<Byte>)>)
    requires forall r :: r in runs ==> r.0 < P64 && |r.1| > 0
    ensures ParseLines(With(p, s), DataLines(runs)) == Some(With(p, More(s, runs)))
    decreases |runs|
  {
    if |runs| == 0 {
      assert More(s, runs) == s;
    } else {
      MoreMore(s, runs);
      ReadRuns(p, More(s, [runs[0]]), runs[1..]);
      ReadRun(p, s, runs[0], DataLines(runs[1..]));
    }
  }

  lemma {:induction false} ReadSection(p: Contents, s: Section)
    requires Printable(s)
    ensures ParseLines(p, SectionLines(s)) == Some(With(p, ReadBack(s)))
  {
    var begun := Parsed(s.name, s.value, s.flags, s.length, []);
    ReadHeader(p, s);
    ParseStep(p, Header(s), DataLines(AllRuns(s.data)), With(p, begun));
    ReadRuns(p, begun, AllRuns(s.data));
    assert [] + AllRuns(s.data) == AllRuns(s.data);
  }

  function AllReadBack(secs: seq<Section>): (r: seq<Parsed>)
    ensures |r| == |secs| && forall i :: 0 <= i < |secs| ==> r[i] == ReadBack(secs[i])
  {
    if |secs| == 0 then [] else [ReadBack(secs[0])] + AllReadBack(secs[1..])
  }

  function WithAll(p: Contents, segs: seq<Parsed>): Contents {
    p.(segs := p.segs + segs)
  }

  lemma {:induction false} WithFirst(p: Contents, secs: seq<Section>)
    requires |secs| > 0
    ensures WithAll(With(p, ReadBack(secs[0])), AllReadBack(secs[1..])) == WithAll(p, AllReadBack(secs))
  {
    Regroup(p.segs, [ReadBack(secs[0])], AllReadBack(secs[1..]));
  }

  lemma {:induction false} ReadSections(p: Contents, secs: seq<Section>)
    requires AllPrintable(secs)
    ensures ParseLines(p, SectionsLines(secs)) == Some(WithAll(p, AllReadBack(secs)))
    decreases |secs|
  {
    if |secs| > 0 {
      WithFirst(p, secs);
      ReadSections(With(p, ReadBack(secs[0])), secs[1..]);
      ReadSection(p, secs[0]);
      ParseAppend(p, SectionLines(secs[0]), SectionsLines(secs[1..]));
    } else {
      assert WithAll(p, []) == p;
    }
  }

  predicate Unbroken(lines: seq<string>) {
    forall i :: 0 <= i < |lines| ==> '\n' !in lines[i]
  }

  lemma {:induction false} FirstBreak(line: string, rest: string)
    requires '\n' !in line
    ensures LineEnd(line + "\n" + rest) == |line|
    decreases |line|
  {
    if |line| > 0 {
      FirstBreak(line[1..], rest);
      assert (line + "\n" + rest)[1..] == line[1..] + "\n" + rest;
    }
  }

  /** Lines written one after the other are the lines read. */
  lemma {:induction false} LinesText(lines: seq<string>)
    requires Unbroken(lines)
    ensures Lines(Text(lines)) == lines
    decreases |lines|
  {
    if |lines| > 0 {
      var rest := Text(lines[1..]);
      FirstBreak(lines[0], rest);
      LinesText(lines[1..]);
      var s := lines[0] + "\n" + rest;
      assert s[..|lines[0]|] == lines[0] && s[|lines[0]| + 1..] == rest;
    }
  }

  lemma {:induction false} RowUnbroken(bytes: seq<Byte>)
    ensures '\n' !in Row(bytes)
    decreases |bytes|
  {
    if |bytes| > 0 {
      RowUnbroken(bytes[1..]);
    }
  }

  lemma {:induction false} DataUnbroken(runs: seq<(nat, seq<Byte>)>)
    ensures Unbroken(DataLines(runs))
    decreases |runs|
  {
    if |runs| > 0 {
      RowUnbroken(runs[0].1);
      DataUnbroken(runs[1..]);
    }
  }

  lemma {:induction false} SectionsUnbroken(secs: seq<Section>)
    requires forall i :: 0 <= i < |secs| ==> Name(secs[i].name)
    ensures Unbroken(SectionsLines(secs))
    decreases |secs|
  {
    if |secs| > 0 {
      DataUnbroken(AllRuns(secs[0].data));
      assert Name(secs[0].name);
      assert '\n' !in Header(secs[0]);
      SectionsUnbroken(secs[1..]);
    }
  }

  lemma {:induction false} ObjectUnbroken(secs: seq<Section>, start: Option<Entry>)
    requires AllPrintable(secs)
    ensures Unbroken(ObjectLines(secs, start))
  {
    SectionsUnbroken(secs);
    assert start.Some? ==> '\n' !in EntryLine(start.value);
  }

  /** The dump of any printable segments, read by the loader, gives the same
      segments with the same data runs, and the same entry point. */
  lemma {:induction false} TextRoundTrip(secs: seq<Section>, start: Option<Entry>)
    requires AllPrintable(secs) && (start.Some? ==> start.value.seg < P32 && start.value.addr < P64)
    ensures ParseLines(Contents([], 0, 0), Lines(Text(ObjectLines(secs, start))))
         == Some(Contents(AllReadBack(secs),
                          if start.Some? then start.value.seg else 0,
                          if start.Some? then start.value.addr else 0))
  {
    ObjectUnbroken(secs, start);
    LinesText(ObjectLines(secs, start));
    var p := Contents([], 0, 0);
    ReadSections(p, secs);
    assert WithAll(p, AllReadBack(secs)).segs == AllReadBack(secs);
    ParseAppend(p, SectionsLines(secs), EntryLines(start));
    if start.Some? {
      var q := p.(segs := AllReadBack(secs));
      ReadEntry(q, start.value);
      assert EntryLines(start)[1..] == [];
    }
  }
}
