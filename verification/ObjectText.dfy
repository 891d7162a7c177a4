/** Object files as text: the assembler's dump (nas/nas.cc) and the loader's
    parser (object.cc). */
module ObjectText {
  import opened Codec
  import opened Kernel
  import opened Octal
  import opened Ranges

  /** A segment to be written. */
  datatype Section = Section(value: nat, length: nat, flags: nat, name: string, data: seq<Range>)

  /** The START record, if there is one. */
  datatype Entry = Entry(seg: nat, addr: nat)

  // ----- writing ---------------------------------------------------------------------

  const PERLINE: nat := 30

  function Row(bytes: seq<Byte>): string {
    if |bytes| == 0 then "" else Cell(bytes[0]) + Row(bytes[1..])
  }

  function DataLine(addr: nat, bytes: seq<Byte>): string {
    "DD" + Blanks(9, addr) + Row(bytes)
  }

  /** The data runs of a range: at most PERLINE bytes each. */
  function Runs(addr: nat, bytes: seq<Byte>): seq<(nat, seq<Byte>)>
    decreases |bytes|
  {
    if |bytes| == 0 then []
    else if |bytes| <= PERLINE then [(addr, bytes)]
    else [(addr, bytes[..PERLINE])] + Runs(addr + PERLINE, bytes[PERLINE..])
  }

  function AllRuns(rs: seq<Range>): seq<(nat, seq<Byte>)> {
    if |rs| == 0 then [] else Runs(rs[0].from, rs[0].bytes) + AllRuns(rs[1..])
  }

  function DataLines(runs: seq<(nat, seq<Byte>)>): seq<string> {
    if |runs| == 0 then [] else [DataLine(runs[0].0, runs[0].1)] + DataLines(runs[1..])
  }

  function Header(s: Section): string {
    "SL" + Zeros(6, s.value) + " " + Zeros(9, s.length) + " " + Zeros(3, s.flags) + " " + s.name
  }

  function SectionLines(s: Section): seq<string> {
    [Header(s)] + DataLines(AllRuns(s.data))
  }

  function EntryLine(e: Entry): string {
    "XS" + Zeros(6, e.seg) + " " + Zeros(9, e.addr)
  }

  function EntryLines(start: Option<Entry>): seq<string> {
    if start.Some? then [EntryLine(start.value)] else []
  }

  function SectionsLines(secs: seq<Section>): seq<string> {
    if |secs| == 0 then [] else SectionLines(secs[0]) + SectionsLines(secs[1..])
  }

  function ObjectLines(secs: seq<Section>, start: Option<Entry>): seq<string> {
    SectionsLines(secs) + EntryLines(start)
  }

  function Text(lines: seq<string>): string {
    if |lines| == 0 then "" else lines[0] + "\n" + Text(lines[1..])
  }

  /** Lines each begun by a line break instead of ended by one. */
  function Led(lines: seq<string>): string {
    if |lines| == 0 then "" else "\n" + lines[0] + Led(lines[1..])
  }

  function Cell(b: Byte): string {
    " " + Zeros(3, b)
  }

  function Lead(addr: nat): string {
    "\n" + ("DD" + Blanks(9, addr))
  }

  /** The line address and byte count after one more byte. */
  function Next(addr: nat, count: nat): (nat, nat) {
    if count + 1 >= PERLINE then (addr + count + 1, 0) else (addr, count + 1)
  }

  /** What the inner loop has still to print: the bytes `bs`, the first of which is
      byte number `count` of the line of address `addr`. */
  function Pending(addr: nat, count: nat, bs: seq<Byte>): string
    decreases |bs|
  {
    if |bs| == 0 then ""
    else
      var rest := Pending(Next(addr, count).0, Next(addr, count).1, bs[1..]);
      if count == 0 then Lead(addr) + (Cell(bs[0]) + rest) else Cell(bs[0]) + rest
  }

  /** Bytes left after `k` have gone to the current line. */
  function Beyond(addr: nat, bs: seq<Byte>, k: nat): string {
    if |bs| <= k then "" else Pending(addr + PERLINE, 0, bs[k..])
  }

  function Upto(bs: seq<Byte>, k: nat): (r: seq<Byte>)
    ensures |bs| <= k ==> r == bs
  {
    if |bs| <= k then bs else bs[..k]
  }

  lemma {:induction false} LineTail(addr: nat, bs: seq<Byte>, k: nat)
    requires |bs| > 0 && k > 0
    ensures Row(Upto(bs, k)) == Cell(bs[0]) + Row(Upto(bs[1..], k - 1))
    ensures Beyond(addr, bs, k) == Beyond(addr, bs[1..], k - 1)
  {
    var line := Upto(bs, k);
    assert line[0] == bs[0] && line[1..] == Upto(bs[1..], k - 1);
    assert |bs| > k ==> bs[1..][k - 1..] == bs[k..];
  }

  lemma {:induction false} PendingLine(addr: nat, count: nat, bs: seq<Byte>)
    requires 0 < count < PERLINE
    ensures Pending(addr, count, bs) == Row(Upto(bs, PERLINE - count)) + Beyond(addr, bs, PERLINE - count)
    decreases |bs|
  {
    if |bs| > 0 {
      var k := PERLINE - count;
      LineTail(addr, bs, k);
      var row, beyond := Row(Upto(bs[1..], k - 1)), Beyond(addr, bs, k);
      Regroup(Cell(bs[0]), row, beyond);
      if count + 1 < PERLINE {
        PendingLine(addr, count + 1, bs[1..]);
      } else {
        assert row == "" && beyond == Pending(addr + PERLINE, 0, bs[1..]);
        assert "" + beyond == beyond;
      }
    }
  }

  /** The first line of a range, and what follows it. */
  lemma {:induction false} FirstLine(addr: nat, bs: seq<Byte>)
    requires |bs| > 0
    ensures Pending(addr, 0, bs) == "\n" + DataLine(addr, Upto(bs, PERLINE)) + Beyond(addr, bs, PERLINE)
  {
    PendingLine(addr, 1, bs[1..]);
    LineTail(addr, bs, PERLINE);
    Regroup4("\n", "DD" + Blanks(9, addr), Cell(bs[0]), Row(Upto(bs[1..], PERLINE - 1)), Beyond(addr, bs, PERLINE));
  }

  lemma {:induction false} Regroup4(a: string, b: string, c: string, d: string, e: string)
    ensures (a + b) + (c + (d + e)) == a + (b + (c + d)) + e
  {
  }

  /** A range prints as its data lines. */
  lemma {:induction false} PendingRuns(addr: nat, bs: seq<Byte>)
    ensures Pending(addr, 0, bs) == Led(DataLines(Runs(addr, bs)))
    decreases |bs|
  {
    if |bs| > 0 {
      FirstLine(addr, bs);
      RunsStep(addr, bs);
      if |bs| > PERLINE {
        PendingRuns(addr + PERLINE, bs[PERLINE..]);
      }
    }
  }

  lemma {:induction false} RunsStep(addr: nat, bs: seq<Byte>)
    requires |bs| > 0
    ensures var rest := if |bs| > PERLINE then Runs(addr + PERLINE, bs[PERLINE..]) else [];
            Led(DataLines(Runs(addr, bs))) == "\n" + DataLine(addr, Upto(bs, PERLINE)) + Led(DataLines(rest))
  {
    var rest := if |bs| > PERLINE then Runs(addr + PERLINE, bs[PERLINE..]) else [];
    var runs := Runs(addr, bs);
    assert runs == [(addr, Upto(bs, PERLINE))] + rest;
    assert runs[1..] == rest;
    var lines := DataLines(runs);
    assert lines[1..] == DataLines(rest);
  }

  /** One turn of the inner loop. */
  function Printed(out: string, addr: nat, count: nat, b: Byte): string {
    (if count == 0 then out + Lead(addr) else out) + Cell(b)
  }

  function Left(addr: nat, count: nat, bs: seq<Byte>): string {
    Pending(Next(addr, count).0, Next(addr, count).1, bs)
  }

  lemma {:induction false} PendingStep(out: string, addr: nat, count: nat, bs: seq<Byte>)
    requires |bs| > 0
    ensures out + Pending(addr, count, bs) == Printed(out, addr, count, bs[0]) + Left(addr, count, bs[1..])
  {
    var rest := Left(addr, count, bs[1..]);
    if count == 0 {
      Regroup(out, Lead(addr), Cell(bs[0]) + rest);
      Regroup(out + Lead(addr), Cell(bs[0]), rest);
    } else {
      Regroup(out, Cell(bs[0]), rest);
    }
  }

  lemma {:induction false} LedAppend(a: seq<(nat, seq<Byte>)>, b: seq<(nat, seq<Byte>)>)
    ensures Led(DataLines(a + b)) == Led(DataLines(a)) + Led(DataLines(b))
    decreases |a|
  {
    if |a| == 0 {
      assert a + b == b;
    } else {
      assert (a + b)[1..] == a[1..] + b;
      LedAppend(a[1..], b);
    }
  }

  /** Beginning each line with a break, or ending each with one. */
  lemma {:induction false} LedText(first: string, lines: seq<string>)
    ensures first + Led(lines) + "\n" == Text([first] + lines)
    decreases |lines|
  {
    assert ([first] + lines)[1..] == lines;
    if |lines| > 0 {
      LedText(lines[0], lines[1..]);
      assert [lines[0]] + lines[1..] == lines;
      assert first + ("\n" + lines[0] + Led(lines[1..])) + "\n" == first + "\n" + (lines[0] + Led(lines[1..]) + "\n");
    }
  }

  lemma {:induction false} TextAppend(a: seq<string>, b: seq<string>)
    ensures Text(a + b) == Text(a) + Text(b)
    decreases |a|
  {
    if |a| == 0 {
      assert a + b == b;
    } else {
      assert (a + b)[1..] == a[1..] + b;
      TextAppend(a[1..], b);
    }
  }

  /** The loop over one range's bytes. */
  method DumpRange(r: Range) returns (out: string)
    ensures out == Led(DataLines(Runs(r.from, r.bytes)))
  {
    out := "";
    var bytes: nat, addr: nat := 0, r.from;
    var i := 0;
    assert r.bytes[0..] == r.bytes;
    while i < |r.bytes|
      invariant i <= |r.bytes| && bytes < PERLINE
      invariant out + Pending(addr, bytes, r.bytes[i..]) == Pending(r.from, 0, r.bytes)
    {
      PendingStep(out, addr, bytes, r.bytes[i..]);
      assert r.bytes[i..][1..] == r.bytes[i + 1..];
      ghost var line, next := Printed(out, addr, bytes, r.bytes[i]), Next(addr, bytes);
      if bytes == 0 {
        out := out + Lead(addr);
      }
      out := out + Cell(r.bytes[i]);
      bytes := bytes + 1;
      if bytes > 29 {
        addr := addr + bytes;
        bytes := 0;
      }
      i := i + 1;
      assert out == line && (addr, bytes) == next;
    }
    PendingRuns(r.from, r.bytes);
  }

  /** The dump: each segment's header and data, then the entry point. */
  method Dump(secs: seq<Section>, start: Option<Entry>) returns (text: string)
    ensures text == Text(ObjectLines(secs, start))
  {
    text := DumpSections(secs);
    if start.Some? {
      text := text + (EntryLine(start.value) + "\n");
    }
    WithEntry(secs, start);
  }

  method DumpSections(secs: seq<Section>) returns (text: string)
    ensures text == Text(SectionsLines(secs))
  {
    text := "";
    var k := 0;
    assert secs[0..] == secs;
    while k < |secs|
      invariant k <= |secs|
      invariant text + Text(SectionsLines(secs[k..])) == Text(SectionsLines(secs))
    {
      var one := DumpSection(secs[k]);
      SectionsStep(text, secs[k..]);
      assert secs[k..][1..] == secs[k + 1..];
      text := text + one;
      k := k + 1;
    }
    assert secs[k..] == [];
    assert text + "" == text;
  }

  lemma {:induction false} WithEntry(secs: seq<Section>, start: Option<Entry>)
    ensures Text(ObjectLines(secs, start))
         == Text(SectionsLines(secs)) + if start.Some? then EntryLine(start.value) + "\n" else ""
  {
    TextAppend(SectionsLines(secs), EntryLines(start));
    if start.Some? {
      assert EntryLines(start)[1..] == [];
      assert EntryLine(start.value) + "\n" + "" == EntryLine(start.value) + "\n";
    }
  }

  lemma {:induction false} SectionsStep(text: string, secs: seq<Section>)
    requires |secs| > 0
    ensures text + Text(SectionsLines(secs)) == text + Text(SectionLines(secs[0])) + Text(SectionsLines(secs[1..]))
  {
    TextAppend(SectionLines(secs[0]), SectionsLines(secs[1..]));
    Regroup(text, Text(SectionLines(secs[0])), Text(SectionsLines(secs[1..])));
  }

  method DumpSection(s: Section) returns (out: string)
    ensures out == Text(SectionLines(s))
  {
    out := Header(s);
    var j := 0;
    assert s.data[0..] == s.data;
    while j < |s.data|
      invariant j <= |s.data|
      invariant out + Led(DataLines(AllRuns(s.data[j..]))) == Header(s) + Led(DataLines(AllRuns(s.data)))
    {
      var one := DumpRange(s.data[j]);
      LedAppend(Runs(s.data[j].from, s.data[j].bytes), AllRuns(s.data[j + 1..]));
      assert s.data[j..][1..] == s.data[j + 1..];
      Regroup(out, one, Led(DataLines(AllRuns(s.data[j + 1..]))));
      out := out + one;
      j := j + 1;
    }
    out := out + "\n";
    LedText(Header(s), DataLines(AllRuns(s.data)));
  }
}
