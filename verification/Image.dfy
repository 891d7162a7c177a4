/** The way of an object image: instructions to ranges, to text, to a parsed
    object, to memory. */
module Image {
  import opened Codec
  import opened Kernel
  import opened Memory
  import opened Ranges
  import opened ObjectText
  import opened ObjectFile

  /** A segment of the assembly, without its bytes. */
  datatype Head = Head(value: nat, length: nat, flags: nat, name: string)

  predicate Sound(h: Head) {
    h.value < P32 && h.flags < P16 && h.length < P64 && Name(h.name)
  }

  predicate AllSound(hs: seq<Head>) {
    forall s :: 0 <= s < |hs| ==> Sound(hs[s])
  }

  function Sections(hs: seq<Head>, d: seq<seq<Range>>): (r: seq<Section>)
    requires |hs| == |d|
    ensures |r| == |hs|
  {
    seq(|hs|, s requires 0 <= s < |hs| => Section(hs[s].value, hs[s].length, hs[s].flags, hs[s].name, d[s]))
  }

  /** Every instruction lies below the length of its segment. */
  predicate Within(src: seq<Insn>, hs: seq<Head>) {
    forall x :: x in src ==> x.seg < |hs| && x.addr + |x.bytes| <= hs[x.seg].length
  }

  // ----- data runs -------------------------------------------------------------------

  predicate RunIn(r: (nat, seq<Byte>), a: nat, b: Byte) {
    r.0 <= a < r.0 + |r.1| && r.1[a - r.0] == b
  }

  ghost predicate RunsHold(runs: seq<(nat, seq<Byte>)>, a: nat, b: Byte) {
    exists r :: r in runs && RunIn(r, a, b)
  }

  lemma {:induction false} HoldAppend(x: seq<(nat, seq<Byte>)>, y: seq<(nat, seq<Byte>)>, a: nat, b: Byte)
    ensures RunsHold(x + y, a, b) <==> RunsHold(x, a, b) || RunsHold(y, a, b)
  {
    assert forall r :: r in x + y <==> r in x || r in y;
  }

  /** Cutting a range into lines loses and invents nothing. */
  lemma {:induction false} RunsExact(addr: nat, bytes: seq<Byte>, a: nat, b: Byte)
    ensures RunsHold(Runs(addr, bytes), a, b) <==> addr <= a < addr + |bytes| && bytes[a - addr] == b
    ensures forall r :: r in Runs(addr, bytes) ==> |r.1| > 0 && addr <= r.0 && r.0 + |r.1| <= addr + |bytes|
    decreases |bytes|
  {
    if |bytes| > PERLINE {
      var rest := Runs(addr + PERLINE, bytes[PERLINE..]);
      RunsExact(addr + PERLINE, bytes[PERLINE..], a, b);
      HoldAppend([(addr, bytes[..PERLINE])], rest, a, b);
      One((addr, bytes[..PERLINE]), a, b);
    } else if |bytes| > 0 {
      One((addr, bytes), a, b);
    }
  }

  lemma {:induction false} One(r: (nat, seq<Byte>), a: nat, b: Byte)
    ensures RunsHold([r], a, b) <==> RunIn(r, a, b)
  {
    assert r in [r];
  }

  lemma {:induction false} AllRunsExact(rs: seq<Range>, a: nat, b: Byte)
    ensures RunsHold(AllRuns(rs), a, b) <==> Holds(rs, a, b)
    decreases |rs|
  {
    if |rs| > 0 {
      RunsExact(rs[0].from, rs[0].bytes, a, b);
      AllRunsExact(rs[1..], a, b);
      HoldAppend(Runs(rs[0].from, rs[0].bytes), AllRuns(rs[1..]), a, b);
      FirstHolds(rs, a, b);
    }
  }

  lemma {:induction false} FirstHolds(rs: seq<Range>, a: nat, b: Byte)
    requires |rs| > 0
    ensures Holds(rs, a, b) <==> In(rs[0], a, b) || Holds(rs[1..], a, b)
  {
    assert forall r :: r in rs <==> r == rs[0] || r in rs[1..];
  }

  lemma {:induction false} AllRunsBounds(rs: seq<Range>, size: nat)
    requires forall r :: r in rs ==> r.from + |r.bytes| <= size
    ensures forall r :: r in AllRuns(rs) ==> |r.1| > 0 && r.0 + |r.1| <= size
    decreases |rs|
  {
    if |rs| > 0 {
      assert rs[0] in rs;
      RunsExact(rs[0].from, rs[0].bytes, 0, 0);
      AllRunsBounds(rs[1..], size);
    }
  }

  /** No two bytes for one address. */
  ghost predicate Single(runs: seq<(nat, seq<Byte>)>) {
    forall a: nat, b: Byte, c: Byte :: RunsHold(runs, a, b) && RunsHold(runs, a, c) ==> b == c
  }

  /** Memory cell `i` after copying runs that hold no two bytes for one address:
      the byte they hold for it, or what it was. */
  lemma {:induction false} OverlayCell(m: seq<Byte>, base: nat, runs: seq<(nat, seq<Byte>)>, a: nat)
    requires RunsFit(runs, |m| - base) && Single(runs) && base + a < |m|
    ensures var v := Overlay(m, base, runs)[base + a];
            && (forall b: Byte :: RunsHold(runs, a, b) ==> v == b)
            && ((forall b: Byte :: !RunsHold(runs, a, b)) ==> v == m[base + a])
    decreases |runs|
  {
    if |runs| > 0 {
      var r, rest := runs[0], runs[1..];
      assert r in runs;
      var m1 := Splice(m, base + r.0, r.1);
      assert runs == [r] + rest;
      forall x: nat, b: Byte
        ensures RunsHold(runs, x, b) <==> RunIn(r, x, b) || RunsHold(rest, x, b)
      {
        HoldAppend([r], rest, x, b);
        One(r, x, b);
      }
      OverlayCell(m1, base, rest, a);
      assert r.0 <= a < r.0 + |r.1| ==> RunIn(r, a, r.1[a - r.0]);
    }
  }

  lemma {:induction false} OnlyOne(rs: seq<Range>, i: nat, j: nat, a: nat)
    requires Tidy(rs) && i < |rs| && j < |rs| && rs[i].from <= a < rs[i].to && rs[j].from <= a < rs[j].to
    ensures i == j
  {
  }

  lemma {:induction false} TidySingle(rs: seq<Range>)
    requires Tidy(rs)
    ensures Single(AllRuns(rs))
  {
    forall a: nat, b: Byte, c: Byte | RunsHold(AllRuns(rs), a, b) && RunsHold(AllRuns(rs), a, c)
      ensures b == c
    {
      AllRunsExact(rs, a, b);
      AllRunsExact(rs, a, c);
      var i :| 0 <= i < |rs| && In(rs[i], a, b);
      var j :| 0 <= j < |rs| && In(rs[j], a, c);
      OnlyOne(rs, i, j, a);
    }
  }

  // ----- the whole way ---------------------------------------------------------------

  ghost predicate Silent(src: seq<Insn>, s: nat, a: nat) {
    forall b: Byte :: !Emits(src, s, a, b)
  }

  /** `m'` is `m` with segment `s` of the program at `base`: at the place of each
      instruction its bytes, everything else as it was. */
  ghost predicate Placed(src: seq<Insn>, s: nat, m: seq<Byte>, base: nat, m': seq<Byte>) {
    && |m'| == |m|
    && (forall a: nat, b: Byte :: base + a < |m| && Emits(src, s, a, b) ==> m'[base + a] == b)
    && (forall i :: 0 <= i < |m| && (i < base || Silent(src, s, i - base)) ==> m'[i] == m[i])
  }

  /** What the dump of a program reads back as. */
  function Written(src: seq<Insn>, hs: seq<Head>, start: Option<Entry>): Option<string>
    requires forall i :: 0 <= i < |src| ==> src[i].seg < |hs|
  {
    match Collected(src, |hs|)
    case None => None
    case Some(d) => Some(Text(ObjectLines(Sections(hs, d), start)))
  }

  function Parse(text: string): Option<Contents> {
    ParseLines(Contents([], 0, 0), Lines(text))
  }

  predicate Narrow(bytes: seq<int>) {
    forall i :: 0 <= i < |bytes| ==> 0 <= bytes[i] < P9
  }

  predicate NineBit(data: seq<(nat, seq<int>)>) {
    forall i :: 0 <= i < |data| ==> Narrow(data[i].1)
  }

  /** A parsed segment as the kernel takes it, once its bytes are nine bits wide. */
  function AsSegment(p: Parsed): ObjSeg
    requires NineBit(p.data)
  {
    ObjSeg(p.value, p.flags, p.size, p.data)
  }

  /** The parsed segment is segment `s` of the program: same number, length, flags
      and name; its data lies inside it and holds exactly the bytes of its
      instructions. */
  ghost predicate Faithful(src: seq<Insn>, s: nat, h: Head, p: Parsed) {
    && p.value == h.value && p.size == h.length && p.flags == h.flags && p.name == h.name
    && NineBit(p.data) && RunsFit(AsSegment(p).data, p.size) && Single(AsSegment(p).data)
    && forall a: nat, b: Byte :: RunsHold(AsSegment(p).data, a, b) <==> Emits(src, s, a, b)
  }

  /** For any non-overlapping instructions of 9-bit bytes, in any order, the object
      file is written, and reading it gives back every segment. */
  lemma {:induction false} TextImage(src: seq<Insn>, hs: seq<Head>, start: Option<Entry>)
    requires Placeable(src, |hs|) && AllSound(hs) && Within(src, hs)
    requires start.Some? ==> start.value.seg < P32 && start.value.addr < P64
    ensures Written(src, hs, start).Some? && Parse(Written(src, hs, start).value).Some?
    ensures var o := Parse(Written(src, hs, start).value).value;
            && |o.segs| == |hs|
            && (start.Some? ==> o.sseg == start.value.seg && o.saddr == start.value.addr)
            && forall s :: 0 <= s < |hs| ==> Faithful(src, s, hs[s], o.segs[s])
  {
    CollectExactly(src, |hs|);
    var d := Collected(src, |hs|).value;
    forall t | 0 <= t < |hs|
      ensures Printable(Sections(hs, d)[t])
    {
      SectionBounds(src, hs, d[t], t);
    }
    TextRoundTrip(Sections(hs, d), start);
    forall s | 0 <= s < |hs|
      ensures Faithful(src, s, hs[s], ReadBack(Sections(hs, d)[s]))
    {
      SectionBounds(src, hs, d[s], s);
      TidySingle(d[s]);
      forall a: nat, b: Byte
        ensures RunsHold(AllRuns(d[s]), a, b) <==> Emits(src, s, a, b)
      {
        AllRunsExact(d[s], a, b);
      }
    }
  }

  /** The whole way: copying the data of a segment read back puts the bytes of each
      of its instructions at the instruction's address and changes nothing else. */
  lemma {:induction false} ImageRoundTrip(src: seq<Insn>, hs: seq<Head>, start: Option<Entry>, s: nat, m: seq<Byte>,
                                          base: nat)
    requires Placeable(src, |hs|) && AllSound(hs) && Within(src, hs)
    requires start.Some? ==> start.value.seg < P32 && start.value.addr < P64
    requires s < |hs| && base + hs[s].length <= |m|
    ensures Written(src, hs, start).Some? && Parse(Written(src, hs, start).value).Some?
    ensures var o := Parse(Written(src, hs, start).value).value;
            && |o.segs| == |hs| && Faithful(src, s, hs[s], o.segs[s])
            && RunsFit(AsSegment(o.segs[s]).data, |m| - base)
            && Placed(src, s, m, base, Overlay(m, base, AsSegment(o.segs[s]).data))
  {
    TextImage(src, hs, start);
    var runs := AsSegment(Parse(Written(src, hs, start).value).value.segs[s]).data;
    OverlayPlaces(src, s, runs, m, base);
  }

  lemma {:induction false} OverlayPlaces(src: seq<Insn>, s: nat, runs: seq<(nat, seq<Byte>)>, m: seq<Byte>, base: nat)
    requires RunsFit(runs, |m| - base) && Single(runs)
    requires forall a: nat, b: Byte :: RunsHold(runs, a, b) <==> Emits(src, s, a, b)
    ensures Placed(src, s, m, base, Overlay(m, base, runs))
  {
    var m' := Overlay(m, base, runs);
    forall a: nat, b: Byte | base + a < |m| && Emits(src, s, a, b)
      ensures m'[base + a] == b
    {
      OverlayCell(m, base, runs, a);
    }
    forall i | base <= i < |m| && Silent(src, s, i - base)
      ensures m'[i] == m[i]
    {
      var a := i - base;
      assert forall b: Byte :: !RunsHold(runs, a, b) by {
        assert forall b: Byte :: !Emits(src, s, a, b);
      }
      OverlayCell(m, base, runs, a);
    }
    OverlayFrame(m, base, runs, |m| - base);
  }

  lemma {:induction false} SectionBounds(src: seq<Insn>, hs: seq<Head>, rs: seq<Range>, s: nat)
    requires Within(src, hs) && s < |hs| && Tidy(rs)
    requires forall a: nat, b: Byte :: Holds(rs, a, b) <==> Emits(src, s, a, b)
    ensures forall r :: r in AllRuns(rs) ==> |r.1| > 0 && r.0 + |r.1| <= hs[s].length
  {
    forall r | r in rs
      ensures r.from + |r.bytes| <= hs[s].length
    {
      var k :| 0 <= k < |rs| && rs[k] == r;
      var a := r.to - 1;
      assert In(r, a, r.bytes[a - r.from]);
      assert Holds(rs, a, r.bytes[a - r.from]);
      assert Emits(src, s, a, r.bytes[a - r.from]);
    }
    AllRunsBounds(rs, hs[s].length);
  }
}
