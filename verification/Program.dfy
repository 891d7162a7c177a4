/** From source program to running memory: what an assembled and loaded program
    finds in its segments. */
module Program {
  import opened Codec
  import opened Heap
  import opened Kernel
  import opened KernelInv
  import opened KernelRun
  import Isolation
  import opened Memory
  import opened LoadCopy
  import Ranges
  import ObjectText
  import ObjectFile
  import opened Image
  import Layout
  import Passes

  /** How many of the first `j` segments of an object take memory. */
  function Fresh(osegs: seq<ObjSeg>, j: nat): nat
    requires j <= |osegs|
  {
    if j == 0 then 0 else (if osegs[0].size > 0 then 1 else 0) + Fresh(osegs[1..], j - 1)
  }

  /** One round of the allocation loop that succeeds. */
  lemma {:induction false} RoundSegment(m: seq<Byte>, k: Sys, ino: nat, o: ObjSeg)
    requires Inv(k) && ino in k.loaded && o.size > 0 && SizeOk(o.size) && RunsFit(o.data, o.size) && |m| == k.memSize
    requires LoadSeg(k, ino, o).1 == Done
    ensures CopyInside(k, ino, o)
    ensures var k1 := LoadSeg(k, ino, o).0;
            && |k1.segs| == |k.segs| + 1 && k1.segs[..|k.segs|] == k.segs
            && k1.segs[|k.segs|].size == o.size && k1.segs[|k.segs|].ino == ino
            && k1.segs[|k.segs|].flags == SetBit(o.flags, VALID)
            && var b := k1.segs[|k.segs|].base;
               && RunsFit(o.data, |m| - b) && SegBytes(m, k, ino, o) == Overlay(m, b, o.data)
               && OnlyAt(m, SegBytes(m, k, ino, o), b, o.size)
  {
    LoadSegInv(k, ino, o);
    var k1 := LoadSeg(k, ino, o).0;
    SegmentInside(k1, |k.segs|);
    OverlayFrame(m, k1.segs[|k.segs|].base, o.data, o.size);
  }

  lemma {:induction false} Emplaced(m: seq<(nat, nat)>, key: nat, sid: nat)
    ensures forall p :: p in m ==> p in Emplace(m, key, sid)
    ensures (forall p :: p in m ==> p.0 != key) ==> (key, sid) in Emplace(m, key, sid)
    ensures forall p :: p in Emplace(m, key, sid) ==> p in m || p.0 == key
    decreases |m|
  {
    if |m| > 0 && key >= m[0].0 && m[0].0 != key {
      assert forall p :: p in m <==> p == m[0] || p in m[1..];
      Emplaced(m[1..], key, sid);
    }
  }

  lemma {:induction false} SegmentsClear(k: Sys, s: nat, t: nat)
    requires Inv(k) && s < |k.segs| && t < |k.segs| && s != t && k.segs[s].size > 0 && k.segs[t].size > 0
    ensures k.segs[s].base + k.segs[s].size <= k.segs[t].base || k.segs[t].base + k.segs[t].size <= k.segs[s].base
  {
    Isolation.SegmentsApart(k, s, t);
    assert SegOk(k.heap, k.segs[s]) && SegOk(k.heap, k.segs[t]);
    PagesCover(k.segs[s].size);
    PagesCover(k.segs[t].size);
  }

  /** Segment `o` of the object of inode `ino` is segid `sid`. */
  predicate Recorded(k: Sys, ino: nat, o: ObjSeg, sid: nat) {
    && sid < |k.segs| && k.segs[sid].size == o.size && k.segs[sid].ino == ino
    && k.segs[sid].flags == SetBit(o.flags, VALID)
  }

  /** Byte `a` of segid `sid` is `b`. */
  predicate ByteLoaded(k: Sys, m: seq<Byte>, sid: nat, a: nat, b: Byte) {
    && sid < |k.segs| && a < k.segs[sid].size
    && k.segs[sid].base + a < |m| && m[k.segs[sid].base + a] == b
  }

  ghost predicate RunsLoaded(k: Sys, m: seq<Byte>, sid: nat, runs: seq<(nat, seq<Byte>)>) {
    forall a: nat, b: Byte :: RunsHold(runs, a, b) ==> ByteLoaded(k, m, sid, a, b)
  }

  /** The allocation loop of load ran to its end, giving `k'` and memory `m'`. */
  ghost predicate LoopDone(m: seq<Byte>, k: Sys, ino: nat, osegs: seq<ObjSeg>, k': Sys, m': seq<Byte>) {
    && Inv(k) && ino in k.loaded && ObjOk(osegs) && DataOk(osegs) && CopiesInside(k, ino, osegs) && |m| == k.memSize
    && LoadSegs(k, ino, osegs) == (k', Done) && m' == LoadBytes(m, k, ino, osegs)
  }

  lemma {:induction false} LoadStep(m: seq<Byte>, k: Sys, ino: nat, osegs: seq<ObjSeg>, k': Sys, m': seq<Byte>)
    requires LoopDone(m, k, ino, osegs, k', m') && |osegs| > 0
    ensures LoadSeg(k, ino, osegs[0]).1 == Done
    ensures LoopDone(SegBytes(m, k, ino, osegs[0]), LoadSeg(k, ino, osegs[0]).0, ino, osegs[1..], k', m')
  {
    LoadSegInv(k, ino, osegs[0]);
  }

  /** The loop leaves the memory of segments that were there before alone. */
  lemma {:induction false} LoadKeeps(m: seq<Byte>, k: Sys, ino: nat, osegs: seq<ObjSeg>, sid: nat, i: nat, k': Sys,
                                     m': seq<Byte>)
    requires LoopDone(m, k, ino, osegs, k', m')
    requires sid < |k.segs| && k.segs[sid].size > 0 && k.segs[sid].base <= i < k.segs[sid].base + k.segs[sid].size
    ensures sid < |k'.segs| && k'.segs[sid] == k.segs[sid]
    ensures i < |m| == |m'| && m'[i] == m[i]
    decreases |osegs|
  {
    SegmentInside(k, sid);
    if |osegs| > 0 {
      var o := osegs[0];
      LoadStep(m, k, ino, osegs, k', m');
      var k1 := LoadSeg(k, ino, o).0;
      if o.size > 0 {
        RoundSegment(m, k, ino, o);
        assert k1.segs[sid] == k1.segs[..|k.segs|][sid];
        SegmentsClear(k1, sid, |k.segs|);
      }
      LoadKeeps(SegBytes(m, k, ino, o), k1, ino, osegs[1..], sid, i, k', m');
    }
  }

  /** After a load that did not run out of memory, the `j`th segment of the object
      has a segid of its own, and the bytes of its data runs lie at their offsets
      from its base. */
  lemma {:induction false} LoadPlaces(m: seq<Byte>, k: Sys, ino: nat, osegs: seq<ObjSeg>, j: nat, k': Sys,
                                      m': seq<Byte>, o: ObjSeg, sid: nat)
    requires LoopDone(m, k, ino, osegs, k', m') && j < |osegs| && o == osegs[j] && sid == |k.segs| + Fresh(osegs, j)
    requires o.size > 0 && Single(o.data)
    ensures Recorded(k', ino, o, sid)
    ensures RunsLoaded(k', m', sid, o.data)
    decreases |osegs|
  {
    if j > 0 {
      var k1, m1, rest := Continue(m, k, ino, osegs, j, k', m');
      LoadPlaces(m1, k1, ino, rest, j - 1, k', m', o, sid);
    } else {
      LoadFirst(m, k, ino, osegs, k', m');
    }
  }

  lemma {:induction false} Continue(m: seq<Byte>, k: Sys, ino: nat, osegs: seq<ObjSeg>, j: nat, k': Sys, m': seq<Byte>)
    returns (k1: Sys, m1: seq<Byte>, rest: seq<ObjSeg>)
    requires LoopDone(m, k, ino, osegs, k', m') && 0 < j < |osegs|
    ensures LoopDone(m1, k1, ino, rest, k', m') && |rest| < |osegs|
    ensures j - 1 < |rest| && rest[j - 1] == osegs[j] && |k1.segs| + Fresh(rest, j - 1) == |k.segs| + Fresh(osegs, j)
  {
    rest := osegs[1..];
    LoadStep(m, k, ino, osegs, k', m');
    FreshStep(k, ino, osegs, j);
    k1, m1 := LoadSeg(k, ino, osegs[0]).0, SegBytes(m, k, ino, osegs[0]);
  }

  /** One round takes a segid exactly when the segment takes memory. */
  lemma {:induction false} FreshStep(k: Sys, ino: nat, osegs: seq<ObjSeg>, j: nat)
    requires Shape(k) && ino in k.loaded && ObjOk(osegs)
    requires 0 < j < |osegs| && LoadSeg(k, ino, osegs[0]).1 == Done
    ensures |LoadSeg(k, ino, osegs[0]).0.segs| + Fresh(osegs[1..], j - 1) == |k.segs| + Fresh(osegs, j)
  {
    Filed(k, ino, osegs[0]);
  }

  lemma {:induction false} LoadFirst(m: seq<Byte>, k: Sys, ino: nat, osegs: seq<ObjSeg>, k': Sys, m': seq<Byte>)
    requires LoopDone(m, k, ino, osegs, k', m') && |osegs| > 0 && osegs[0].size > 0 && Single(osegs[0].data)
    ensures Recorded(k', ino, osegs[0], |k.segs|)
    ensures RunsLoaded(k', m', |k.segs|, osegs[0].data)
  {
    var o, n := osegs[0], |k.segs|;
    LoadStep(m, k, ino, osegs, k', m');
    RoundSegment(m, k, ino, o);
    var k1, m1 := LoadSeg(k, ino, o).0, SegBytes(m, k, ino, o);
    var base := k1.segs[n].base;
    LoadKeeps(m1, k1, ino, osegs[1..], n, base, k', m');
    SegmentInside(k1, n);
    forall a: nat, b: Byte | RunsHold(o.data, a, b)
      ensures ByteLoaded(k', m', n, a, b)
    {
      HeldInside(o.data, o.size, a, b);
      OverlayCell(m, base, o.data, a);
      LoadKeeps(m1, k1, ino, osegs[1..], n, base + a, k', m');
    }
  }

  /** No earlier segment of the object that takes memory has the number of the
      `j`th. */
  predicate FirstOfNumber(osegs: seq<ObjSeg>, j: nat)
    requires j < |osegs|
  {
    forall i :: 0 <= i < j && osegs[i].size > 0 ==> osegs[i].segno != osegs[j].segno
  }

  /** That segid is filed under the segment's number, unless the number was taken
      before: then the first segment of that number keeps it. */
  lemma {:induction false} LoadFiles(m: seq<Byte>, k: Sys, ino: nat, osegs: seq<ObjSeg>, j: nat, k': Sys,
                                     m': seq<Byte>, segno: nat, sid: nat)
    requires LoopDone(m, k, ino, osegs, k', m') && j < |osegs| && osegs[j].size > 0
    requires segno == osegs[j].segno && sid == |k.segs| + Fresh(osegs, j)
    requires FirstOfNumber(osegs, j) && forall p :: p in k.loaded[ino].segs ==> p.0 != segno
    ensures ino in k'.loaded && (segno, sid) in k'.loaded[ino].segs
    decreases |osegs|
  {
    if j > 0 {
      var k1, m1 := FilesFree(m, k, ino, osegs, j, k', m');
      RestFirst(osegs, j);
      LoadFiles(m1, k1, ino, osegs[1..], j - 1, k', m', segno, sid);
    } else {
      FilesFirst(m, k, ino, osegs, k', m');
    }
  }

  lemma {:induction false} FilesFirst(m: seq<Byte>, k: Sys, ino: nat, osegs: seq<ObjSeg>, k': Sys, m': seq<Byte>)
    requires LoopDone(m, k, ino, osegs, k', m') && |osegs| > 0 && osegs[0].size > 0
    requires forall p :: p in k.loaded[ino].segs ==> p.0 != osegs[0].segno
    ensures ino in k'.loaded && (osegs[0].segno, |k.segs|) in k'.loaded[ino].segs
  {
    LoadStep(m, k, ino, osegs, k', m');
    Filed(k, ino, osegs[0]);
    FilesStay(SegBytes(m, k, ino, osegs[0]), LoadSeg(k, ino, osegs[0]).0, ino, osegs[1..], k', m');
  }

  /** A round for another number leaves the number free. */
  lemma {:induction false} FilesFree(m: seq<Byte>, k: Sys, ino: nat, osegs: seq<ObjSeg>, j: nat, k': Sys, m': seq<Byte>)
    returns (k1: Sys, m1: seq<Byte>)
    requires LoopDone(m, k, ino, osegs, k', m') && 0 < j < |osegs|
    requires FirstOfNumber(osegs, j) && forall p :: p in k.loaded[ino].segs ==> p.0 != osegs[j].segno
    ensures LoopDone(m1, k1, ino, osegs[1..], k', m')
    ensures |k1.segs| + Fresh(osegs[1..], j - 1) == |k.segs| + Fresh(osegs, j) && osegs[1..][j - 1] == osegs[j]
    ensures forall p :: p in k1.loaded[ino].segs ==> p.0 != osegs[j].segno
  {
    LoadStep(m, k, ino, osegs, k', m');
    Filed(k, ino, osegs[0]);
    k1, m1 := LoadSeg(k, ino, osegs[0]).0, SegBytes(m, k, ino, osegs[0]);
  }

  lemma {:induction false} RestFirst(osegs: seq<ObjSeg>, j: nat)
    requires 0 < j < |osegs| && FirstOfNumber(osegs, j)
    ensures FirstOfNumber(osegs[1..], j - 1)
  {
    assert forall i :: 0 <= i < |osegs| - 1 ==> osegs[1..][i] == osegs[i + 1];
  }

  lemma {:induction false} Filed(k: Sys, ino: nat, o: ObjSeg)
    requires Shape(k) && ino in k.loaded && (o.size > 0 ==> SizeOk(o.size)) && LoadSeg(k, ino, o).1 == Done
    ensures var k1 := LoadSeg(k, ino, o).0;
            var was, now := k.loaded[ino].segs, k1.loaded[ino].segs;
            && |k1.segs| == |k.segs| + (if o.size > 0 then 1 else 0)
            && (forall p :: p in was ==> p in now)
            && (forall p :: p in now ==> p in was || (o.size > 0 && p.0 == o.segno))
            && (o.size > 0 && (forall p :: p in was ==> p.0 != o.segno) ==> (o.segno, |k.segs|) in now)
  {
    Emplaced(k.loaded[ino].segs, o.segno, |k.segs|);
  }

  lemma {:induction false} FilesStay(m: seq<Byte>, k: Sys, ino: nat, osegs: seq<ObjSeg>, k': Sys, m': seq<Byte>)
    requires LoopDone(m, k, ino, osegs, k', m')
    ensures ino in k'.loaded && forall p :: p in k.loaded[ino].segs ==> p in k'.loaded[ino].segs
    decreases |osegs|
  {
    if |osegs| > 0 {
      LoadStep(m, k, ino, osegs, k', m');
      Filed(k, ino, osegs[0]);
      FilesStay(SegBytes(m, k, ino, osegs[0]), LoadSeg(k, ino, osegs[0]).0, ino, osegs[1..], k', m');
    }
  }

  lemma {:induction false} HeldInside(runs: seq<(nat, seq<Byte>)>, size: nat, a: nat, b: Byte)
    requires RunsFit(runs, size) && RunsHold(runs, a, b)
    ensures a < size
  {
    var r :| r in runs && RunIn(r, a, b);
  }

  // ----- a program -------------------------------------------------------------------

  predicate AllNineBit(ps: seq<ObjectFile.Parsed>) {
    forall i :: 0 <= i < |ps| ==> NineBit(ps[i].data)
  }

  function AsSegments(ps: seq<ObjectFile.Parsed>): (r: seq<ObjSeg>)
    requires AllNineBit(ps)
    ensures |r| == |ps| && forall i :: 0 <= i < |ps| ==> r[i] == AsSegment(ps[i])
  {
    seq(|ps|, i requires 0 <= i < |ps| => AsSegment(ps[i]))
  }

  predicate Programmed(src: seq<Ranges.Insn>, hs: seq<Head>, start: Option<ObjectText.Entry>) {
    && Ranges.Placeable(src, |hs|) && AllSound(hs) && Within(src, hs)
    && (forall s :: 0 <= s < |hs| && hs[s].length > 0 ==> SizeOk(hs[s].length))
    && (start.Some? ==> start.value.seg < P32 && start.value.addr < P64)
  }

  /** `osegs` is what the loader makes of the program's object file. */
  ghost predicate ObjectOf(src: seq<Ranges.Insn>, hs: seq<Head>, start: Option<ObjectText.Entry>, osegs: seq<ObjSeg>)
    requires Programmed(src, hs, start)
  {
    var text := Written(src, hs, start);
    && text.Some? && Parse(text.value).Some? && AllNineBit(Parse(text.value).value.segs)
    && osegs == AsSegments(Parse(text.value).value.segs)
  }

  /** Every program has an object file. */
  lemma {:induction false} ProgramLoadable(src: seq<Ranges.Insn>, hs: seq<Head>,
                                           start: Option<ObjectText.Entry>) returns (osegs: seq<ObjSeg>)
    requires Programmed(src, hs, start)
    ensures ObjectOf(src, hs, start, osegs)
  {
    TextImage(src, hs, start);
    var ps := Parse(Written(src, hs, start).value).value.segs;
    assert forall s :: 0 <= s < |hs| ==> Faithful(src, s, hs[s], ps[s]);
    osegs := AsSegments(ps);
  }

  /** ... and the kernel can load it: sizes and data are in order, and the data is
      that of the instructions. */
  lemma {:induction false} ProgramObject(src: seq<Ranges.Insn>, hs: seq<Head>, start: Option<ObjectText.Entry>,
                                         osegs: seq<ObjSeg>)
    requires Programmed(src, hs, start) && ObjectOf(src, hs, start, osegs)
    ensures |osegs| == |hs| && ObjOk(osegs) && DataOk(osegs)
    ensures forall s :: 0 <= s < |hs| ==>
              osegs[s].segno == hs[s].value && osegs[s].size == hs[s].length && Single(osegs[s].data)
    ensures forall s: nat, a: nat, b: Byte :: s < |hs| ==>
            (RunsHold(osegs[s].data, a, b) <==> Ranges.Emits(src, s, a, b))
    ensures forall s :: 0 <= s < |hs| ==> RunsFit(osegs[s].data, osegs[s].size)
  {
    TextImage(src, hs, start);
    var ps := Parse(Written(src, hs, start).value).value.segs;
    assert forall s :: 0 <= s < |hs| ==> Faithful(src, s, hs[s], ps[s]) && osegs[s] == AsSegment(ps[s]);
  }

  /** Every byte of every instruction lies at its address within the memory of its
      segment, the segids of the object being those from `first` on. */
  ghost predicate ProgramLoaded(src: seq<Ranges.Insn>, osegs: seq<ObjSeg>, k': Sys, m': seq<Byte>, first: nat) {
    forall s: nat, a: nat, b: Byte :: s < |osegs| && Ranges.Emits(src, s, a, b) ==>
      ByteLoaded(k', m', first + Fresh(osegs, s), a, b)
  }

  /** A program assembled, dumped, read and loaded, all in one: every byte of every
      instruction lies at its address within its segment's memory. */
  lemma {:induction false} ProgramInMemory(src: seq<Ranges.Insn>, hs: seq<Head>, start: Option<ObjectText.Entry>,
                                           osegs: seq<ObjSeg>, m: seq<Byte>, k: Sys, ino: nat, k': Sys, m': seq<Byte>)
    requires Programmed(src, hs, start) && ObjectOf(src, hs, start, osegs) && ObjOk(osegs) && DataOk(osegs)
    requires Inv(k) && ino != 0 && ino !in k.loaded && |m| == k.memSize
    requires LoadInside(k, ino, osegs) && Load(k, ino, osegs) == (k', Done) && m' == LoadMem(m, k, ino, osegs)
    ensures |osegs| == |hs| && ProgramLoaded(src, osegs, k', m', |k.segs|)
  {
    ProgramObject(src, hs, start, osegs);
    AllInMemory(osegs, m, k, ino, k', m');
    EmittedCopied(src, hs, start, osegs);
  }

  /** Byte `a` of segment `s` of the object is `b`, and the segment takes memory. */
  ghost predicate Copied(osegs: seq<ObjSeg>, s: nat, a: nat, b: Byte) {
    s < |osegs| && osegs[s].size > 0 && Single(osegs[s].data) && RunsHold(osegs[s].data, a, b)
  }

  /** Every byte a program emits is copied: its segment takes memory. */
  lemma {:induction false} EmittedCopied(src: seq<Ranges.Insn>, hs: seq<Head>, start: Option<ObjectText.Entry>,
                                         osegs: seq<ObjSeg>)
    requires Programmed(src, hs, start) && ObjectOf(src, hs, start, osegs)
    ensures |osegs| == |hs|
    ensures forall s: nat, a: nat, b: Byte :: s < |osegs| && Ranges.Emits(src, s, a, b) ==> Copied(osegs, s, a, b)
  {
    ProgramObject(src, hs, start, osegs);
    forall s: nat, a: nat, b: Byte | s < |osegs| && Ranges.Emits(src, s, a, b)
      ensures Copied(osegs, s, a, b)
    {
      HeldInside(osegs[s].data, osegs[s].size, a, b);
    }
  }

  ghost predicate AllLoaded(osegs: seq<ObjSeg>, k': Sys, m': seq<Byte>, first: nat) {
    forall s: nat, a: nat, b: Byte :: Copied(osegs, s, a, b) ==>
      ByteLoaded(k', m', first + Fresh(osegs, s), a, b)
  }

  lemma {:induction false} AllInMemory(osegs: seq<ObjSeg>, m: seq<Byte>, k: Sys, ino: nat, k': Sys, m': seq<Byte>)
    requires Inv(k) && ino != 0 && ino !in k.loaded && |m| == k.memSize && ObjOk(osegs) && DataOk(osegs)
    requires LoadInside(k, ino, osegs) && Load(k, ino, osegs) == (k', Done) && m' == LoadMem(m, k, ino, osegs)
    ensures AllLoaded(osegs, k', m', |k.segs|)
  {
    forall s: nat, a: nat, b: Byte | Copied(osegs, s, a, b)
      ensures ByteLoaded(k', m', |k.segs| + Fresh(osegs, s), a, b)
    {
      RunInMemory(osegs, s, m, k, ino, k', m', a, b);
    }
  }

  lemma {:induction false} RunInMemory(osegs: seq<ObjSeg>, s: nat, m: seq<Byte>, k: Sys, ino: nat, k': Sys,
                                       m': seq<Byte>, a: nat, b: Byte)
    requires Inv(k) && ino != 0 && ino !in k.loaded && |m| == k.memSize && ObjOk(osegs) && DataOk(osegs)
    requires LoadInside(k, ino, osegs) && Load(k, ino, osegs) == (k', Done) && m' == LoadMem(m, k, ino, osegs)
    requires Copied(osegs, s, a, b)
    ensures ByteLoaded(k', m', |k.segs| + Fresh(osegs, s), a, b)
  {
    HeldInside(osegs[s].data, osegs[s].size, a, b);
    var k0 := Registered(k, ino);
    LoopOfLoad(osegs, m, k, ino, k', m');
    LoadPlaces(m, k0, ino, osegs, s, k', m', osegs[s], |k.segs| + Fresh(osegs, s));
  }

  lemma {:induction false} LoopOfLoad(osegs: seq<ObjSeg>, m: seq<Byte>, k: Sys, ino: nat, k': Sys, m': seq<Byte>)
    requires Inv(k) && ino != 0 && ino !in k.loaded && |m| == k.memSize && ObjOk(osegs) && DataOk(osegs)
    requires LoadInside(k, ino, osegs) && Load(k, ino, osegs) == (k', Done) && m' == LoadMem(m, k, ino, osegs)
    ensures LoopDone(m, Registered(k, ino), ino, osegs, k', m')
  {
    RegisteredInv(k, ino);
  }

  // ----- from source lines -----------------------------------------------------------

  /** The lines went through both passes without a clash, and `hs` are the segments
      they left. */
  ghost predicate Assembled(lines: seq<Layout.Line>, hs: seq<Head>, p: Layout.State, src: seq<Ranges.Insn>) {
    && Layout.Source(lines) && Layout.Pass1(lines) == Some(p)
    && |p.placed| == |lines| && Passes.NoClash(lines, p.placed) && Layout.Pass2(lines, p.placed) == Some(src)
    && |hs| == |p.segs| && AllSound(hs)
    && forall s :: 0 <= s < |hs| ==> hs[s].length == p.segs[s].length && (hs[s].length > 0 ==> SizeOk(hs[s].length))
  }

  /** Such a program meets every condition of the image pipeline and of load. */
  lemma {:induction false} AssembledIsProgram(lines: seq<Layout.Line>, hs: seq<Head>, start: Option<ObjectText.Entry>,
                                              p: Layout.State, src: seq<Ranges.Insn>)
    requires Assembled(lines, hs, p, src)
    requires start.Some? ==> start.value.seg < P32 && start.value.addr < P64
    ensures Programmed(src, hs, start)
  {
    Passes.AssemblyLaysOut(lines);
  }

  /** Line `i` of the source, once the program is loaded: its bytes are in memory at
      the address its label denotes. */
  lemma {:induction false} LineInMemory(lines: seq<Layout.Line>, hs: seq<Head>, start: Option<ObjectText.Entry>,
                                        p: Layout.State, src: seq<Ranges.Insn>, osegs: seq<ObjSeg>, m: seq<Byte>,
                                        k: Sys, ino: nat, k': Sys, m': seq<Byte>, i: nat)
    requires Assembled(lines, hs, p, src) && Programmed(src, hs, start) && ObjectOf(src, hs, start, osegs)
    requires ObjOk(osegs) && DataOk(osegs) && Inv(k) && ino != 0 && ino !in k.loaded && |m| == k.memSize
    requires LoadInside(k, ino, osegs) && Load(k, ino, osegs) == (k', Done) && m' == LoadMem(m, k, ino, osegs)
    requires i < |lines| && p.placed[i].At?
    ensures LineLoaded(lines[i], p, p.placed[i], osegs, k', m', |k.segs|)
  {
    ProgramInMemory(src, hs, start, osegs, m, k, ino, k', m');
    LineOfProgram(lines, hs, p, src, osegs, k', m', |k.segs|, i);
  }

  lemma {:induction false} LineOfProgram(lines: seq<Layout.Line>, hs: seq<Head>, p: Layout.State,
                                         src: seq<Ranges.Insn>, osegs: seq<ObjSeg>, k': Sys, m': seq<Byte>, first: nat,
                                         i: nat)
    requires Assembled(lines, hs, p, src) && |osegs| == |hs| && ProgramLoaded(src, osegs, k', m', first)
    requires i < |lines| && p.placed[i].At?
    ensures LineLoaded(lines[i], p, p.placed[i], osegs, k', m', first)
  {
    LineEmits(lines, hs, p, src, i);
    var at, bytes := p.placed[i], Layout.Output(lines[i].op, p.placed[i]).value;
    forall x | 0 <= x < |bytes|
      ensures ByteLoaded(k', m', first + Fresh(osegs, at.seg), at.addr + x, bytes[x])
    {
      assert Ranges.Emits(src, at.seg, at.addr + x, bytes[x]);
    }
  }

  /** The bytes of a line lie at its address, and its label denotes that address. */
  ghost predicate LineLoaded(line: Layout.Line, p: Layout.State, at: Layout.Placement, osegs: seq<ObjSeg>, k': Sys,
                             m': seq<Byte>, first: nat)
    requires at.At? && Layout.Grammatical(line.op)
  {
    && at.seg < |osegs| && Layout.Output(line.op, at).Some?
    && (line.tag.Named? ==> line.tag.name in p.syms && p.syms[line.tag.name] == (at.seg, at.addr))
    && var bytes := Layout.Output(line.op, at).value;
       forall x :: 0 <= x < |bytes| ==> ByteLoaded(k', m', first + Fresh(osegs, at.seg), at.addr + x, bytes[x])
  }

  lemma {:induction false} LineEmits(lines: seq<Layout.Line>, hs: seq<Head>, p: Layout.State, src: seq<Ranges.Insn>,
                                     i: nat)
    requires Assembled(lines, hs, p, src)
    requires i < |lines| && p.placed[i].At?
    ensures Layout.Output(lines[i].op, p.placed[i]).Some? && p.placed[i].seg < |p.segs|
    ensures lines[i].tag.Named? ==>
              lines[i].tag.name in p.syms && p.syms[lines[i].tag.name] == (p.placed[i].seg, p.placed[i].addr)
    ensures var at, bytes := p.placed[i], Layout.Output(lines[i].op, p.placed[i]).value;
            forall x :: 0 <= x < |bytes| ==> Ranges.Emits(src, at.seg, at.addr + x, bytes[x])
  {
    Passes.AssemblyLaysOut(lines);
    assert Passes.LabelOk(lines[i], p.placed[i], p);
    assert Passes.Lies(p, p.placed[i], Layout.Length(lines[i].op), Layout.Aligns(lines[i].op));
    var at, bytes := p.placed[i], Layout.Output(lines[i].op, p.placed[i]).value;
    var insn := Ranges.Insn(at.seg, at.addr, bytes);
    forall x | 0 <= x < |bytes|
      ensures Ranges.Emits(src, at.seg, at.addr + x, bytes[x])
    {
      InsnEmits(src, insn, x);
    }
  }

  lemma {:induction false} InsnEmits(src: seq<Ranges.Insn>, insn: Ranges.Insn, x: nat)
    requires insn in src && x < |insn.bytes|
    ensures Ranges.Emits(src, insn.seg, insn.addr + x, insn.bytes[x])
  {
    assert Ranges.In(Ranges.RangeOf(insn), insn.addr + x, insn.bytes[x]);
  }
}
