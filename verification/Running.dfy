/** What a process finds after exec: from a line of the source to the byte behind
    the running process's own descriptor. */
module Running {
  import opened Codec
  import opened Kernel
  import opened KernelInv
  import opened KernelRun
  import opened Memory
  import opened LoadCopy
  import Ranges
  import ObjectText
  import opened Image
  import Layout
  import opened Program
  import opened ExecSpace

  /** A lookup of `segno` succeeds with the flags `flags` and VALID, and byte `a` of
      what it finds is `b`. */
  ghost predicate Finds(r: Sys, m: seq<Byte>, segno: nat, flags: nat, a: nat, b: Byte)
    requires Shape(r)
  {
    var f := Lookup(r, segno).1;
    && f.Found? && f.desc.flags == SetBit(flags, VALID) % P18
    && a < f.desc.len && f.desc.base + a < |m| && m[f.desc.base + a] == b
  }

  /** Byte `a` of segment `s` of the object is `b`, and exec maps that segment: it
      takes memory and no earlier one has its number. */
  ghost predicate Shown(osegs: seq<ObjSeg>, s: nat, a: nat, b: Byte) {
    Copied(osegs, s, a, b) && FirstOfNumber(osegs, s)
  }

  /** Segment `o` of object `ino` is listed with segid `sid`, and its byte `a` is `b`. */
  ghost predicate Placed(k: Sys, m: seq<Byte>, ino: nat, o: ObjSeg, sid: nat, a: nat, b: Byte) {
    && ino in k.loaded && (o.segno, sid) in k.loaded[ino].segs
    && Recorded(k, ino, o, sid) && ByteLoaded(k, m, sid, a, b)
  }

  /** The segments of an object loaded before still hold its data. */
  ghost predicate Held(k: Sys, m: seq<Byte>, ino: nat, osegs: seq<ObjSeg>) {
    forall s: nat, a: nat, b: Byte :: Shown(osegs, s, a, b) ==>
        exists sid: nat :: Placed(k, m, ino, osegs[s], sid, a, b)
  }

  /** A successful exec, from `k` and memory `m` to `r` and memory `m'`, as
      KernelMachine.Machine.Execute leaves them; `p` is the address of the current
      table. The object is loaded afresh, or was loaded before and its segments
      still hold its data. */
  ghost predicate Executed(k: Sys, m: seq<Byte>, ino: nat, osegs: seq<ObjSeg>, r: Sys, m': seq<Byte>, p: nat) {
    && Inv(k) && AllAscend(k) && ino != 0 && ObjOk(osegs) && |m| == k.memSize
    && ExecInside(k, ino, osegs) && Exec(k, ino, osegs) == (r, Done) && Inv(r) && IsTable(r, p)
    && Masked(m', p) == ExecMem(m, k, p, ino, osegs)
    && k.cur.Some? && k.len >= 5
    && if ino in BeforeLoad(k).0.loaded then Held(BeforeLoad(k).0, m, ino, osegs) else DataOk(osegs)
  }

  /** `p` is the address of the current process's area. */
  predicate IsTable(r: Sys, p: nat)
    requires Shape(r)
  {
    && r.cur.Some? && r.cur.value < |r.uareas|
    && var u := r.uareas[r.cur.value]; u < |r.segs| && r.segs[u].base == p
  }

  /** A segment of an object lies clear of the table. */
  lemma {:induction false} OffTable(r: Sys, sid: nat, i: nat, p: nat)
    requires Inv(r) && sid < |r.segs| && sid !in r.uareas && r.segs[sid].size > 0 && IsTable(r, p)
    requires r.segs[sid].base <= i < r.segs[sid].base + r.segs[sid].size
    ensures !(p <= i < p + TABLE)
  {
    var u := r.uareas[r.cur.value];
    assert u in r.uareas;
    SegmentsClear(r, sid, u);
  }

  lemma {:induction false} Unmasked(m: seq<Byte>, m': seq<Byte>, p: nat, i: nat)
    requires Masked(m', p) == Masked(m, p) && i < |m| && !(p <= i < p + TABLE)
    ensures |m'| == |m| && m'[i] == m[i]
  {
    assert |m'| == |Masked(m', p)| == |m|;
    assert m'[i] == Masked(m', p)[i] && m[i] == Masked(m, p)[i];
  }

  lemma {:induction false} SetTwice(n: nat)
    ensures SetBit(SetBit(n, VALID), VALID) == SetBit(n, VALID)
  {
    assert (n + VALID) / VALID == n / VALID + 1;
  }

  /** A load that succeeds, with its effect on memory. */
  ghost predicate LoadDone(m: seq<Byte>, k: Sys, ino: nat, osegs: seq<ObjSeg>, k': Sys, m': seq<Byte>) {
    && Inv(k) && ino != 0 && ObjOk(osegs) && LoadInside(k, ino, osegs) && |m| == k.memSize
    && Load(k, ino, osegs) == (k', Done) && m' == LoadMem(m, k, ino, osegs)
    && if ino in k.loaded then Held(k, m, ino, osegs) else DataOk(osegs)
  }

  lemma {:induction false} PlacedByLoad(m: seq<Byte>, k: Sys, ino: nat, osegs: seq<ObjSeg>, k': Sys, m': seq<Byte>,
                                        s: nat, a: nat, b: Byte) returns (sid: nat)
    requires LoadDone(m, k, ino, osegs, k', m') && Shown(osegs, s, a, b)
    ensures Placed(k', m', ino, osegs[s], sid, a, b)
  {
    if ino in k.loaded {
      sid :| Placed(k, m, ino, osegs[s], sid, a, b);
    } else {
      sid := |k.segs| + Fresh(osegs, s);
      LoopOfLoad(osegs, m, k, ino, k', m');
      HeldInside(osegs[s].data, osegs[s].size, a, b);
      LoadPlaces(m, Registered(k, ino), ino, osegs, s, k', m', osegs[s], sid);
      LoadFiles(m, Registered(k, ino), ino, osegs, s, k', m', osegs[s].segno, sid);
    }
  }

  /** Mapping the segments changes only reference counts. */
  lemma {:induction false} StillPlaced(k: Sys, r: Sys, m: seq<Byte>, ino: nat, o: ObjSeg, sid: nat, a: nat, b: Byte)
    requires Placed(k, m, ino, o, sid, a, b) && SameSegments(k, r) && r.loaded == k.loaded
    ensures Placed(r, m, ino, o, sid, a, b)
  {
    assert r.segs[sid] == k.segs[sid].(refs := r.segs[sid].refs);
  }

  lemma {:induction false} LoadWithin(k: Sys, m: seq<Byte>, ino: nat, osegs: seq<ObjSeg>, r: Sys, m': seq<Byte>,
                                      table: nat)
    returns (k3: Sys, m3: seq<Byte>)
    requires Executed(k, m, ino, osegs, r, m', table)
    ensures k.cur.Some? && k.len >= 5 && LoadDone(m, BeforeLoad(k).0, ino, osegs, k3, m3)
    ensures SameSegments(k3, r) && r.loaded == k3.loaded && IsTable(r, table) && Masked(m', table) == Masked(m3, table)
  {
    BeforeLoadInv(k);
    ExecLoads(k, ino, osegs);
    k3, m3 := Load(BeforeLoad(k).0, ino, osegs).0, LoadMem(m, BeforeLoad(k).0, ino, osegs);
  }

  lemma {:induction false} ReadBack(r: Sys, m: seq<Byte>, m': seq<Byte>, table: nat, ino: nat, o: ObjSeg, sid: nat,
                                    a: nat, b: Byte)
    requires Inv(r) && Placed(r, m, ino, o, sid, a, b) && IsTable(r, table) && Masked(m', table) == Masked(m, table)
    requires Lookup(r, o.segno).1 == Found(Fetch(Mapping(r.segs[sid], sid), o.segno))
    ensures Finds(r, m', o.segno, o.flags, a, b)
  {
    SetTwice(o.flags);
    OffTable(r, sid, r.segs[sid].base + a, table);
    Unmasked(m, m', table, r.segs[sid].base + a);
  }

  predicate Answers(r: Sys, p: (nat, nat))
    requires Shape(r)
  {
    p.1 < |r.segs| && Lookup(r, p.0).1 == Found(Fetch(Mapping(r.segs[p.1], p.1), p.0))
  }

  lemma {:induction false} ByteFromLoad(k: Sys, k3: Sys, r: Sys, m: seq<Byte>, m3: seq<Byte>, m': seq<Byte>,
                                        table: nat, ino: nat, osegs: seq<ObjSeg>, s: nat, a: nat, b: Byte)
    requires LoadDone(m, k, ino, osegs, k3, m3) && SameSegments(k3, r) && r.loaded == k3.loaded && Inv(r)
    requires IsTable(r, table) && Masked(m', table) == Masked(m3, table)
    requires ino in r.loaded && forall p :: p in r.loaded[ino].segs ==> Answers(r, p)
    requires Shown(osegs, s, a, b)
    ensures Finds(r, m', osegs[s].segno, osegs[s].flags, a, b)
  {
    var o := osegs[s];
    var sid := PlacedByLoad(m, k, ino, osegs, k3, m3, s, a, b);
    StillPlaced(k3, r, m3, ino, o, sid, a, b);
    assert Answers(r, (o.segno, sid));
    ReadBack(r, m3, m', table, ino, o, sid, a, b);
  }

  /** Every byte of every segment of the object, as the process finds it. */
  ghost predicate Readable(osegs: seq<ObjSeg>, r: Sys, m': seq<Byte>)
    requires Shape(r)
  {
    forall s: nat, a: nat, b: Byte :: Shown(osegs, s, a, b) ==>
      Finds(r, m', osegs[s].segno, osegs[s].flags, a, b)
  }

  /** After exec the process finds each byte of the object's segments at its offset
      in the segment of that number, unless an earlier segment has the number. */
  lemma {:induction false} BytesAfterExec(k: Sys, m: seq<Byte>, ino: nat, osegs: seq<ObjSeg>, r: Sys, m': seq<Byte>,
                                          table: nat)
    requires Executed(k, m, ino, osegs, r, m', table)
    ensures Readable(osegs, r, m')
  {
    var k3, m3 := LoadWithin(k, m, ino, osegs, r, m', table);
    SegmentsAnswer(k, m, ino, osegs, r, m', table);
    ReadableFromLoad(BeforeLoad(k).0, k3, r, m, m3, m', table, ino, osegs);
  }

  lemma {:induction false} ReadableFromLoad(k: Sys, k3: Sys, r: Sys, m: seq<Byte>, m3: seq<Byte>, m': seq<Byte>,
                                            table: nat, ino: nat, osegs: seq<ObjSeg>)
    requires LoadDone(m, k, ino, osegs, k3, m3) && SameSegments(k3, r) && r.loaded == k3.loaded && Inv(r)
    requires IsTable(r, table) && Masked(m', table) == Masked(m3, table)
    requires ino in r.loaded && forall p :: p in r.loaded[ino].segs ==> Answers(r, p)
    ensures Readable(osegs, r, m')
  {
    forall s: nat, a: nat, b: Byte | Shown(osegs, s, a, b)
      ensures Finds(r, m', osegs[s].segno, osegs[s].flags, a, b)
    {
      ByteFromLoad(k, k3, r, m, m3, m', table, ino, osegs, s, a, b);
    }
  }

  lemma {:induction false} SegmentsAnswer(k: Sys, m: seq<Byte>, ino: nat, osegs: seq<ObjSeg>, r: Sys, m': seq<Byte>,
                                          table: nat)
    requires Executed(k, m, ino, osegs, r, m', table)
    ensures ino in r.loaded && forall p :: p in r.loaded[ino].segs ==> Answers(r, p)
  {
    ExecAddressSpace(k, ino, osegs);
  }

  /** The label of a line denotes its place, and there the process finds its bytes,
      through the descriptor of its segment's number. */
  ghost predicate LineRead(line: Layout.Line, p: Layout.State, at: Layout.Placement, osegs: seq<ObjSeg>, r: Sys,
                           m': seq<Byte>)
    requires at.At? && Layout.Grammatical(line.op) && Shape(r)
  {
    && at.seg < |osegs| && Layout.Output(line.op, at).Some?
    && (line.tag.Named? ==> line.tag.name in p.syms && p.syms[line.tag.name] == (at.seg, at.addr))
    && (FirstOfNumber(osegs, at.seg) ==>
          var bytes := Layout.Output(line.op, at).value;
          forall x :: 0 <= x < |bytes| ==> Finds(r, m', osegs[at.seg].segno, osegs[at.seg].flags, at.addr + x,
              bytes[x]))
  }

  lemma {:induction false} LineFromBytes(lines: seq<Layout.Line>, hs: seq<Head>, p: Layout.State,
                                         src: seq<Ranges.Insn>, osegs: seq<ObjSeg>, r: Sys, m': seq<Byte>, i: nat)
    requires Assembled(lines, hs, p, src) && |osegs| == |hs| && Shape(r) && Readable(osegs, r, m')
    requires forall s: nat, a: nat, b: Byte :: s < |hs| && Ranges.Emits(src, s, a, b) ==> Copied(osegs, s, a, b)
    requires i < |lines| && p.placed[i].At?
    ensures LineRead(lines[i], p, p.placed[i], osegs, r, m')
  {
    LineEmits(lines, hs, p, src, i);
    var at, bytes := p.placed[i], Layout.Output(lines[i].op, p.placed[i]).value;
    if FirstOfNumber(osegs, at.seg) {
      forall x | 0 <= x < |bytes|
        ensures Finds(r, m', osegs[at.seg].segno, osegs[at.seg].flags, at.addr + x, bytes[x])
      {
        assert Ranges.Emits(src, at.seg, at.addr + x, bytes[x]);
      }
    }
  }

  /** From source to process: assembled, dumped, parsed, loaded and mapped by exec,
      each line's bytes are what the process finds at the address its label denotes. */
  lemma {:induction false} LineAfterExec(lines: seq<Layout.Line>, hs: seq<Head>, start: Option<ObjectText.Entry>,
                                         p: Layout.State, src: seq<Ranges.Insn>, osegs: seq<ObjSeg>, m: seq<Byte>,
                                         k: Sys, ino: nat, r: Sys, m': seq<Byte>, table: nat, i: nat)
    requires Assembled(lines, hs, p, src) && Programmed(src, hs, start) && ObjectOf(src, hs, start, osegs)
    requires Executed(k, m, ino, osegs, r, m', table)
    requires i < |lines| && p.placed[i].At?
    ensures LineRead(lines[i], p, p.placed[i], osegs, r, m')
    ensures |osegs| == |hs| && osegs[p.placed[i].seg].segno == hs[p.placed[i].seg].value
  {
    ProgramObject(src, hs, start, osegs);
    EmittedCopied(src, hs, start, osegs);
    BytesAfterExec(k, m, ino, osegs, r, m', table);
    LineFromBytes(lines, hs, p, src, osegs, r, m', i);
  }
}
