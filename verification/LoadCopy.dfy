/** The copying loop of load in memory. The loop compares a data run with nothing:
    what it can overwrite, and what it cannot. */
module LoadCopy {
  import opened Codec
  import opened Heap
  import opened Kernel
  import opened KernelInv
  import opened KernelRun
  import opened Memory

  /** Every data run of an object lies within its segment's declared size. */
  predicate DataOk(osegs: seq<ObjSeg>) {
    forall i :: 0 <= i < |osegs| && osegs[i].size > 0 ==> RunsFit(osegs[i].data, osegs[i].size)
  }

  /** Memory after one round of the allocation loop. */
  ghost function SegBytes(m: seq<Byte>, k: Sys, ino: nat, o: ObjSeg): (r: seq<Byte>)
    requires Shape(k) && ino in k.loaded && (o.size > 0 ==> SizeOk(o.size)) && CopyInside(k, ino, o)
    requires |m| == k.memSize
    ensures |r| == |m|
  {
    if o.size == 0 || LoadSeg(k, ino, o).1 != Done then m
    else Overlay(m, LoadSeg(k, ino, o).0.segs[|k.segs|].base, o.data)
  }

  /** Memory after the allocation loop: each new segment's runs are laid at their
      offsets from its base. */
  ghost function LoadBytes(m: seq<Byte>, k: Sys, ino: nat, osegs: seq<ObjSeg>): (r: seq<Byte>)
    requires Shape(k) && ino in k.loaded && ObjOk(osegs) && CopiesInside(k, ino, osegs) && |m| == k.memSize
    ensures |r| == |m|
    decreases |osegs|
  {
    if |osegs| == 0 then m
    else
      var (k1, err) := LoadSeg(k, ino, osegs[0]);
      var m1 := SegBytes(m, k, ino, osegs[0]);
      if err != Done then m1 else LoadBytes(m1, k1, ino, osegs[1..])
  }

  ghost function LoadMem(m: seq<Byte>, k: Sys, ino: nat, osegs: seq<ObjSeg>): (r: seq<Byte>)
    requires Shape(k) && ObjOk(osegs) && LoadInside(k, ino, osegs) && |m| == k.memSize
    ensures |r| == |m|
  {
    if ino in k.loaded then m else LoadBytes(m, Registered(k, ino), ino, osegs)
  }

  /** Memory after exec, apart from the table at `p`: only the object's data is
      written. */
  ghost function ExecMem(m: seq<Byte>, k: Sys, p: nat, ino: nat, osegs: seq<ObjSeg>): seq<Byte>
    requires Inv(k) && ObjOk(osegs) && ExecInside(k, ino, osegs) && |m| == k.memSize
  {
    if k.cur.None? || k.len < 5 || BeforeLoad(k).1 != Done then Masked(m, p)
    else
      BeforeLoadInv(k);
      Masked(LoadMem(m, BeforeLoad(k).0, ino, osegs), p)
  }

  // ----- an object whose runs lie in their segments ---------------------------------

  lemma {:induction false} SegmentInside(k: Sys, sid: nat)
    requires Inv(k) && sid < |k.segs|
    ensures k.segs[sid].base + k.segs[sid].size <= k.memSize
    ensures k.segs[sid].size > 0 ==> k.segs[sid].base > 0
  {
    var s := k.segs[sid];
    assert SegOk(k.heap, s);
    if s.size > 0 {
      PagesCover(s.size);
      assert Cell(k.heap, s.base / PAGE);
    }
  }

  /** Such an object is copied inside memory whatever the state. */
  lemma {:induction false} DataInside(k: Sys, ino: nat, osegs: seq<ObjSeg>)
    requires Inv(k) && ino in k.loaded && ObjOk(osegs) && DataOk(osegs)
    ensures CopiesInside(k, ino, osegs)
    decreases |osegs|
  {
    if |osegs| > 0 {
      LoadSegInv(k, ino, osegs[0]);
      var (k1, err) := LoadSeg(k, ino, osegs[0]);
      if err == Done {
        if osegs[0].size > 0 {
          SegmentInside(k1, |k.segs|);
        }
        DataInside(k1, ino, osegs[1..]);
      }
    }
  }

  lemma {:induction false} DataLoads(k: Sys, ino: nat, osegs: seq<ObjSeg>)
    requires Inv(k) && ino != 0 && ObjOk(osegs) && DataOk(osegs)
    ensures LoadInside(k, ino, osegs)
  {
    if ino !in k.loaded {
      RegisteredInv(k, ino);
      DataInside(Registered(k, ino), ino, osegs);
    }
  }

  // ----- what the copies reach ------------------------------------------------------

  /** Address `a` lies under one of the runs laid from `base` on. */
  predicate Covered(base: nat, data: seq<(nat, seq<Byte>)>, a: nat) {
    exists d :: d in data && base + d.0 <= a < base + d.0 + |d.1|
  }

  /** load copies a byte to address `a`. */
  ghost predicate Copies(k: Sys, ino: nat, osegs: seq<ObjSeg>, a: nat)
    requires Shape(k) && ino in k.loaded && ObjOk(osegs)
    decreases |osegs|
  {
    |osegs| > 0 && LoadSeg(k, ino, osegs[0]).1 == Done &&
    var k1 := LoadSeg(k, ino, osegs[0]).0;
    (osegs[0].size > 0 && Covered(k1.segs[|k.segs|].base, osegs[0].data, a)) || Copies(k1, ino, osegs[1..], a)
  }

  lemma {:induction false} CoveredFirst(base: nat, data: seq<(nat, seq<Byte>)>, a: nat)
    requires |data| > 0
    ensures Covered(base, data, a) <==>
            base + data[0].0 <= a < base + data[0].0 + |data[0].1| || Covered(base, data[1..], a)
  {
    if Covered(base, data, a) {
      var d :| d in data && base + d.0 <= a < base + d.0 + |d.1|;
      assert d == data[0] || d in data[1..];
    }
  }

  /** A byte under a run no longer depends on what was there; others stay. */
  lemma {:induction false} OverlayAt(m: seq<Byte>, m1: seq<Byte>, base: nat, data: seq<(nat, seq<Byte>)>, a: nat)
    requires |m| == |m1| && RunsFit(data, |m| - base) && a < |m|
    ensures var r, r1 := Overlay(m, base, data), Overlay(m1, base, data);
            if Covered(base, data, a) then r[a] == r1[a] else r[a] == m[a]
    ensures m[a] == m1[a] ==> Overlay(m, base, data)[a] == Overlay(m1, base, data)[a]
    decreases |data|
  {
    if |data| > 0 {
      assert data[0] in data;
      CoveredFirst(base, data, a);
      var p, b := base + data[0].0, data[0].1;
      OverlayAt(Splice(m, p, b), Splice(m1, p, b), base, data[1..], a);
    }
  }

  lemma {:induction false} LoadBytesAt(m: seq<Byte>, m1: seq<Byte>, k: Sys, ino: nat, osegs: seq<ObjSeg>, a: nat)
    requires Shape(k) && ino in k.loaded && ObjOk(osegs) && CopiesInside(k, ino, osegs)
    requires |m| == |m1| == k.memSize && a < |m|
    ensures var r, r1 := LoadBytes(m, k, ino, osegs), LoadBytes(m1, k, ino, osegs);
            if Copies(k, ino, osegs, a) then r[a] == r1[a] else r[a] == m[a]
    ensures m[a] == m1[a] ==> LoadBytes(m, k, ino, osegs)[a] == LoadBytes(m1, k, ino, osegs)[a]
    decreases |osegs|
  {
    if |osegs| > 0 {
      var (k1, err) := LoadSeg(k, ino, osegs[0]);
      if err == Done {
        if osegs[0].size > 0 {
          OverlayAt(m, m1, k1.segs[|k.segs|].base, osegs[0].data, a);
        }
        LoadBytesAt(SegBytes(m, k, ino, osegs[0]), SegBytes(m1, k, ino, osegs[0]), k1, ino, osegs[1..], a);
      }
    }
  }

  lemma {:induction false} CopiesWithin(k: Sys, ino: nat, osegs: seq<ObjSeg>, a: nat)
    requires Shape(k) && ino in k.loaded && ObjOk(osegs) && CopiesInside(k, ino, osegs) && Copies(k, ino, osegs, a)
    ensures a < k.memSize
    decreases |osegs|
  {
    var k1 := LoadSeg(k, ino, osegs[0]).0;
    if !(osegs[0].size > 0 && Covered(k1.segs[|k.segs|].base, osegs[0].data, a)) {
      CopiesWithin(k1, ino, osegs[1..], a);
    }
  }

  /** load leaves every byte outside the region alone, whatever memory holds. */
  ghost predicate KeepsOutside(k: Sys, ino: nat, osegs: seq<ObjSeg>, region: iset<nat>)
    requires Shape(k) && ino in k.loaded && ObjOk(osegs) && CopiesInside(k, ino, osegs)
  {
    forall m: seq<Byte>, a: nat :: |m| == k.memSize && a < |m| && a !in region ==>
        LoadBytes(m, k, ino, osegs)[a] == m[a]
  }

  /** load changes nothing outside a region, for every memory, exactly when every
      byte it copies goes into that region: its segment, the object's blocks, or
      all that is not a table. */
  lemma {:induction false} LoadOnlyIff(k: Sys, ino: nat, osegs: seq<ObjSeg>, region: iset<nat>)
    requires Shape(k) && ino in k.loaded && ObjOk(osegs) && CopiesInside(k, ino, osegs)
    ensures KeepsOutside(k, ino, osegs, region) <==> forall a: nat :: Copies(k, ino, osegs, a) ==> a in region
  {
    if forall a: nat :: Copies(k, ino, osegs, a) ==> a in region {
      forall m: seq<Byte>, a: nat | |m| == k.memSize && a < |m| && a !in region
        ensures LoadBytes(m, k, ino, osegs)[a] == m[a]
      {
        LoadBytesAt(m, m, k, ino, osegs, a);
      }
    }
    if KeepsOutside(k, ino, osegs, region) {
      forall a: nat | Copies(k, ino, osegs, a)
        ensures a in region
      {
        CopiedInRegion(k, ino, osegs, region, a);
      }
    }
  }

  lemma {:induction false} CopiedInRegion(k: Sys, ino: nat, osegs: seq<ObjSeg>, region: iset<nat>, a: nat)
    requires Shape(k) && ino in k.loaded && ObjOk(osegs) && CopiesInside(k, ino, osegs)
    requires KeepsOutside(k, ino, osegs, region) && Copies(k, ino, osegs, a)
    ensures a in region
  {
    CopiesWithin(k, ino, osegs, a);
    if a !in region {
      var m: seq<Byte>, m1: seq<Byte> := seq(k.memSize, _ => 0), seq(k.memSize, _ => 1);
      LoadBytesAt(m, m1, k, ino, osegs, a);
    }
  }

  /** The copies of one segment stay inside it exactly when each run that has bytes
      ends within the segment's size. */
  lemma {:induction false} SegmentKeptIff(base: nat, size: nat, data: seq<(nat, seq<Byte>)>)
    ensures (forall a: nat :: Covered(base, data, a) ==> base <= a < base + size) <==>
            forall d :: d in data && |d.1| > 0 ==> d.0 + |d.1| <= size
  {
    if forall a: nat :: Covered(base, data, a) ==> base <= a < base + size {
      forall d | d in data && |d.1| > 0
        ensures d.0 + |d.1| <= size
      {
        assert Covered(base, data, base + d.0 + |d.1| - 1);
      }
    }
  }

  // ----- what they never reach ------------------------------------------------------

  /** A block of the heap lies below address `p`. */
  ghost predicate Below(h: seq<int>, q: int, p: int) {
    q in Blocks(h) && PAGE * (q + Blocks(h)[q]) <= p
  }

  lemma {:induction false} SegAbove(k: Sys, ino: nat, o: ObjSeg, q: int)
    requires Inv(k) && ino in k.loaded && o.size > 0 && SizeOk(o.size) && LoadSeg(k, ino, o).1 == Done
             && q in Blocks(k.heap)
    ensures var k1 := LoadSeg(k, ino, o).0;
            && Below(k.heap, q, k1.segs[|k.segs|].base)
            && q in Blocks(k1.heap) && Blocks(k1.heap)[q] == Blocks(k.heap)[q]
  {
    MallocAddsBlock(k.heap, k.memSize / PAGE, o.size);
  }

  lemma {:induction false} CopiesAbove(k: Sys, ino: nat, osegs: seq<ObjSeg>, a: nat, q: int)
    requires Inv(k) && ino in k.loaded && ObjOk(osegs) && Copies(k, ino, osegs, a) && q in Blocks(k.heap)
    ensures Below(k.heap, q, a)
    decreases |osegs|
  {
    var o, k1 := osegs[0], LoadSeg(k, ino, osegs[0]).0;
    LoadSegInv(k, ino, o);
    if o.size > 0 {
      SegAbove(k, ino, o, q);
    }
    if !(o.size > 0 && Covered(k1.segs[|k.segs|].base, o.data, a)) {
      CopiesAbove(k1, ino, osegs[1..], a, q);
    }
  }

  /** Whatever the object, load leaves every byte of every block that was live
      before it alone: kmalloc places new blocks above all live ones, and offsets
      only go up. */
  lemma {:induction false} LoadKeepsLive(m: seq<Byte>, k: Sys, ino: nat, osegs: seq<ObjSeg>, q: int, a: nat)
    requires Inv(k) && ino != 0 && ObjOk(osegs) && LoadInside(k, ino, osegs) && |m| == k.memSize
    requires q in Blocks(k.heap) && PAGE * q <= a < PAGE * (q + Blocks(k.heap)[q]) && a < |m|
    ensures LoadMem(m, k, ino, osegs)[a] == m[a]
  {
    if ino !in k.loaded {
      var k1 := Registered(k, ino);
      RegisteredInv(k, ino);
      LoadBytesAt(m, m, k1, ino, osegs, a);
      if Copies(k1, ino, osegs, a) {
        CopiesAbove(k1, ino, osegs, a, q);
      }
    }
  }

  /** A run beyond the end of its segment lands in the next segment of the object:
      after loading this object, segment 1 starts with a 7 that is no data of its. */
  lemma {:induction false} RunSpills(m: seq<Byte>, o: ObjSeg, o1: ObjSeg)
    requires |m| == 4 * PAGE && o == ObjSeg(0, 0, 1, [(PAGE, [7])]) && o1 == ObjSeg(1, 0, 1, [])
    ensures var k := Boot(4 * PAGE);
            && Shape(k) && ObjOk([o, o1]) && LoadInside(k, 9, [o, o1]) && !DataOk([o, o1])
            && var (k1, err) := Load(k, 9, [o, o1]);
               && err == Done && |k1.segs| == 2 && k1.segs[1].base == 2 * PAGE
               && LoadMem(m, k, 9, [o, o1])[2 * PAGE] == 7
  {
    var k := Registered(Boot(4 * PAGE), 9);
    var k1 := SpillFirst(k, m, o);
    var m1 := SegBytes(m, k, 9, o);
    SpillSecond(k1, m1, o1);
    assert [o, o1][1..] == [o1];
    assert [o, o1][0] == o && (PAGE, [7]) in o.data;
  }

  lemma {:induction false} SpillFirst(k: Sys, m: seq<Byte>, o: ObjSeg) returns (k1: Sys)
    requires k == Registered(Boot(4 * PAGE), 9) && |m| == 4 * PAGE && o == ObjSeg(0, 0, 1, [(PAGE, [7])])
    ensures Shape(k) && LoadSeg(k, 9, o) == (k1, Done) && CopyInside(k, 9, o)
    ensures Shape(k1) && k1.memSize == 4 * PAGE && k1.heap == [1, 1] && |k1.segs| == 1 && 9 in k1.loaded
    ensures SegBytes(m, k, 9, o)[2 * PAGE] == 7
  {
    FirstPages();
    k1 := LoadSeg(k, 9, o).0;
    assert k1.segs[0].base == PAGE;
    OneRun(m, PAGE, (PAGE, [7]));
  }

  lemma {:induction false} SpillSecond(k: Sys, m: seq<Byte>, o: ObjSeg)
    requires Shape(k) && k.memSize == 4 * PAGE && k.heap == [1, 1] && |k.segs| == 1 && 9 in k.loaded
    requires |m| == 4 * PAGE && o == ObjSeg(1, 0, 1, [])
    ensures ObjOk([o]) && CopiesInside(k, 9, [o]) && LoadBytes(m, k, 9, [o]) == m
    ensures var (k1, err) := LoadSegs(k, 9, [o]); err == Done && |k1.segs| == 2 && k1.segs[1].base == 2 * PAGE
  {
    FirstPages();
    var k1 := LoadSeg(k, 9, o).0;
    assert k1.segs[1].base == 2 * PAGE && [o][1..] == [];
    assert SegBytes(m, k, 9, o) == m;
    assert CopiesInside(k1, 9, []) && LoadBytes(m, k1, 9, []) == m;
  }

  lemma {:induction false} OneRun(m: seq<Byte>, base: nat, d: (nat, seq<Byte>))
    requires base + d.0 + |d.1| <= |m|
    ensures RunsFit([d], |m| - base) && Overlay(m, base, [d]) == Splice(m, base + d.0, d.1)
  {
    assert [d][1..] == [];
  }

  lemma {:induction false} FirstPages()
    ensures Malloc([1], 4, 1) == ([1, 1], PAGE)
    ensures Malloc([1, 1], 4, 1) == ([1, 1, 1], 2 * PAGE)
  {
    assert Pages(1) == 1;
    assert LiveEnd([1]) == 1 && LiveEnd([1, 1]) == 2;
    assert !InteriorHole([1], 1) && !InteriorHole([1, 1], 1);
    assert Placed([1], 1, 1) == [1, 1] && Placed([1, 1], 2, 1) == [1, 1, 1];
  }

  // ----- and the tables -------------------------------------------------------------

  /** What load does to memory beside a table does not depend on the table. */
  lemma {:induction false} MaskedLoad(m: seq<Byte>, m1: seq<Byte>, k: Sys, ino: nat, osegs: seq<ObjSeg>, p: nat)
    requires Shape(k) && ObjOk(osegs) && LoadInside(k, ino, osegs) && |m| == |m1| == k.memSize
    requires Masked(m, p) == Masked(m1, p)
    ensures Masked(LoadMem(m, k, ino, osegs), p) == Masked(LoadMem(m1, k, ino, osegs), p)
  {
    if ino !in k.loaded {
      var r, r1 := LoadMem(m, k, ino, osegs), LoadMem(m1, k, ino, osegs);
      forall a | 0 <= a < |m|
        ensures Masked(r, p)[a] == Masked(r1, p)[a]
      {
        if !(p <= a < p + TABLE) {
          assert Masked(m, p)[a] == m[a] && Masked(m1, p)[a] == m1[a];
          LoadBytesAt(m, m1, Registered(k, ino), ino, osegs, a);
        }
      }
    }
  }

  /** No table changes, each lying in a live block. */
  lemma {:induction false} LoadKeepsTables(m: seq<Byte>, k: Sys, ino: nat, osegs: seq<ObjSeg>, bases: seq<nat>)
    requires Inv(k) && ino != 0 && ObjOk(osegs) && LoadInside(k, ino, osegs) && |m| == k.memSize
    requires |bases| == |k.uareas|
    requires forall j :: 0 <= j < |bases| ==> k.uareas[j] < |k.segs| && k.segs[k.uareas[j]].base == bases[j]
    ensures Inside(bases, |m|) && Tables(LoadMem(m, k, ino, osegs), bases) == Tables(m, bases)
  {
    var r := LoadMem(m, k, ino, osegs);
    forall j | 0 <= j < |bases|
      ensures SameOn(r, m, bases[j])
    {
      AreaBlock(k, j);
      forall i {:trigger r[i]} | bases[j] <= i < bases[j] + TABLE
        ensures r[i] == m[i]
      {
        LoadKeepsLive(m, k, ino, osegs, bases[j] / PAGE, i);
      }
    }
    TablesFrame(r, m, bases);
  }

  /** A process area is a block of one page. */
  lemma {:induction false} AreaBlock(k: Sys, j: nat)
    requires Inv(k) && j < |k.uareas|
    ensures k.uareas[j] < |k.segs|
    ensures var b := k.segs[k.uareas[j]].base;
            && b == b / PAGE * PAGE && b >= PAGE && b + PAGE <= k.memSize
            && b / PAGE in Blocks(k.heap) && Blocks(k.heap)[b / PAGE] == 1
            && k.segs[k.uareas[j]].size == PAGE
  {
    assert k.uareas[j] in k.uareas;
    var s := k.segs[k.uareas[j]];
    assert SegOk(k.heap, s);
    assert Pages(PAGE) == 1;
    assert Cell(k.heap, s.base / PAGE);
  }
}
