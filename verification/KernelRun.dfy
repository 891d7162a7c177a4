/** Every operation of the memory manager keeps the invariant, hence so does
    every run from the empty heap. */
module KernelRun {
  import opened Codec
  import opened Heap
  import opened Kernel
  import opened KernelInv

  // ----- one process table entry at a time ---------------------------------------

  lemma {:induction false} InvalidateInv(k: Sys)
    requires Core(k)
    ensures Inv(Invalidate(k))
  {
    var k' := Invalidate(k);
    assert forall s :: 0 <= s < |k'.segs| ==> (RefOk(k, s) <==> RefOk(k', s));
  }

  lemma {:induction false} MunmapInv(k: Sys, segno: nat)
    requires Inv(k)
    ensures Inv(Munmap(k, segno).0)
    ensures k.cur.Some? && segno < k.len ==> !Valid(Munmap(k, segno).0.ents[Slot(k, segno)])
    ensures Munmap(k, segno).1 == Done <==> k.cur.Some? && segno < k.len
  {
    if k.cur.Some? && segno < k.len {
      var j := Slot(k, segno);
      var e := k.ents[j];
      assert EntOk(k.segs, e);
      if Valid(e) {
        var gone := e.(size := 0, flags := 0);
        ReleaseInv(k, j, gone);
        InvalidateInv(SetEnt(Release(k, e.segid), j, gone));
      }
    }
  }

  lemma {:induction false} MappingFlags(s: SegRec, sid: nat)
    ensures Valid(Mapping(s, sid))
  {
    var f := SetBit(s.flags, VALID);
    assert f == f / P18 * P18 + f % P18;
    assert (f / VALID) % 2 == 1;
  }

  /** mmap into an entry that is not VALID. */
  lemma {:induction false} InstallInv(k: Sys, sid: nat, segno: nat)
    requires Inv(k) && k.cur.Some? && segno < k.len && sid < |k.segs| && sid !in k.uareas
    requires !Valid(k.ents[Slot(k, segno)])
    ensures Inv(Install(k, sid, segno))
  {
    var s := k.segs[sid].(refs := k.segs[sid].refs + 1);
    MappingFlags(s, sid);
    AcquireInv(k, Slot(k, segno), sid, Mapping(s, sid));
    InvalidateInv(SetEnt(k.(segs := k.segs[sid := s]), Slot(k, segno), Mapping(s, sid)));
  }

  /** What a successful mmap installs. */
  lemma {:induction false} MmapResult(k: Sys, sid: nat, segno: nat)
    requires Shape(k) && Mmap(k, sid, segno).1 == Done
    ensures k.cur.Some? && segno < k.len && sid < |k.segs|
    ensures var k' := Mmap(k, sid, segno).0;
            && k'.ents[Slot(k, segno)] == Mapping(k'.segs[sid], sid)
            && k'.segs[sid].refs >= 1
            && (forall i :: 0 <= i < |k.ents| && i != Slot(k, segno) ==> k'.ents[i] == k.ents[i])
            && (forall i :: 0 <= i < 16 ==> k'.cache[i].flags == 0)
  {
  }

  /** mmap of any segid but a process area's keeps the invariant, on success and
      on every error. */
  lemma {:induction false} MmapInv(k: Sys, sid: nat, segno: nat)
    requires Inv(k) && sid !in k.uareas
    ensures Inv(Mmap(k, sid, segno).0)
  {
    if k.cur.Some? && segno < k.len && sid < |k.segs| {
      var was := k.ents[Slot(k, segno)];
      if !Valid(was) {
        InstallInv(k, sid, segno);
      } else if segno != 4 {
        MunmapInv(k, segno);
        InstallInv(Munmap(k, segno).0, sid, segno);
      }
    }
  }

  lemma {:induction false} FreeSegsInv(k: Sys, everything: bool, from: nat)
    requires Inv(k)
    ensures Inv(FreeSegs(k, everything, from))
    decreases k.len - from
  {
    if k.cur.Some? && from < k.len {
      MunmapInv(k, from);
      FreeSegsInv(if everything || from != 4 then Munmap(k, from).0 else k, everything, from + 1);
    }
  }

  // ----- load -----------------------------------------------------------------------

  /** A fresh segment labelled with its object. */
  function Labelled(k: Sys, ino: nat, o: ObjSeg, sid: nat): Sys
    requires ino in k.loaded && sid < |k.segs|
  {
    var lo := k.loaded[ino];
    k.(segs := k.segs[sid := k.segs[sid].(ino := ino, flags := SetBit(o.flags, VALID))],
       loaded := k.loaded[ino := Loaded(lo.refs + 1, Emplace(lo.segs, o.segno, sid))])
  }

  lemma {:induction false} LoadSegUnfold(k: Sys, ino: nat, o: ObjSeg, k1: Sys, sid: nat)
    requires Shape(k) && ino in k.loaded && SizeOk(o.size) && Salloc(k, o.size) == (k1, Some(sid))
    ensures ino in k1.loaded && sid < |k1.segs| && LoadSeg(k, ino, o) == (Labelled(k1, ino, o, sid), Done)
  {
  }

  lemma {:induction false} LabelInv(k: Sys, ino: nat, o: ObjSeg, n: nat)
    requires Inv(k) && ino in k.loaded
    requires n < |k.segs| && k.segs[n].ino == 0 && k.segs[n].size > 0 && n !in k.uareas
    ensures Inv(Labelled(k, ino, o, n))
  {
    var s := k.segs[n].(ino := ino, flags := SetBit(o.flags, VALID));
    var k' := Labelled(k, ino, o, n);
    forall t | 0 <= t < |k'.segs|
      ensures SegOk(k'.heap, k'.segs[t]) && RefOk(k', t)
    {
      assert SegOk(k.heap, k.segs[t]) && RefOk(k, t);
    }
    forall i | i in k'.loaded
      ensures k'.loaded[i].refs == CountIno(k'.segs, i)
    {
      CountInoUpdate(k.segs, n, s, i);
    }
    forall j | 0 <= j < |k'.ents|
      ensures EntOk(k'.segs, k'.ents[j])
    {
      assert EntOk(k.segs, k.ents[j]);
    }
    forall i | 0 <= i < 16
      ensures SlotOk(k', i)
    {
      assert SlotOk(k, i);
    }
  }

  lemma {:induction false} LoadSegInv(k: Sys, ino: nat, o: ObjSeg)
    requires Inv(k) && ino in k.loaded && (o.size > 0 ==> SizeOk(o.size))
    ensures Inv(LoadSeg(k, ino, o).0)
  {
    if o.size > 0 {
      SallocInv(k, o.size);
      var (k1, sid) := Salloc(k, o.size);
      if sid.Some? {
        assert sid.value !in k1.uareas by {
          assert forall u :: u in k.uareas ==> u < |k.segs|;
        }
        LabelInv(k1, ino, o, sid.value);
        LoadSegUnfold(k, ino, o, k1, sid.value);
      }
    }
  }

  lemma {:induction false} LoadSegsInv(k: Sys, ino: nat, osegs: seq<ObjSeg>)
    requires Inv(k) && ino in k.loaded && ObjOk(osegs)
    ensures Inv(LoadSegs(k, ino, osegs).0)
    decreases |osegs|
  {
    if |osegs| > 0 {
      LoadSegInv(k, ino, osegs[0]);
      var (k1, err) := LoadSeg(k, ino, osegs[0]);
      if err == Done {
        LoadSegsInv(k1, ino, osegs[1..]);
      }
    }
  }

  /** load keeps the invariant even when it stops half way on ENOMEM. */
  lemma {:induction false} LoadKeepsInv(k: Sys, ino: nat, osegs: seq<ObjSeg>)
    requires Inv(k) && ino != 0 && ObjOk(osegs)
    ensures Inv(Load(k, ino, osegs).0)
  {
    if ino !in k.loaded {
      RegisteredInv(k, ino);
      LoadSegsInv(Registered(k, ino), ino, osegs);
    }
  }

  lemma {:induction false} RegisteredInv(k: Sys, ino: nat)
    requires Inv(k) && ino != 0 && ino !in k.loaded
    ensures Inv(Registered(k, ino))
  {
    var k1 := Registered(k, ino);
    CountInoNone(k.segs, ino);
    forall s | 0 <= s < |k1.segs| ensures RefOk(k1, s) { assert RefOk(k, s); }
    forall i | 0 <= i < 16 ensures SlotOk(k1, i) { assert SlotOk(k, i); }
  }

  // ----- exec ---------------------------------------------------------------------------

  /** Overwriting the flags of a counted entry so that it is no longer VALID:
      the reference it held now pins its segid for good. */
  lemma {:induction false} UnmarkInv(k: Sys, j: nat)
    requires Inv(k) && j < |k.ents| && Valid(k.ents[j])
    requires forall s :: 0 <= s < 16 ==> !Bit(k.cache[s].flags, VALID)
    requires !Pinned(k, k.ents[j].segid)
    ensures Inv(SetEnt(k, j, k.ents[j].(flags := READ + WRITE)))
  {
    var sid := k.ents[j].segid;
    var e := k.ents[j].(flags := READ + WRITE);
    var k' := SetEnt(k, j, e);
    assert EntOk(k.segs, k.ents[j]) && PrivateOk(k.uareas, k.ents[j]);
    forall s | 0 <= s < |k'.segs|
      ensures RefOk(k', s)
    {
      assert RefOk(k, s);
      CountUpdate(k.ents, j, e, s);
      if s != sid && Pinned(k', s) && s !in k'.uareas {
        var i :| 0 <= i < |k'.ents| && Unmarked(k'.ents[i]) && k'.ents[i].segid == s;
        assert Unmarked(k.ents[i]);
      }
    }
    forall i | 0 <= i < |k'.ents|
      ensures EntOk(k'.segs, k'.ents[i]) && PrivateOk(k'.uareas, k'.ents[i])
    {
      assert EntOk(k.segs, k.ents[i]) && PrivateOk(k.uareas, k.ents[i]);
    }
  }

  lemma {:induction false} MapStackInv(k: Sys)
    requires Inv(k) && k.cur.Some? && k.len >= 5
    ensures Inv(MapStack(k).0)
  {
    SallocInv(k, PAGE);
    var (k1, sid) := Salloc(k, PAGE);
    if sid.Some? {
      FreshUnpinned(k, k1);
      MmapInv(k1, sid.value, 0);
      if Mmap(k1, sid.value, 0).1 == Done {
        StackInv(k1, sid.value);
      }
    }
  }

  lemma {:induction false} FreshUnpinned(k: Sys, k1: Sys)
    requires MapInv(k) && AreaInv(k) && k1.ents == k.ents && k1.uareas == k.uareas
    ensures !Pinned(k1, |k.segs|)
  {
    forall i | 0 <= i < |k.ents| && Unmarked(k.ents[i])
      ensures k.ents[i].segid != |k.segs|
    {
      assert EntOk(k.segs, k.ents[i]);
    }
  }

  lemma {:induction false} StackInv(k: Sys, n: nat)
    requires Inv(k) && !Pinned(k, n) && Mmap(k, n, 0).1 == Done
    ensures k.cur.Some? && 0 < k.len
    ensures var k' := Mmap(k, n, 0).0; Inv(SetEnt(k', Slot(k, 0), k'.ents[Slot(k, 0)].(flags := READ + WRITE)))
  {
    MmapInv(k, n, 0);
    MmapResult(k, n, 0);
    var k' := Mmap(k, n, 0).0;
    MappingFlags(k'.segs[n], n);
    UnmarkInv(k', Slot(k, 0));
  }

  lemma {:induction false} MapAllInv(k: Sys, ms: seq<(nat, nat)>)
    requires Inv(k) && forall p :: p in ms ==> p.1 !in k.uareas
    ensures Inv(MapAll(k, ms).0)
    decreases |ms|
  {
    if |ms| > 0 {
      assert ms[0] in ms;
      MmapInv(k, ms[0].1, ms[0].0);
      var (k1, err) := Mmap(k, ms[0].1, ms[0].0);
      if err == Done {
        MapAllInv(k1, ms[1..]);
      }
    }
  }

  lemma {:induction false} ExecInv(k: Sys, ino: nat, osegs: seq<ObjSeg>)
    requires Inv(k) && ino != 0 && ObjOk(osegs)
    ensures Inv(Exec(k, ino, osegs).0)
  {
    if k.cur.Some? && k.len >= 5 {
      FreeSegsInv(k, false, 0);
      MapStackInv(FreeSegs(k, false, 0));
      var (k1, err1) := MapStack(FreeSegs(k, false, 0));
      if err1 == Done {
        LoadKeepsInv(k1, ino, osegs);
        var (k2, err2) := Load(k1, ino, osegs);
        if err2 == Done {
          MapAllInv(k2, k2.loaded[ino].segs);
        }
      }
    }
  }

  lemma {:induction false} FreeSegsSize(k: Sys, everything: bool, from: nat)
    requires Shape(k)
    ensures FreeSegs(k, everything, from).memSize == k.memSize
    decreases k.len - from
  {
    if k.cur.Some? && from < k.len {
      FreeSegsSize(if everything || from != 4 then Munmap(k, from).0 else k, everything, from + 1);
    }
  }

  lemma {:induction false} BeforeLoadInv(k: Sys)
    requires Inv(k) && k.cur.Some? && k.len >= 5
    ensures Inv(BeforeLoad(k).0) && BeforeLoad(k).0.memSize == k.memSize
  {
    FreeSegsSize(k, false, 0);
    FreeSegsInv(k, false, 0);
    MapStackInv(FreeSegs(k, false, 0));
  }

  // ----- fork ---------------------------------------------------------------------------

  /** The copy of an entry is used and protected as the original is, and a
      writable mapping loses WRITE. */
  lemma {:induction false} CopyFlags(e: Desc)
    ensures var c := CopyEnt(e);
            && (Valid(c) <==> Valid(e)) && (Bit(c.flags, SUPER) <==> Bit(e.flags, SUPER))
            && (Bit(c.flags, READ) <==> Bit(e.flags, READ)) && (Bit(c.flags, EXEC) <==> Bit(e.flags, EXEC))
            && (Bit(c.flags, WRITE) <==> Bit(e.flags, WRITE) && !Valid(e))
            && c.segid == e.segid && c.base == e.base && c.size == e.size
  {
    if Valid(e) && Bit(e.flags, WRITE) {
      ClearWriteSetCow(e.flags);
    }
  }

  /** The low five flag bits and VALID, read off quotient and remainder. */
  lemma {:induction false} FlagBits(f: nat, q: nat, r: nat)
    requires f == q * 0x20 + r && r < 0x20
    ensures Bit(f, EXEC) == Bit(r, EXEC) && Bit(f, WRITE) == Bit(r, WRITE) && Bit(f, READ) == Bit(r, READ)
    ensures Bit(f, SUPER) == Bit(r, SUPER) && Bit(f, COW) == Bit(r, COW)
    ensures Bit(f, VALID) == Bit(q, 0x1000)
  {
    BitAbove(q * 0x10, 1, r);
    BitAbove(q * 8, 2, r);
    BitAbove(q * 4, 4, r);
    BitAbove(q * 2, 8, r);
    BitAbove(q, 0x10, r);
    var h, l := q / 0x1000, q % 0x1000;
    DivUnique(f, VALID, h, l * 0x20 + r);
  }

  lemma {:induction false} ClearWriteSetCow(f: nat)
    requires Bit(f, WRITE)
    ensures var g := SetBit(f - WRITE, COW);
            !Bit(g, WRITE) && Bit(g, COW)
            && (Bit(g, VALID) <==> Bit(f, VALID)) && (Bit(g, SUPER) <==> Bit(f, SUPER))
            && (Bit(g, READ) <==> Bit(f, READ)) && (Bit(g, EXEC) <==> Bit(f, EXEC))
  {
    var q, r := f / 0x20, f % 0x20;
    FlagBits(f, q, r);
    LowWrite(r);
    BitAbove(q, COW, r - 2);
    FlagBits(q * 0x20 + SetBit(r - 2, COW), q, SetBit(r - 2, COW));
    LowBits(r);
  }

  lemma {:induction false} LowWrite(r: nat)
    requires r < 0x20 && Bit(r, WRITE)
    ensures r >= 2 && SetBit(r - 2, COW) < 0x20
  {
  }

  lemma {:induction false} LowBits(r: nat)
    requires r < 0x20 && Bit(r, WRITE)
    ensures var g := SetBit(r - 2, COW);
            !Bit(g, WRITE) && Bit(g, COW) && (Bit(g, SUPER) <==> Bit(r, SUPER))
            && (Bit(g, READ) <==> Bit(r, READ)) && (Bit(g, EXEC) <==> Bit(r, EXEC))
  {
  }

  lemma {:induction false} AddrefsCount(segs: seq<SegRec>, t: seq<Desc>, t': seq<Desc>, s: nat)
    requires |t| == |t'| && s < |segs|
    requires forall i :: 0 <= i < |t| ==> (Names(t'[i], s) <==> i != 4 && Names(t[i], s))
    requires forall i :: 0 <= i < |t| && Valid(t[i]) ==> t[i].segid < |segs|
    ensures Addrefs(segs, t)[s] == segs[s].(refs := segs[s].refs + Count(t', s))
    decreases |t|
  {
    if |t| > 0 {
      AddrefsCount(segs, t[..|t| - 1], t'[..|t| - 1], s);
    }
  }

  /** The child's table after either kind of fork adds usable entries only as
      the parent had them, and counts each VALID one. */
  lemma {:induction false} ChildInv(k: Sys, t: seq<Desc>, child: seq<Desc>, segs': seq<SegRec>)
    requires Inv(k) && |t| == SLOTS && |child| == SLOTS && Salloc(k, PAGE).1.Some?
    requires forall i :: 0 <= i < SLOTS && i != 4 ==> ChildEnt(k, t[i], child[i])
    requires var (k1, useg) := Salloc(k, PAGE);
             && |segs'| == |k1.segs|
             && child[4] == AreaEntry(k1.segs[|k.segs|].base, |k.segs|)
             && forall s :: 0 <= s < |segs'| ==>
                  segs'[s] == k1.segs[s].(refs := (if s == |k.segs| then 1 else k1.segs[s].refs) + Count(child, s))
    ensures var k1 := Salloc(k, PAGE).0;
            Core(k1.(segs := segs', uareas := k1.uareas + [|k.segs|], ents := k1.ents + child))
  {
    SallocInv(k, PAGE);
    var k1 := Salloc(k, PAGE).0;
    var n := |k.segs|;
    var k' := k1.(segs := segs', uareas := k1.uareas + [n], ents := k1.ents + child);
    ChildHeap(k1, k');
    ChildEntries(k, t, child, k');
    forall s | 0 <= s < |segs'|
      ensures RefOk(k', s)
    {
      assert RefOk(k1, s);
      ChildRef(k1, n, child, k', s);
    }
    assert MapInv(k');
    ChildAreas(k1, k');
  }

  /** Parts of the invariant that reference counts and tables do not enter. */
  lemma {:induction false} ChildHeap(k: Sys, k': Sys)
    requires HeapInv(k) && LoadInv(k) && |k.segs| == |k'.segs|
    requires k'.heap == k.heap && k'.memSize == k.memSize && k'.loaded == k.loaded
    requires forall s :: 0 <= s < |k.segs| ==> k'.segs[s] == k.segs[s].(refs := k'.segs[s].refs)
    ensures HeapInv(k') && LoadInv(k')
  {
    forall s | 0 <= s < |k.segs|
      ensures SegOk(k'.heap, k'.segs[s])
    {
      assert SegOk(k.heap, k.segs[s]);
    }
    forall ino | ino in k'.loaded
      ensures k'.loaded[ino].refs == CountIno(k'.segs, ino)
    {
      SameInos(k.segs, k'.segs, ino);
    }
  }

  lemma {:induction false} ChildAreas(k: Sys, k': Sys)
    requires AreaInv(k) && |k.segs| == |k'.segs| >= 1 && k'.loaded == k.loaded
    requires forall s :: 0 <= s < |k.segs| ==> k'.segs[s] == k.segs[s].(refs := k'.segs[s].refs)
    requires k'.uareas == k.uareas + [|k.segs| - 1] && |k.segs| - 1 !in k.uareas
    requires k.segs[|k.segs| - 1].size == PAGE && k.segs[|k.segs| - 1].ino == 0
    requires forall ino, p :: ino in k.loaded && p in k.loaded[ino].segs ==> p.1 != |k.segs| - 1
    requires forall i :: 0 <= i < |k'.ents| ==> PrivateOk(k'.uareas, k'.ents[i])
    ensures AreaInv(k')
  {
  }

  lemma {:induction false} ChildRef(k: Sys, n: nat, child: seq<Desc>, k': Sys, s: nat)
    requires s < |k.segs| == |k'.segs| && RefOk(k, s)
    requires k'.ents == k.ents + child && k'.uareas == k.uareas + [n]
    requires k'.segs[s].refs == (if s == n then 1 else k.segs[s].refs) + Count(child, s)
    requires forall i :: 0 <= i < |k.ents| ==> !Names(k.ents[i], n)
    requires forall i :: 0 <= i < |k'.ents| && Unmarked(k'.ents[i]) && k'.ents[i].segid != n ==>
             Pinned(k, k'.ents[i].segid)
    ensures RefOk(k', s)
  {
    CountAppend(k.ents, child, s);
    if s == n {
      CountNone(k.ents, n);
    }
  }

  ghost predicate ChildEnt(k: Sys, e: Desc, c: Desc) {
    (Valid(c) || Accessible(c)) ==>
      && (Valid(c) <==> Valid(e)) && (Accessible(c) ==> Accessible(e))
      && (Bit(c.flags, SUPER) <==> Bit(e.flags, SUPER))
      && c.segid == e.segid && c.base == e.base && c.size == e.size
      && e in k.ents
  }

  lemma {:induction false} ChildEntries(k: Sys, t: seq<Desc>, child: seq<Desc>, k': Sys)
    requires Inv(k) && |t| == SLOTS && |child| == SLOTS
    requires forall i :: 0 <= i < SLOTS && i != 4 ==> ChildEnt(k, t[i], child[i])
    requires |k'.segs| == |k.segs| + 1 && k'.uareas == k.uareas + [|k.segs|] && k'.ents == k.ents + child
    requires forall s :: 0 <= s < |k.segs| ==> k'.segs[s].base == k.segs[s].base && k'.segs[s].size == k.segs[s].size
    requires k'.segs[|k.segs|].size == PAGE
    requires child[4] == AreaEntry(k'.segs[|k.segs|].base, |k.segs|)
    ensures forall i :: 0 <= i < |k'.ents| ==> EntOk(k'.segs, k'.ents[i]) && PrivateOk(k'.uareas, k'.ents[i])
    ensures forall i :: 0 <= i < |k'.ents| && Unmarked(k'.ents[i]) && k'.ents[i].segid != |k.segs| ==>
            Pinned(k, k'.ents[i].segid)
    ensures forall i :: 0 <= i < |k.ents| ==> !Names(k.ents[i], |k.segs|)
  {
    var n := |k.ents|;
    forall i | 0 <= i < |k'.ents|
      ensures EntOk(k'.segs, k'.ents[i]) && PrivateOk(k'.uareas, k'.ents[i])
      ensures Unmarked(k'.ents[i]) && k'.ents[i].segid != |k.segs| ==> Pinned(k, k'.ents[i].segid)
    {
      if i < n {
        assert EntOk(k.segs, k.ents[i]) && PrivateOk(k.uareas, k.ents[i]);
      } else if i == n + 4 {
        assert k'.ents[i] == child[4];
        assert Bit(SUPER + READ + WRITE, SUPER) && !Bit(SUPER + READ + WRITE, VALID);
      } else {
        var c := child[i - n];
        assert k'.ents[i] == c && ChildEnt(k, t[i - n], c);
        if Valid(c) || Accessible(c) {
          var j :| 0 <= j < |k.ents| && k.ents[j] == t[i - n];
          assert EntOk(k.segs, k.ents[j]) && PrivateOk(k.uareas, k.ents[j]);
        }
      }
    }
  }

  lemma {:induction false} SameInos(a: seq<SegRec>, b: seq<SegRec>, ino: nat)
    requires |a| == |b| && forall s :: 0 <= s < |a| ==> a[s].ino == b[s].ino
    ensures CountIno(a, ino) == CountIno(b, ino)
    decreases |a|
  {
    if |a| > 0 {
      SameInos(a[..|a| - 1], b[..|b| - 1], ino);
    }
  }

  lemma {:induction false} ForkSuperInv(k: Sys, stale: seq<Desc>)
    requires Inv(k) && |stale| == SLOTS
    ensures Inv(ForkSuper(k, stale).0)
  {
    var t := seq(SLOTS, i requires 0 <= i < SLOTS => stale[i].(flags := 0));
    var (k1, useg) := Salloc(k, PAGE);
    if useg.Some? {
      var n := |k.segs|;
      var child := t[4 := AreaEntry(k1.segs[n].base, n)];
      var segs' := k1.segs[n := k1.segs[n].(refs := 1)];
      forall s | 0 <= s < |segs'|
        ensures segs'[s] == k1.segs[s].(refs := (if s == n then 1 else k1.segs[s].refs) + Count(child, s))
      {
        CountNone(child, s);
      }
      ChildInv(k, t, child, segs');
      InvalidateInv(k1.(segs := segs', uareas := k1.uareas + [n], ents := k1.ents + child));
    }
  }

  /** fork from a process up to the saving of the parent's context. */
  ghost function Child(k: Sys): (r: Sys)
    requires Shape(k) && k.cur.Some? && Salloc(k, PAGE).1.Some?
    ensures Shape(r)
  {
    var t := CurTable(k);
    var k1 := NewArea(k, seq(SLOTS, i requires 0 <= i < SLOTS => CopyEnt(t[i]))).0;
    AddrefsShape(k1.segs, t);
    k1.(segs := Addrefs(k1.segs, t))
  }

  /** The bytes of a context frame. */
  const CONTEXT: nat := 98

  /** Where a context is saved. The one test made is that the address does not lie
      beyond the end of the segment. */
  function ContextPlace(c: Sys, sspSeg: nat, sspAddr: nat): Option<nat>
    requires Shape(c)
  {
    var found := Lookup(c, sspSeg).1;
    if found.NoSegment? || sspAddr > found.desc.len then None else Some(found.desc.base + sspAddr)
  }

  /** Where fork saves the parent's context, if it comes to that. */
  ghost function SavePlace(k: Sys, sspSeg: nat, sspAddr: nat): Option<nat>
    requires Shape(k) && k.cur.Some?
  {
    if Salloc(k, PAGE).1.None? then None else ContextPlace(Child(k), sspSeg, sspAddr)
  }

  /** A context frame at `p` lies inside memory and off every table. */
  predicate FrameClear(k: Sys, p: nat) {
    && p + CONTEXT <= k.memSize
    && forall u :: u in k.uareas && u < |k.segs| ==> p + CONTEXT <= k.segs[u].base || k.segs[u].base + TABLE <= p
  }

  /** Saving the context overwrites no table, neither the child's nor another. */
  ghost predicate ContextClear(k: Sys, sspSeg: nat, sspAddr: nat)
    requires Shape(k) && k.cur.Some?
  {
    SavePlace(k, sspSeg, sspAddr).Some? ==> FrameClear(Child(k), SavePlace(k, sspSeg, sspAddr).value)
  }

  lemma {:induction false} ChildOfUser(k: Sys)
    requires Inv(k) && k.cur.Some? && Salloc(k, PAGE).1.Some?
    ensures Inv(Child(k))
  {
    var t := CurTable(k);
    var k1 := Salloc(k, PAGE).0;
    var n := |k.segs|;
    var copy := seq(SLOTS, i requires 0 <= i < SLOTS => CopyEnt(t[i]));
    var child := copy[4 := AreaEntry(k1.segs[n].base, n)];
    var k2 := NewArea(k, copy).0;
    ForkCounts(k, t, child, k2.segs);
    forall i | 0 <= i < SLOTS && i != 4
      ensures ChildEnt(k, t[i], child[i])
    {
      CopyFlags(t[i]);
      assert t[i] == k.ents[SLOTS * k.cur.value + i];
    }
    ChildInv(k, t, child, Addrefs(k2.segs, t));
    GrownCache(k, Child(k));
  }

  lemma {:induction false} GrownCache(k: Sys, k': Sys)
    requires Inv(k) && Core(k') && k'.cur == k.cur && k'.len == k.len && k'.cache == k.cache
    requires |k.ents| <= |k'.ents| && k'.ents[..|k.ents|] == k.ents
    ensures CacheInv(k')
  {
    forall i | 0 <= i < 16
      ensures SlotOk(k', i)
    {
      assert SlotOk(k, i);
    }
  }

  lemma {:induction false} ForkUserInv(k: Sys, sspSeg: nat, sspAddr: nat)
    requires Inv(k) && k.cur.Some?
    ensures Inv(ForkUser(k, sspSeg, sspAddr).0)
  {
    if Salloc(k, PAGE).1.Some? {
      ChildOfUser(k);
      LookupInv(Child(k), sspSeg);
      var k1 := Lookup(Child(k), sspSeg).0;
      NewTableInv(k1, |k.uareas|);
    }
  }

  /** Switching to another table and invalidating. */
  lemma {:induction false} NewTableInv(k: Sys, j: nat)
    requires Inv(k) && j < |k.uareas| && k.len <= SLOTS
    ensures Inv(Invalidate(k.(cur := Some(j))))
  {
    var k' := k.(cur := Some(j));
    forall s | 0 <= s < |k'.segs|
      ensures RefOk(k', s)
    {
      assert RefOk(k, s);
    }
    InvalidateInv(k');
  }

  /** The reference counts after a fork's copying loop. */
  lemma {:induction false} ForkCounts(k: Sys, t: seq<Desc>, child: seq<Desc>, segs: seq<SegRec>)
    requires Inv(k) && k.cur.Some? && t == CurTable(k) && |child| == SLOTS && |segs| == |k.segs| + 1
    requires forall i :: 0 <= i < SLOTS && i != 4 ==> child[i] == CopyEnt(t[i])
    requires !Valid(child[4])
    ensures forall s :: 0 <= s < |segs| ==> Addrefs(segs, t)[s] == segs[s].(refs := segs[s].refs + Count(child, s))
  {
    forall s | 0 <= s < |segs|
      ensures Addrefs(segs, t)[s] == segs[s].(refs := segs[s].refs + Count(child, s))
    {
      forall i | 0 <= i < SLOTS
        ensures Names(child[i], s) <==> i != 4 && Names(t[i], s)
        ensures Valid(t[i]) ==> t[i].segid < |segs|
      {
        CopyFlags(t[i]);
        assert t[i] == k.ents[SLOTS * k.cur.value + i];
        assert EntOk(k.segs, t[i]);
      }
      AddrefsCount(segs, t, child, s);
    }
  }

  lemma {:induction false} LookupInv(k: Sys, segno: nat)
    requires Core(k) && CacheInv(k)
    ensures Inv(Lookup(k, segno).0)
  {
    var k' := Lookup(k, segno).0;
    forall i | 0 <= i < 16
      ensures SlotOk(k', i)
    {
      assert SlotOk(k, i);
    }
    assert forall s :: 0 <= s < |k'.segs| ==> (RefOk(k, s) <==> RefOk(k', s));
  }

  // ----- runs ---------------------------------------------------------------------------

  datatype Op =
    | Kmalloc(bytes: nat)
    | Allocate(size: nat)
    | LoadObject(ino: nat, osegs: seq<ObjSeg>)
    | Map(sid: nat, segno: nat)
    | Unmap(segno: nat)
    | Unmapall(everything: bool)
    | Execute(ino: nat, osegs: seq<ObjSeg>)
    | ForkFirst(stale: seq<Desc>)
    | ForkProcess(sspSeg: nat, sspAddr: nat)
    | Find(segno: nat)
    | SetTable(j: nat)
    | SetLength(n: nat)
    | Restart

  predicate EmptyCache(k: Sys) {
    forall i :: 0 <= i < |k.cache| ==> !Bit(k.cache[i].flags, VALID)
  }

  /** What exec copies lies inside memory, if it comes to the loading. */
  ghost predicate ExecInside(k: Sys, ino: nat, osegs: seq<ObjSeg>)
    requires Shape(k) && ObjOk(osegs)
  {
    k.cur.Some? && k.len >= 5 && BeforeLoad(k).1 == Done ==> LoadInside(BeforeLoad(k).0, ino, osegs)
  }

  /** What the source asks of the caller of each operation: sizes that do not wrap,
      copies inside memory, no cached descriptors when the table register changes,
      and a saved context that overwrites no table. */
  ghost predicate Enabled(k: Sys, op: Op)
    requires Shape(k)
  {
    match op
    case Kmalloc(bytes) => SizeOk(bytes)
    case Allocate(size) => SizeOk(size)
    case LoadObject(ino, osegs) => ino != 0 && ObjOk(osegs) && LoadInside(k, ino, osegs)
    case Map(sid, _) => sid !in k.uareas
    case Unmap(_) => true
    case Unmapall(_) => true
    case Execute(ino, osegs) => ino != 0 && ObjOk(osegs) && ExecInside(k, ino, osegs)
    case ForkFirst(stale) => |stale| == SLOTS
    case ForkProcess(sspSeg, sspAddr) => k.cur.Some? && ContextClear(k, sspSeg, sspAddr)
    case Find(_) => true
    case SetTable(j) => j < |k.uareas| && k.len <= SLOTS && EmptyCache(k)
    case SetLength(n) => n <= SLOTS && EmptyCache(k)
    case Restart => true
  }

  ghost function Step(k: Sys, op: Op): (r: Sys)
    requires Inv(k) && Enabled(k, op)
    ensures Inv(r)
  {
    match op
    case Kmalloc(bytes) =>
      KmallocInv(k, bytes);
      k.(heap := Malloc(k.heap, k.memSize / PAGE, bytes).0)
    case Allocate(size) => SallocInv(k, size); Salloc(k, size).0
    case LoadObject(ino, osegs) => LoadKeepsInv(k, ino, osegs); Load(k, ino, osegs).0
    case Map(sid, segno) => MmapInv(k, sid, segno); Mmap(k, sid, segno).0
    case Unmap(segno) => MunmapInv(k, segno); Munmap(k, segno).0
    case Unmapall(everything) => FreeSegsInv(k, everything, 0); FreeSegs(k, everything, 0)
    case Execute(ino, osegs) => ExecInv(k, ino, osegs); Exec(k, ino, osegs).0
    case ForkFirst(stale) => ForkSuperInv(k, stale); ForkSuper(k, stale).0
    case ForkProcess(sspSeg, sspAddr) => ForkUserInv(k, sspSeg, sspAddr); ForkUser(k, sspSeg, sspAddr).0
    case Find(segno) => LookupInv(k, segno); Lookup(k, segno).0
    case SetTable(j) => TableChangeInv(k, Some(j), k.len); Ssma(k, j)
    case SetLength(n) => TableChangeInv(k, k.cur, n); Ssml(k, n)
    case Restart => RestartInv(k); Reset(k)
  }

  lemma {:induction false} KmallocInv(k: Sys, bytes: nat)
    requires Inv(k) && SizeOk(bytes)
    ensures Inv(k.(heap := Malloc(k.heap, k.memSize / PAGE, bytes).0))
  {
    var k' := k.(heap := Malloc(k.heap, k.memSize / PAGE, bytes).0);
    MallocAddsBlock(k.heap, k.memSize / PAGE, bytes);
    PagesCover(bytes);
    forall s | 0 <= s < |k'.segs|
      ensures SegOk(k'.heap, k'.segs[s]) && RefOk(k', s) && k'.segs[s].base / PAGE < |k'.heap|
    {
      assert SegOk(k.heap, k.segs[s]) && RefOk(k, s);
    }
    forall i | 0 <= i < 16 ensures SlotOk(k', i) { assert SlotOk(k, i); }
  }

  lemma {:induction false} TableChangeInv(k: Sys, cur: Option<nat>, len: nat)
    requires Inv(k) && EmptyCache(k) && (cur.Some? ==> cur.value < |k.uareas| && len <= SLOTS)
    ensures Inv(k.(cur := cur, len := len))
  {
    var k' := k.(cur := cur, len := len);
    assert forall s :: 0 <= s < |k'.segs| ==> (RefOk(k, s) <==> RefOk(k', s));
  }

  lemma {:induction false} RestartInv(k: Sys)
    requires Inv(k)
    ensures Inv(Reset(k))
  {
    var k' := k.(cur := None, len := 0);
    assert Core(k') by {
      assert forall s :: 0 <= s < |k'.segs| ==> (RefOk(k, s) <==> RefOk(k', s));
    }
    InvalidateInv(k');
  }

  /** Power-on: an empty heap, no segments, no processes, a cleared cache. */
  function Boot(memSize: nat): Sys {
    Sys(memSize, [1], [], map[], [], [], None, 0, seq(16, _ => CSeg(0, 0, 0, 0)))
  }

  ghost predicate Runs(k: Sys, ops: seq<Op>)
    requires Inv(k)
    decreases |ops|
  {
    |ops| == 0 || (Enabled(k, ops[0]) && Runs(Step(k, ops[0]), ops[1..]))
  }

  ghost function After(k: Sys, ops: seq<Op>): (r: Sys)
    requires Inv(k) && Runs(k, ops)
    ensures Inv(r)
    decreases |ops|
  {
    if |ops| == 0 then k else After(Step(k, ops[0]), ops[1..])
  }

  lemma {:induction false} BootInv(memSize: nat)
    requires memSize >= PAGE
    ensures Inv(Boot(memSize))
  {
    assert Cell([1], 0);
  }
}
