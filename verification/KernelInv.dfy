/** The invariant of the memory manager and its preservation by every step. */
module KernelInv {
  import opened Codec
  import opened Heap
  import opened Kernel

  // ----- the invariant ---------------------------------------------------------

  /** An empty segment has no memory; any other sits in a live heap block of
      exactly the pages its size needs. */
  ghost predicate SegOk(h: seq<int>, s: SegRec) {
    var page := s.base / PAGE;
    if s.size == 0 then s.base == 0
    else (s.base == page * PAGE && page >= 1 && page in Blocks(h) && Blocks(h)[page] == Pages(s.size))
  }

  ghost predicate HeapInv(k: Sys) {
    && Tiled(k.heap)
    && |k.heap| <= k.memSize / PAGE
    && (forall s :: 0 <= s < |k.segs| ==> SegOk(k.heap, k.segs[s]))
    && (forall s, t :: 0 <= s < t < |k.segs| && k.segs[s].size > 0 && k.segs[t].size > 0
          ==> k.segs[s].base != k.segs[t].base)
  }

  /** A usable descriptor carries its segid's current base and size. */
  predicate EntOk(segs: seq<SegRec>, e: Desc) {
    (Valid(e) || Accessible(e)) ==>
      e.segid < |segs| && e.base == segs[e.segid].base && e.size == segs[e.segid].size
  }

  ghost predicate Pinned(k: Sys, sid: nat) {
    sid in k.uareas || exists j :: 0 <= j < |k.ents| && Unmarked(k.ents[j]) && k.ents[j].segid == sid
  }

  ghost predicate RefOk(k: Sys, sid: nat)
    requires sid < |k.segs|
  {
    k.segs[sid].refs >= Count(k.ents, sid) + if Pinned(k, sid) then 1 else 0
  }

  ghost predicate MapInv(k: Sys) {
    && (forall j :: 0 <= j < |k.ents| ==> EntOk(k.segs, k.ents[j]))
    && (forall s :: 0 <= s < |k.segs| ==> RefOk(k, s))
  }

  /** A process area is one page that only its own supervisor-only, unmarked
      entry reaches. */
  ghost predicate AreaInv(k: Sys) {
    && (forall u :: u in k.uareas ==> u < |k.segs| && k.segs[u].size == PAGE && k.segs[u].ino == 0)
    && (forall i, j :: 0 <= i < j < |k.uareas| ==> k.uareas[i] != k.uareas[j])
    && (forall j :: 0 <= j < |k.ents| ==> PrivateOk(k.uareas, k.ents[j]))
    && (forall ino, p :: ino in k.loaded && p in k.loaded[ino].segs ==> p.1 < |k.segs| && p.1 !in k.uareas)
  }

  predicate PrivateOk(uareas: seq<nat>, e: Desc) {
    Valid(e) || (Accessible(e) && !Bit(e.flags, SUPER)) ==> e.segid !in uareas
  }

  /** Each loaded object's count is the number of segments carrying its inode. */
  ghost predicate LoadInv(k: Sys) {
    && 0 !in k.loaded
    && (forall ino :: ino in k.loaded ==> k.loaded[ino].refs == CountIno(k.segs, ino))
    && (forall s :: 0 <= s < |k.segs| && k.segs[s].ino != 0 ==> k.segs[s].ino in k.loaded)
  }

  predicate SlotOk(k: Sys, i: nat)
    requires Shape(k) && i < 16
  {
    var c := k.cache[i];
    Bit(c.flags, VALID) ==>
      k.cur.Some? && c.seg < k.len && c.seg % 16 == i && c == Fetch(k.ents[Slot(k, c.seg)], c.seg)
  }

  ghost predicate CacheInv(k: Sys)
    requires Shape(k)
  {
    forall i :: 0 <= i < 16 ==> SlotOk(k, i)
  }

  /** All but the cache. */
  ghost predicate Core(k: Sys) {
    Shape(k) && HeapInv(k) && MapInv(k) && AreaInv(k) && LoadInv(k)
  }

  ghost predicate Inv(k: Sys) {
    Core(k) && CacheInv(k)
  }

  // ----- counting ----------------------------------------------------------------

  lemma {:induction false} CountUpdate(es: seq<Desc>, i: nat, e: Desc, sid: nat)
    requires i < |es|
    ensures Count(es[i := e], sid) + (if Names(es[i], sid) then 1 else 0)
         == Count(es, sid) + (if Names(e, sid) then 1 else 0)
    decreases |es|
  {
    var n := |es| - 1;
    if i < n {
      assert es[i := e][..n] == es[..n][i := e];
      CountUpdate(es[..n], i, e, sid);
    } else {
      assert es[i := e][..n] == es[..n];
    }
  }

  lemma {:induction false} CountPositive(es: seq<Desc>, i: nat, sid: nat)
    requires i < |es| && Names(es[i], sid)
    ensures Count(es, sid) >= 1
    decreases |es|
  {
    if i < |es| - 1 {
      CountPositive(es[..|es| - 1], i, sid);
    }
  }

  lemma {:induction false} CountNone(es: seq<Desc>, sid: nat)
    requires forall i :: 0 <= i < |es| ==> !Names(es[i], sid)
    ensures Count(es, sid) == 0
    decreases |es|
  {
    if |es| > 0 {
      CountNone(es[..|es| - 1], sid);
    }
  }

  lemma {:induction false} CountAppend(a: seq<Desc>, b: seq<Desc>, sid: nat)
    ensures Count(a + b, sid) == Count(a, sid) + Count(b, sid)
    decreases |b|
  {
    if |b| == 0 {
      assert a + b == a;
    } else {
      assert (a + b)[..|a + b| - 1] == a + b[..|b| - 1];
      CountAppend(a, b[..|b| - 1], sid);
    }
  }

  lemma {:induction false} CountInoUpdate(segs: seq<SegRec>, i: nat, s: SegRec, ino: nat)
    requires i < |segs|
    ensures CountIno(segs[i := s], ino) + (if segs[i].ino == ino then 1 else 0)
         == CountIno(segs, ino) + (if s.ino == ino then 1 else 0)
    decreases |segs|
  {
    var n := |segs| - 1;
    if i < n {
      assert segs[i := s][..n] == segs[..n][i := s];
      CountInoUpdate(segs[..n], i, s, ino);
    } else {
      assert segs[i := s][..n] == segs[..n];
    }
  }

  lemma {:induction false} CountInoPositive(segs: seq<SegRec>, i: nat, ino: nat)
    requires i < |segs| && segs[i].ino == ino
    ensures CountIno(segs, ino) >= 1
    decreases |segs|
  {
    if i < |segs| - 1 {
      CountInoPositive(segs[..|segs| - 1], i, ino);
    }
  }

  lemma {:induction false} CountInoNone(segs: seq<SegRec>, ino: nat)
    requires forall s :: 0 <= s < |segs| ==> segs[s].ino != ino
    ensures CountIno(segs, ino) == 0
    decreases |segs|
  {
    if |segs| > 0 {
      CountInoNone(segs[..|segs| - 1], ino);
    }
  }

  lemma {:induction false} CountInoPush(segs: seq<SegRec>, s: SegRec, ino: nat)
    ensures CountIno(segs + [s], ino) == CountIno(segs, ino) + if s.ino == ino then 1 else 0
  {
    assert (segs + [s])[..|segs|] == segs;
  }

  // ----- salloc and sfree -----------------------------------------------------------

  lemma {:induction false} SallocHeap(k: Sys, size: nat)
    requires Inv(k) && SizeOk(size)
    ensures var (k', sid) := Salloc(k, size);
            && HeapInv(k') && Shape(k')
            && (sid.Some? ==> sid.value == |k.segs| && |k'.segs| == |k.segs| + 1 && k'.segs[..|k.segs|] == k.segs)
  {
    var (h', base) := Malloc(k.heap, k.memSize / PAGE, size);
    MallocAddsBlock(k.heap, k.memSize / PAGE, size);
    if base != 0 {
      var k' := Salloc(k, size).0;
      var page := base / PAGE;
      forall s | 0 <= s < |k'.segs|
        ensures SegOk(k'.heap, k'.segs[s])
        ensures s < |k.segs| && k.segs[s].size > 0 ==> k.segs[s].base != base
        ensures k'.segs[s].base / PAGE < |k'.heap|
      {
        if s < |k.segs| {
          assert SegOk(k.heap, k.segs[s]);
        }
      }
    }
  }

  lemma {:induction false} SallocMaps(k: Sys, size: nat)
    requires Inv(k) && SizeOk(size) && Salloc(k, size).1.Some?
    ensures MapInv(Salloc(k, size).0)
  {
    var k', n := Salloc(k, size).0, |k.segs|;
    forall j | 0 <= j < |k.ents|
      ensures !Names(k.ents[j], n) && EntOk(k'.segs, k.ents[j])
      ensures Unmarked(k.ents[j]) ==> k.ents[j].segid != n
    {
      assert EntOk(k.segs, k.ents[j]);
    }
    CountNone(k.ents, n);
    forall s | 0 <= s < |k'.segs|
      ensures RefOk(k', s)
    {
      if s < n {
        assert RefOk(k, s);
      }
    }
  }

  lemma {:induction false} SallocLoads(k: Sys, size: nat)
    requires Inv(k) && SizeOk(size) && Salloc(k, size).1.Some?
    ensures LoadInv(Salloc(k, size).0)
  {
    var k' := Salloc(k, size).0;
    forall ino | ino in k.loaded
      ensures k.loaded[ino].refs == CountIno(k'.segs, ino)
    {
      CountInoPush(k.segs, k'.segs[|k.segs|], ino);
    }
  }

  lemma {:induction false} SallocInv(k: Sys, size: nat)
    requires Inv(k) && SizeOk(size)
    ensures Inv(Salloc(k, size).0)
  {
    var (k', sid) := Salloc(k, size);
    if sid.Some? {
      SallocHeap(k, size);
      SallocMaps(k, size);
      SallocLoads(k, size);
      assert CacheInv(k') by {
        forall i | 0 <= i < 16 ensures SlotOk(k', i) { assert SlotOk(k, i); }
      }
    }
  }

  lemma {:induction false} SfreeHeap(k: Sys, sid: nat)
    requires Shape(k) && HeapInv(k)
    ensures HeapInv(Sfree(k, sid))
    ensures sid < |k.segs| && k.segs[sid].size > 0 ==>
              Blocks(Sfree(k, sid).heap) == Blocks(k.heap) - {k.segs[sid].base / PAGE}
    ensures sid < |k.segs| && k.segs[sid].size == 0 ==> Sfree(k, sid).heap == k.heap
  {
    if sid < |k.segs| {
      var k' := Sfree(k, sid);
      var base := k.segs[sid].base;
      assert SegOk(k.heap, k.segs[sid]);
      if k.segs[sid].size > 0 {
        FreeRemovesBlock(k.heap, base);
      } else {
        FreeElsewhere(k.heap, base);
      }
      forall s | 0 <= s < |k'.segs|
        ensures SegOk(k'.heap, k'.segs[s])
      {
        assert SegOk(k.heap, k.segs[s]);
        if s != sid && k.segs[s].size > 0 && k.segs[sid].size > 0 {
          assert k.segs[s].base != base;
        }
      }
    }
  }

  /** sfree keeps the object counts exact, and erases an object exactly when it
      takes away the last segment that carried its inode. */
  lemma {:induction false} SfreeLoad(k: Sys, sid: nat)
    requires Shape(k) && LoadInv(k)
    ensures LoadInv(Sfree(k, sid))
    ensures var k' := Sfree(k, sid);
            k'.loaded.Keys <= k.loaded.Keys
            && forall ino :: ino in k.loaded ==>
                 (ino !in k'.loaded <==> CountIno(k.segs, ino) == 1 && CountIno(k'.segs, ino) == 0)
  {
    if sid < |k.segs| {
      var k' := Sfree(k, sid);
      var gone := k.segs[sid].ino;
      forall ino | ino in k.loaded
        ensures CountIno(k'.segs, ino) == CountIno(k.segs, ino) - if ino == gone then 1 else 0
      {
        CountInoUpdate(k.segs, sid, k'.segs[sid], ino);
      }
      if gone != 0 {
        CountInoPositive(k.segs, sid, gone);
        forall s | 0 <= s < |k'.segs| && k'.segs[s].ino != 0
          ensures k'.segs[s].ino in k'.loaded
        {
          if k'.segs[s].ino == gone {
            CountInoPositive(k'.segs, s, gone);
          }
        }
      }
    }
  }

  // ----- one reference less, one reference more ---------------------------------------

  /** Replace entry `j` of the tables. */
  function SetEnt(k: Sys, j: nat, e: Desc): Sys
    requires j < |k.ents|
  {
    k.(ents := k.ents[j := e])
  }

  /** The state with entry `j` replaced and one reference fewer. */
  function Dropped(k: Sys, j: nat, e: Desc): Sys
    requires j < |k.ents| && k.ents[j].segid < |k.segs| && k.segs[k.ents[j].segid].refs >= 1
  {
    var sid := k.ents[j].segid;
    SetEnt(k.(segs := k.segs[sid := k.segs[sid].(refs := k.segs[sid].refs - 1)]), j, e)
  }

  lemma {:induction false} DropCounts(k: Sys, j: nat, e: Desc)
    requires MapInv(k) && j < |k.ents| && Valid(k.ents[j]) && !Valid(e) && !Accessible(e)
    ensures k.ents[j].segid < |k.segs| && k.segs[k.ents[j].segid].refs >= 1 && MapInv(Dropped(k, j, e))
  {
    var sid := k.ents[j].segid;
    assert EntOk(k.segs, k.ents[j]);
    CountPositive(k.ents, j, sid);
    assert RefOk(k, sid);
    var k' := Dropped(k, j, e);
    forall s | 0 <= s < |k'.segs|
      ensures RefOk(k', s)
    {
      assert RefOk(k, s);
      CountUpdate(k.ents, j, e, s);
      if Pinned(k', s) && s !in k'.uareas {
        var i :| 0 <= i < |k'.ents| && Unmarked(k'.ents[i]) && k'.ents[i].segid == s;
        assert Unmarked(k.ents[i]);
      }
    }
    forall i | 0 <= i < |k'.ents|
      ensures EntOk(k'.segs, k'.ents[i])
    {
      assert EntOk(k.segs, k.ents[i]);
    }
  }

  /** munmap on entry `j`, up to the freeing of the segid: the reference count
      covers the mappings that remain. */
  lemma {:induction false} DropInv(k: Sys, j: nat, e: Desc)
    requires Core(k)
    requires j < |k.ents| && Valid(k.ents[j]) && !Valid(e) && !Accessible(e)
    ensures k.ents[j].segid < |k.segs| && k.segs[k.ents[j].segid].refs >= 1 && Core(Dropped(k, j, e))
  {
    var sid := k.ents[j].segid;
    DropCounts(k, j, e);
    assert PrivateOk(k.uareas, k.ents[j]);
    ReferenceChange(k, sid, k.segs[sid].refs - 1);
    forall i | 0 <= i < |k.ents|
      ensures PrivateOk(k.uareas, Dropped(k, j, e).ents[i])
    {
      assert PrivateOk(k.uareas, k.ents[i]);
    }
  }

  lemma {:induction false} SfreeCommutes(k: Sys, sid: nat, j: nat, e: Desc)
    requires Shape(k) && j < |k.ents|
    ensures Sfree(SetEnt(k, j, e), sid) == SetEnt(Sfree(k, sid), j, e)
  {
  }

  /** munmap on entry `j` as a whole. */
  lemma {:induction false} ReleaseInv(k: Sys, j: nat, e: Desc)
    requires Core(k)
    requires j < |k.ents| && Valid(k.ents[j]) && !Valid(e) && !Accessible(e)
    ensures k.ents[j].segid < |k.segs| && Core(SetEnt(Release(k, k.ents[j].segid), j, e))
  {
    DropInv(k, j, e);
    var sid := k.ents[j].segid;
    var refs := k.segs[sid].refs - 1;
    var k1 := k.(segs := k.segs[sid := k.segs[sid].(refs := refs)]);
    if refs == 0 {
      UnusedSfree(SetEnt(k1, j, e), sid);
      SfreeCommutes(k1, sid, j, e);
      assert Release(k, sid) == Sfree(k1, sid);
    } else {
      assert Release(k, sid) == k1;
    }
  }

  /** Changing a reference count alone disturbs nothing but the counts. */
  lemma {:induction false} ReferenceChange(k: Sys, sid: nat, refs: nat)
    requires Shape(k) && HeapInv(k) && LoadInv(k) && sid < |k.segs|
    ensures var k' := k.(segs := k.segs[sid := k.segs[sid].(refs := refs)]);
            HeapInv(k') && LoadInv(k') && Shape(k')
  {
    var k' := k.(segs := k.segs[sid := k.segs[sid].(refs := refs)]);
    forall s | 0 <= s < |k'.segs|
      ensures SegOk(k'.heap, k'.segs[s])
    {
      assert SegOk(k.heap, k.segs[s]);
    }
    forall ino | ino in k.loaded
      ensures CountIno(k'.segs, ino) == CountIno(k.segs, ino)
    {
      CountInoUpdate(k.segs, sid, k'.segs[sid], ino);
    }
  }

  /** Freeing a segid whose count is zero: no usable descriptor names it. */
  lemma {:induction false} UnusedSfree(k: Sys, sid: nat)
    requires Core(k)
    requires sid < |k.segs| && k.segs[sid].refs == 0
    ensures var k' := Sfree(k, sid); Core(k')
  {
    var k' := Sfree(k, sid);
    SfreeHeap(k, sid);
    SfreeLoad(k, sid);
    assert RefOk(k, sid) && !Pinned(k, sid);
    forall i | 0 <= i < |k.ents|
      ensures EntOk(k'.segs, k'.ents[i])
    {
      assert EntOk(k.segs, k.ents[i]);
      if k.ents[i].segid == sid {
        if Valid(k.ents[i]) {
          CountPositive(k.ents, i, sid);
        }
        assert !Unmarked(k.ents[i]);
      }
    }
    forall s | 0 <= s < |k'.segs|
      ensures RefOk(k', s)
    {
      assert RefOk(k, s);
      assert Pinned(k', s) == Pinned(k, s);
    }
    forall ino, p | ino in k'.loaded && p in k'.loaded[ino].segs
      ensures p.1 < |k'.segs| && p.1 !in k'.uareas
    {
      assert p in k.loaded[ino].segs;
    }
  }

  /** Adding a reference together with the entry that uses it. */
  lemma {:induction false} AcquireInv(k: Sys, j: nat, sid: nat, e: Desc)
    requires Core(k)
    requires j < |k.ents| && !Valid(k.ents[j]) && sid < |k.segs| && sid !in k.uareas
    requires Valid(e) && e.segid == sid && e.base == k.segs[sid].base && e.size == k.segs[sid].size
    ensures var k' := SetEnt(k.(segs := k.segs[sid := k.segs[sid].(refs := k.segs[sid].refs + 1)]), j, e);
            Core(k')
  {
    ReferenceChange(k, sid, k.segs[sid].refs + 1);
    var k' := SetEnt(k.(segs := k.segs[sid := k.segs[sid].(refs := k.segs[sid].refs + 1)]), j, e);
    forall s | 0 <= s < |k'.segs|
      ensures RefOk(k', s)
    {
      assert RefOk(k, s);
      CountUpdate(k.ents, j, e, s);
      if Pinned(k', s) && s !in k'.uareas {
        var i :| 0 <= i < |k'.ents| && Unmarked(k'.ents[i]) && k'.ents[i].segid == s;
        assert Unmarked(k.ents[i]);
      }
    }
    forall i | 0 <= i < |k'.ents|
      ensures EntOk(k'.segs, k'.ents[i]) && PrivateOk(k'.uareas, k'.ents[i])
    {
      assert EntOk(k.segs, k.ents[i]) && PrivateOk(k.uareas, k.ents[i]);
    }
  }
}
