/** No memory is lost and every reference is accounted for, over every run. */
module Ledger {
  import opened Codec
  import opened Heap
  import opened Kernel
  import opened KernelInv
  import opened KernelRun

  // ----- the accounts ---------------------------------------------------------------

  /** The first pages of the segments that have memory. */
  ghost function SegPages(segs: seq<SegRec>): set<int> {
    set s | 0 <= s < |segs| && segs[s].size > 0 :: segs[s].base / PAGE
  }

  /** The live blocks that no segment has. */
  ghost function Unowned(k: Sys): set<int> {
    Blocks(k.heap).Keys - SegPages(k.segs)
  }

  /** References beyond the VALID entries that name a segid. */
  function Extra(k: Sys, s: nat): int
    requires s < |k.segs|
  {
    k.segs[s].refs - Count(k.ents, s)
  }

  /** Segments with a reference to spare keep their memory. */
  ghost predicate Spared(k: Sys, r: Sys) {
    && |k.segs| <= |r.segs|
    && forall s :: 0 <= s < |k.segs| && Extra(k, s) >= 1 ==>
         r.segs[s].base == k.segs[s].base && r.segs[s].size == k.segs[s].size
  }

  /** From `k` to `r` no block changes between owned and unowned, and references go
      with VALID entries, except that each segid of `lent` has one more. */
  ghost predicate Balances(k: Sys, r: Sys, lent: set<nat>) {
    && |k.segs| <= |r.segs| && Unowned(r) == Unowned(k) && Spared(k, r)
    && forall s :: 0 <= s < |r.segs| ==>
         Extra(r, s) == (if s < |k.segs| then Extra(k, s) else 0) + (if s in lent then 1 else 0)
  }

  lemma {:induction false} Stays(k: Sys, r: Sys)
    requires r.heap == k.heap && r.segs == k.segs && r.ents == k.ents
    ensures Balances(k, r, {})
  {
  }

  lemma {:induction false} Compose(a: Sys, b: Sys, c: Sys, l: set<nat>, m: set<nat>)
    requires Balances(a, b, l) && Balances(b, c, m) && l !! m && forall s :: s in m ==> s < |c.segs|
    requires forall s :: s in l ==> s < |b.segs|
    ensures Balances(a, c, l + m)
  {
  }

  // ----- salloc and sfree -------------------------------------------------------------

  lemma {:induction false} SallocBalances(k: Sys, size: nat)
    requires Inv(k) && SizeOk(size)
    ensures Balances(k, Salloc(k, size).0, {})
  {
    var (r, sid) := Salloc(k, size);
    if sid.None? {
      Stays(k, r);
    } else {
      MallocAddsBlock(k.heap, k.memSize / PAGE, size);
      NewPage(k.segs, r.segs[|k.segs|]);
      forall j | 0 <= j < |k.ents|
        ensures !Names(k.ents[j], |k.segs|)
      {
        assert EntOk(k.segs, k.ents[j]);
      }
      CountNone(k.ents, |k.segs|);
    }
  }

  lemma {:induction false} NewPage(segs: seq<SegRec>, s: SegRec)
    requires s.size > 0
    ensures SegPages(segs + [s]) == SegPages(segs) + {s.base / PAGE}
  {
    var t := segs + [s];
    assert t[|segs|] == s;
    assert forall i :: 0 <= i < |segs| ==> t[i] == segs[i];
    forall p | p in SegPages(segs)
      ensures p in SegPages(t)
    {
      var i :| 0 <= i < |segs| && segs[i].size > 0 && segs[i].base / PAGE == p;
      assert t[i].size > 0 && t[i].base / PAGE == p;
    }
  }

  lemma {:induction false} SamePages(segs: seq<SegRec>, segs': seq<SegRec>)
    requires |segs| == |segs'|
    requires forall s :: 0 <= s < |segs| ==> segs'[s].base == segs[s].base && segs'[s].size == segs[s].size
    ensures SegPages(segs') == SegPages(segs)
  {
  }

  /** sfree gives a segment's block back, and its page to nobody. */
  lemma {:induction false} SfreeBalances(k: Sys, sid: nat)
    requires Shape(k) && HeapInv(k) && sid < |k.segs| && k.segs[sid].refs == 0
    ensures Balances(k, Sfree(k, sid), {})
  {
    var r := Sfree(k, sid);
    SfreeHeap(k, sid);
    if k.segs[sid].size > 0 {
      LostPage(k, sid);
    } else {
      SamePages(k.segs, r.segs);
    }
  }

  lemma {:induction false} LostPage(k: Sys, sid: nat)
    requires HeapInv(k) && sid < |k.segs| && k.segs[sid].size > 0
    ensures SegPages(k.segs[sid := k.segs[sid].(base := 0, size := 0, ino := 0)])
         == SegPages(k.segs) - {k.segs[sid].base / PAGE}
  {
    var t := k.segs[sid := k.segs[sid].(base := 0, size := 0, ino := 0)];
    var p := k.segs[sid].base / PAGE;
    forall s | 0 <= s < |t| && t[s].size > 0
      ensures t[s].base / PAGE != p
    {
      assert SegOk(k.heap, k.segs[s]) && SegOk(k.heap, k.segs[sid]);
      assert k.segs[s].base != k.segs[sid].base;
    }
    forall q | q in SegPages(k.segs) && q != p
      ensures q in SegPages(t)
    {
      var i :| 0 <= i < |k.segs| && k.segs[i].size > 0 && k.segs[i].base / PAGE == q;
      assert t[i] == k.segs[i];
    }
  }

  // ----- mmap and munmap ---------------------------------------------------------------

  /** munmap of a VALID entry: its segid loses exactly one reference, no other does,
      and with the last one exactly its block goes. */
  lemma {:induction false} MunmapFrees(k: Sys, segno: nat)
    requires Inv(k) && k.cur.Some? && segno < k.len && Valid(k.ents[Slot(k, segno)])
    ensures var e, r := k.ents[Slot(k, segno)], Munmap(k, segno).0;
            && e.segid < |k.segs| && k.segs[e.segid].refs >= 1
            && r.ents == k.ents[Slot(k, segno) := e.(size := 0, flags := 0)]
            && (forall s :: 0 <= s < |k.segs| && s != e.segid ==> r.segs[s] == k.segs[s])
            && r.segs[e.segid].refs == k.segs[e.segid].refs - 1
            && (if k.segs[e.segid].refs == 1 && k.segs[e.segid].size > 0 then
                  Blocks(r.heap) == Blocks(k.heap) - {k.segs[e.segid].base / PAGE} && r.segs[e.segid].size == 0
                else r.heap == k.heap)
            && (k.segs[e.segid].refs > 1 ==> r.segs[e.segid] == k.segs[e.segid].(refs := k.segs[e.segid].refs - 1))
  {
    var j := Slot(k, segno);
    var e := k.ents[j];
    DropCounts(k, j, e.(size := 0, flags := 0));
    var k1 := k.(segs := k.segs[e.segid := k.segs[e.segid].(refs := k.segs[e.segid].refs - 1)]);
    ReferenceChange(k, e.segid, k.segs[e.segid].refs - 1);
    SfreeHeap(k1, e.segid);
  }

  /** ... and of any other entry nothing does. */
  lemma {:induction false} MunmapElsewhere(k: Sys, segno: nat)
    requires Inv(k) && !(k.cur.Some? && segno < k.len && Valid(k.ents[Slot(k, segno)]))
    ensures Munmap(k, segno).0 == k
  {
  }

  lemma {:induction false} MunmapBalances(k: Sys, segno: nat)
    requires Inv(k)
    ensures Balances(k, Munmap(k, segno).0, {})
  {
    if k.cur.Some? && segno < k.len && Valid(k.ents[Slot(k, segno)]) {
      var j := Slot(k, segno);
      var e := k.ents[j];
      var gone := e.(size := 0, flags := 0);
      DropCounts(k, j, gone);
      var refs := k.segs[e.segid].refs - 1;
      ReferenceChange(k, e.segid, refs);
      var k1 := k.(segs := k.segs[e.segid := k.segs[e.segid].(refs := refs)]);
      SamePages(k.segs, k1.segs);
      if refs == 0 {
        SfreeBalances(k1, e.segid);
      }
      MunmapFrees(k, segno);
      MunmapExtra(k, segno);
    } else {
      MunmapElsewhere(k, segno);
      Stays(k, k);
    }
  }

  lemma {:induction false} MunmapExtra(k: Sys, segno: nat)
    requires Inv(k) && k.cur.Some? && segno < k.len && Valid(k.ents[Slot(k, segno)])
    ensures var r := Munmap(k, segno).0; forall s :: 0 <= s < |r.segs| ==> Extra(r, s) == Extra(k, s)
  {
    var r, j := Munmap(k, segno).0, Slot(k, segno);
    MunmapFrees(k, segno);
    forall s | 0 <= s < |r.segs|
      ensures Extra(r, s) == Extra(k, s)
    {
      CountUpdate(k.ents, j, r.ents[j], s);
    }
  }

  /** mmap into an entry that is not VALID: one more reference, for the segid mapped. */
  lemma {:induction false} InstallBalances(k: Sys, sid: nat, segno: nat)
    requires Inv(k) && k.cur.Some? && segno < k.len && sid < |k.segs| && !Valid(k.ents[Slot(k, segno)])
    ensures Balances(k, Install(k, sid, segno), {})
  {
    var r, j := Install(k, sid, segno), Slot(k, segno);
    MappingFlags(k.segs[sid].(refs := k.segs[sid].refs + 1), sid);
    SamePages(k.segs, r.segs);
    forall s | 0 <= s < |r.segs|
      ensures Extra(r, s) == Extra(k, s)
    {
      CountUpdate(k.ents, j, r.ents[j], s);
    }
  }

  lemma {:induction false} MmapBalances(k: Sys, sid: nat, segno: nat)
    requires Inv(k) && sid !in k.uareas
    ensures Balances(k, Mmap(k, sid, segno).0, {})
  {
    if k.cur.Some? && segno < k.len && sid < |k.segs| {
      var was := k.ents[Slot(k, segno)];
      if !Valid(was) {
        InstallBalances(k, sid, segno);
      } else if segno != 4 {
        MunmapInv(k, segno);
        MunmapBalances(k, segno);
        InstallBalances(Munmap(k, segno).0, sid, segno);
        Compose(k, Munmap(k, segno).0, Mmap(k, sid, segno).0, {}, {});
      } else {
        Stays(k, k);
      }
    } else {
      Stays(k, k);
    }
  }

  lemma {:induction false} OneBalances(k: Sys, freed: bool, segno: nat)
    requires Inv(k)
    ensures var k1 := if freed then Munmap(k, segno).0 else k; Inv(k1) && Balances(k, k1, {})
  {
    if freed {
      MunmapInv(k, segno);
      MunmapBalances(k, segno);
    } else {
      Stays(k, k);
    }
  }

  lemma {:induction false} FreeSegsBalances(k: Sys, everything: bool, from: nat)
    requires Inv(k)
    ensures Balances(k, FreeSegs(k, everything, from), {})
    decreases k.len - from
  {
    if k.cur.Some? && from < k.len {
      var k1 := if everything || from != 4 then Munmap(k, from).0 else k;
      OneBalances(k, everything || from != 4, from);
      FreeSegsBalances(k1, everything, from + 1);
      Compose(k, k1, FreeSegs(k, everything, from), {}, {});
    } else {
      Stays(k, k);
    }
  }

  // ----- load and exec -------------------------------------------------------------------

  lemma {:induction false} LoadSegBalances(k: Sys, ino: nat, o: ObjSeg)
    requires Inv(k) && ino in k.loaded && (o.size > 0 ==> SizeOk(o.size))
    ensures Balances(k, LoadSeg(k, ino, o).0, {})
  {
    if o.size > 0 {
      SallocBalances(k, o.size);
      var k1 := Salloc(k, o.size).0;
      SamePages(k1.segs, LoadSeg(k, ino, o).0.segs);
    } else {
      Stays(k, k);
    }
  }

  lemma {:induction false} LoadSegsBalances(k: Sys, ino: nat, osegs: seq<ObjSeg>)
    requires Inv(k) && ino in k.loaded && ObjOk(osegs)
    ensures Balances(k, LoadSegs(k, ino, osegs).0, {})
    decreases |osegs|
  {
    if |osegs| > 0 {
      LoadSegInv(k, ino, osegs[0]);
      LoadSegBalances(k, ino, osegs[0]);
      var (k1, err) := LoadSeg(k, ino, osegs[0]);
      if err == Done {
        LoadSegsBalances(k1, ino, osegs[1..]);
        Compose(k, k1, LoadSegs(k, ino, osegs).0, {}, {});
      }
    } else {
      Stays(k, k);
    }
  }

  lemma {:induction false} LoadBalances(k: Sys, ino: nat, osegs: seq<ObjSeg>)
    requires Inv(k) && ino != 0 && ObjOk(osegs)
    ensures Balances(k, Load(k, ino, osegs).0, {})
  {
    Stays(k, Registered(k, ino));
    if ino !in k.loaded {
      RegisteredInv(k, ino);
      LoadSegsBalances(Registered(k, ino), ino, osegs);
      Compose(k, Registered(k, ino), Load(k, ino, osegs).0, {}, {});
    }
  }

  /** The page that exec takes for its stack: its entry is not VALID. */
  lemma {:induction false} MapStackBalances(k: Sys)
    requires Inv(k) && k.cur.Some? && k.len >= 5
    ensures Balances(k, MapStack(k).0, if MapStack(k).1 == Done then {|k.segs|} else {})
    ensures MapStack(k).1 == Done ==> |k.segs| < |MapStack(k).0.segs|
  {
    var (k1, sid) := Salloc(k, PAGE);
    SallocInv(k, PAGE);
    SallocBalances(k, PAGE);
    if sid.Some? {
      FreshUnpinned(k, k1);
      MmapBalances(k1, sid.value, 0);
      MmapResult(k1, sid.value, 0);
      var k2 := Mmap(k1, sid.value, 0).0;
      Compose(k, k1, k2, {}, {});
      MappingFlags(k2.segs[sid.value], sid.value);
      Unmarks(k2, Slot(k2, 0));
      Compose(k, k2, MapStack(k).0, {}, {|k.segs|});
    }
  }

  lemma {:induction false} Unmarks(k: Sys, j: nat)
    requires j < |k.ents| && Valid(k.ents[j])
    ensures var sid := k.ents[j].segid;
            Balances(k, SetEnt(k, j, k.ents[j].(flags := READ + WRITE)), {sid})
  {
    var e := k.ents[j].(flags := READ + WRITE);
    forall s | 0 <= s < |k.segs|
      ensures Extra(SetEnt(k, j, e), s) == Extra(k, s) + if s == k.ents[j].segid then 1 else 0
    {
      CountUpdate(k.ents, j, e, s);
    }
  }

  lemma {:induction false} MapAllBalances(k: Sys, ms: seq<(nat, nat)>)
    requires Inv(k) && forall p :: p in ms ==> p.1 !in k.uareas
    ensures Balances(k, MapAll(k, ms).0, {})
    decreases |ms|
  {
    if |ms| > 0 {
      assert ms[0] in ms;
      MmapInv(k, ms[0].1, ms[0].0);
      MmapBalances(k, ms[0].1, ms[0].0);
      var (k1, err) := Mmap(k, ms[0].1, ms[0].0);
      if err == Done {
        MapAllBalances(k1, ms[1..]);
        Compose(k, k1, MapAll(k, ms).0, {}, {});
      }
    } else {
      Stays(k, k);
    }
  }

  lemma {:induction false} LoadAndMapBalances(k: Sys, ino: nat, osegs: seq<ObjSeg>)
    requires Inv(k) && ino != 0 && ObjOk(osegs)
    ensures Balances(k, LoadAndMap(k, ino, osegs).0, {})
  {
    LoadKeepsInv(k, ino, osegs);
    LoadBalances(k, ino, osegs);
    var (k2, err2) := Load(k, ino, osegs);
    if err2 == Done {
      MapAllBalances(k2, k2.loaded[ino].segs);
      Compose(k, k2, LoadAndMap(k, ino, osegs).0, {}, {});
    }
  }

  /** The stack page of an exec that comes to it. */
  ghost function StackOf(k: Sys): set<nat>
    requires Shape(k)
  {
    if k.cur.Some? && k.len >= 5 && BeforeLoad(k).1 == Done then {|k.segs|} else {}
  }

  lemma {:induction false} BeforeLoadBalances(k: Sys)
    requires Inv(k) && k.cur.Some? && k.len >= 5
    ensures Balances(k, BeforeLoad(k).0, StackOf(k))
    ensures forall s :: s in StackOf(k) ==> |k.segs| <= s < |BeforeLoad(k).0.segs|
  {
    var k0 := FreeSegs(k, false, 0);
    FreeSegsInv(k, false, 0);
    FreeSegsBalances(k, false, 0);
    MapStackBalances(k0);
    Compose(k, k0, BeforeLoad(k).0, {}, StackOf(k));
  }

  lemma {:induction false} ExecBalances(k: Sys, ino: nat, osegs: seq<ObjSeg>)
    requires Inv(k) && ino != 0 && ObjOk(osegs)
    ensures Balances(k, Exec(k, ino, osegs).0, StackOf(k))
    ensures forall s :: s in StackOf(k) ==> |k.segs| <= s < |Exec(k, ino, osegs).0.segs|
  {
    if k.cur.Some? && k.len >= 5 {
      var k1 := BeforeLoad(k).0;
      BeforeLoadBalances(k);
      BeforeLoadInv(k);
      if BeforeLoad(k).1 == Done {
        LoadAndMapBalances(k1, ino, osegs);
        Compose(k, k1, Exec(k, ino, osegs).0, StackOf(k), {});
      }
    } else {
      Stays(k, k);
    }
  }

  // ----- fork ------------------------------------------------------------------------------

  /** The page of a new process area: its entry is not VALID either. */
  ghost function AreaOf(k: Sys): set<nat>
    requires Shape(k)
  {
    if Salloc(k, PAGE).1.Some? then {|k.segs|} else {}
  }

  /** A new table, and as many references as it has VALID entries. */
  lemma {:induction false} TableBalances(k: Sys, child: seq<Desc>, r: Sys)
    requires Inv(k) && Salloc(k, PAGE).1.Some?
    requires var k1 := Salloc(k, PAGE).0;
             && r.heap == k1.heap && r.ents == k.ents + child && |r.segs| == |k1.segs|
             && forall s :: 0 <= s < |r.segs| ==>
                  r.segs[s] == k1.segs[s].(refs := (if s == |k.segs| then 1 else k1.segs[s].refs) + Count(child, s))
    ensures Balances(k, r, {|k.segs|})
  {
    var k1 := Salloc(k, PAGE).0;
    SallocBalances(k, PAGE);
    SamePages(k1.segs, r.segs);
    forall s | 0 <= s < |r.segs|
      ensures Extra(r, s) == Extra(k1, s) + if s == |k.segs| then 1 else 0
    {
      CountAppend(k.ents, child, s);
    }
  }

  lemma {:induction false} ForkSuperBalances(k: Sys, stale: seq<Desc>)
    requires Inv(k) && |stale| == SLOTS
    ensures Balances(k, ForkSuper(k, stale).0, AreaOf(k))
  {
    var t := seq(SLOTS, i requires 0 <= i < SLOTS => stale[i].(flags := 0));
    var (k1, useg) := Salloc(k, PAGE);
    if useg.Some? {
      var n := |k.segs|;
      var child := t[4 := AreaEntry(k1.segs[n].base, n)];
      forall s | 0 <= s < n + 1
        ensures Count(child, s) == 0
      {
        CountNone(child, s);
      }
      TableBalances(k, child, ForkSuper(k, stale).0);
    } else {
      Stays(k, k);
    }
  }

  lemma {:induction false} ChildBalances(k: Sys)
    requires Inv(k) && k.cur.Some? && Salloc(k, PAGE).1.Some?
    ensures Balances(k, Child(k), {|k.segs|})
  {
    var t := CurTable(k);
    var k1 := Salloc(k, PAGE).0;
    var n := |k.segs|;
    var copy := seq(SLOTS, i requires 0 <= i < SLOTS => CopyEnt(t[i]));
    var child := copy[4 := AreaEntry(k1.segs[n].base, n)];
    ForkCounts(k, t, child, NewArea(k, copy).0.segs);
    TableBalances(k, child, Child(k));
  }

  lemma {:induction false} ForkUserBalances(k: Sys, sspSeg: nat, sspAddr: nat)
    requires Inv(k) && k.cur.Some?
    ensures Balances(k, ForkUser(k, sspSeg, sspAddr).0, AreaOf(k))
  {
    if Salloc(k, PAGE).1.Some? {
      ChildBalances(k);
      var r := ForkUser(k, sspSeg, sspAddr).0;
      Stays(Child(k), r);
      Compose(k, Child(k), r, AreaOf(k), {});
    } else {
      Stays(k, k);
    }
  }

  // ----- every run -------------------------------------------------------------------------

  /** The segids whose page an operation takes for an area or a stack. */
  ghost function Lent(k: Sys, op: Op): set<nat>
    requires Inv(k) && Enabled(k, op)
  {
    match op
    case Execute(_, _) => StackOf(k)
    case ForkFirst(_) => AreaOf(k)
    case ForkProcess(_, _) => AreaOf(k)
    case _ => {}
  }

  /** The page of a block that an operation takes for no segment. */
  ghost function RawPage(k: Sys, op: Op): set<int> {
    if op.Kmalloc? && Malloc(k.heap, k.memSize / PAGE, op.bytes).1 != 0 then
      {Malloc(k.heap, k.memSize / PAGE, op.bytes).1 / PAGE}
    else {}
  }

  lemma {:induction false} KmallocBalances(k: Sys, bytes: nat)
    requires Inv(k) && SizeOk(bytes)
    ensures Unowned(KernelRun.Step(k, Op.Kmalloc(bytes))) == Unowned(k) + RawPage(k, Op.Kmalloc(bytes))
  {
    MallocAddsBlock(k.heap, k.memSize / PAGE, bytes);
    forall s | 0 <= s < |k.segs| && k.segs[s].size > 0
      ensures k.segs[s].base / PAGE in Blocks(k.heap)
    {
      assert SegOk(k.heap, k.segs[s]);
    }
  }

  /** What one operation does to the accounts. */
  ghost predicate Accounts(k: Sys, r: Sys, raw: set<int>, lent: set<nat>) {
    && |k.segs| <= |r.segs| && Unowned(r) == Unowned(k) + raw && Spared(k, r)
    && (forall s :: s in lent ==> |k.segs| <= s < |r.segs|)
    && forall s :: 0 <= s < |r.segs| ==>
         Extra(r, s) == (if s < |k.segs| then Extra(k, s) else 0) + (if s in lent then 1 else 0)
  }

  lemma {:induction false} Booked(k: Sys, r: Sys, lent: set<nat>)
    requires Balances(k, r, lent) && forall s :: s in lent ==> |k.segs| <= s < |r.segs|
    ensures Accounts(k, r, {}, lent)
  {
  }

  lemma {:induction false} ForkAccounts(k: Sys, op: Op)
    requires Inv(k) && Enabled(k, op) && (op.ForkFirst? || op.ForkProcess?)
    ensures Accounts(k, KernelRun.Step(k, op), {}, Lent(k, op))
  {
    var r := KernelRun.Step(k, op);
    match op
    case ForkFirst(stale) =>
      ForkSuperBalances(k, stale);
      Booked(k, r, AreaOf(k));
    case ForkProcess(sspSeg, sspAddr) =>
      ForkUserBalances(k, sspSeg, sspAddr);
      Booked(k, r, AreaOf(k));
  }

  lemma {:induction false} LoadingAccounts(k: Sys, op: Op)
    requires Inv(k) && Enabled(k, op) && (op.LoadObject? || op.Execute?)
    ensures Accounts(k, KernelRun.Step(k, op), {}, Lent(k, op))
  {
    var r := KernelRun.Step(k, op);
    match op
    case LoadObject(ino, osegs) =>
      LoadBalances(k, ino, osegs);
      Booked(k, r, {});
    case Execute(ino, osegs) =>
      ExecBalances(k, ino, osegs);
      Booked(k, r, StackOf(k));
  }

  lemma {:induction false} MappingAccounts(k: Sys, op: Op)
    requires Inv(k) && Enabled(k, op) && (op.Map? || op.Unmap? || op.Unmapall? || op.Allocate?)
    ensures Accounts(k, KernelRun.Step(k, op), {}, {})
  {
    match op {
      case Allocate(size) => SallocBalances(k, size);
      case Map(sid, segno) => MmapBalances(k, sid, segno);
      case Unmap(segno) => MunmapBalances(k, segno);
      case Unmapall(everything) => FreeSegsBalances(k, everything, 0);
    }
    Booked(k, KernelRun.Step(k, op), {});
  }

  lemma {:induction false} TableAccounts(k: Sys, op: Op)
    requires Inv(k) && Enabled(k, op) && (op.Find? || op.SetTable? || op.SetLength? || op.Restart?)
    ensures Accounts(k, KernelRun.Step(k, op), {}, {})
  {
    Stays(k, KernelRun.Step(k, op));
    Booked(k, KernelRun.Step(k, op), {});
  }

  lemma {:induction false} StepAccounts(k: Sys, op: Op)
    requires Inv(k) && Enabled(k, op)
    ensures Accounts(k, KernelRun.Step(k, op), RawPage(k, op), Lent(k, op))
  {
    if op.Kmalloc? {
      KmallocBalances(k, op.bytes);
    } else if op.ForkFirst? || op.ForkProcess? {
      ForkAccounts(k, op);
    } else if op.LoadObject? || op.Execute? {
      LoadingAccounts(k, op);
    } else if op.Map? || op.Unmap? || op.Unmapall? || op.Allocate? {
      MappingAccounts(k, op);
    } else {
      TableAccounts(k, op);
    }
  }

  ghost function RawPages(k: Sys, ops: seq<Op>): set<int>
    requires Inv(k) && Runs(k, ops)
    decreases |ops|
  {
    if |ops| == 0 then {} else RawPage(k, ops[0]) + RawPages(KernelRun.Step(k, ops[0]), ops[1..])
  }

  ghost function LentBy(k: Sys, ops: seq<Op>): set<nat>
    requires Inv(k) && Runs(k, ops)
    decreases |ops|
  {
    if |ops| == 0 then {} else Lent(k, ops[0]) + LentBy(KernelRun.Step(k, ops[0]), ops[1..])
  }

  lemma {:induction false} RunAccounts(k: Sys, ops: seq<Op>)
    requires Inv(k) && Runs(k, ops)
    ensures Accounts(k, After(k, ops), RawPages(k, ops), LentBy(k, ops))
    decreases |ops|
  {
    if |ops| > 0 {
      var k1 := KernelRun.Step(k, ops[0]);
      StepAccounts(k, ops[0]);
      RunAccounts(k1, ops[1..]);
      Add(k, k1, After(k1, ops[1..]), RawPage(k, ops[0]), Lent(k, ops[0]), RawPages(k1, ops[1..]),
          LentBy(k1, ops[1..]));
    }
  }

  lemma {:induction false} Add(a: Sys, b: Sys, c: Sys, raw: set<int>, lent: set<nat>, raw': set<int>, lent': set<nat>)
    requires Accounts(a, b, raw, lent) && Accounts(b, c, raw', lent')
    ensures Accounts(a, c, raw + raw', lent + lent')
  {
  }

  /** After every run from power-on: the live blocks are page 0, those of raw kmalloc,
      and one for every segment that has memory, which is no other's; and a segid has
      exactly one reference for each VALID entry of any table that names it, and one
      more if it is a process area or was taken for the stack of an exec. */
  lemma {:induction false} LedgerAlways(memSize: nat, ops: seq<Op>)
    requires memSize >= PAGE
    ensures Inv(Boot(memSize))
    ensures Runs(Boot(memSize), ops) ==>
              var k, raw := After(Boot(memSize), ops), RawPages(Boot(memSize), ops);
              && Blocks(k.heap).Keys == {0} + raw + SegPages(k.segs) && SegPages(k.segs) !! {0} + raw
              && (forall s, t :: 0 <= s < t < |k.segs| && k.segs[s].size > 0 && k.segs[t].size > 0 ==>
                    k.segs[s].base / PAGE != k.segs[t].base / PAGE)
              && forall s :: 0 <= s < |k.segs| ==>
                   k.segs[s].refs == Count(k.ents, s) + if s in LentBy(Boot(memSize), ops) then 1 else 0
  {
    BootInv(memSize);
    if Runs(Boot(memSize), ops) {
      var k := After(Boot(memSize), ops);
      RunAccounts(Boot(memSize), ops);
      BootAccounts(memSize);
      PagesApart(k);
      forall s | 0 <= s < |k.segs|
        ensures k.segs[s].refs == Count(k.ents, s) + if s in LentBy(Boot(memSize), ops) then 1 else 0
      {
        assert Extra(k, s) == if s in LentBy(Boot(memSize), ops) then 1 else 0;
      }
    }
  }

  lemma {:induction false} BootAccounts(memSize: nat)
    ensures Unowned(Boot(memSize)) == {0} && Boot(memSize).segs == []
  {
  }

  lemma {:induction false} PagesApart(k: Sys)
    requires Inv(k)
    ensures SegPages(k.segs) <= Blocks(k.heap).Keys
    ensures forall s, t :: 0 <= s < t < |k.segs| && k.segs[s].size > 0 && k.segs[t].size > 0 ==>
              k.segs[s].base / PAGE != k.segs[t].base / PAGE
  {
    forall s | 0 <= s < |k.segs| && k.segs[s].size > 0
      ensures k.segs[s].base / PAGE in Blocks(k.heap) && k.segs[s].base == k.segs[s].base / PAGE * PAGE
    {
      assert SegOk(k.heap, k.segs[s]);
    }
  }

  /** The reference to spare is never given back: whatever runs next, the page of every
      process area and of every exec's stack stays taken. In particular each exec takes
      one more page for good. */
  lemma {:induction false} LentForGood(memSize: nat, ops: seq<Op>, more: seq<Op>, s: nat)
    requires memSize >= PAGE && Inv(Boot(memSize)) && Runs(Boot(memSize), ops) && Runs(After(Boot(memSize), ops), more)
    requires s in LentBy(Boot(memSize), ops)
    ensures var k := After(Boot(memSize), ops);
            var r := After(k, more);
            && s < |k.segs| <= |r.segs| && r.segs[s].base == k.segs[s].base && r.segs[s].size == k.segs[s].size
            && (k.segs[s].size > 0 ==> r.segs[s].base / PAGE in Blocks(r.heap))
  {
    var k := After(Boot(memSize), ops);
    RunAccounts(Boot(memSize), ops);
    RunAccounts(k, more);
    assert Extra(k, s) == 1;
    assert SegOk(After(k, more).heap, After(k, more).segs[s]);
  }

  // ----- one segment's life ------------------------------------------------------------------

  /** mmap into an entry not in use, then munmap of it: every reference is as before,
      and so is every block, unless the segid had no reference, in which case its memory
      has gone. */
  lemma {:induction false} MapUnmap(k: Sys, sid: nat, segno: nat)
    requires Inv(k) && k.cur.Some? && segno < k.len && sid < |k.segs| && sid !in k.uareas
    requires !Valid(k.ents[Slot(k, segno)])
    ensures var r := Munmap(Mmap(k, sid, segno).0, segno).0;
            && Mmap(k, sid, segno).1 == Done && |r.segs| == |k.segs|
            && (forall s :: 0 <= s < |k.segs| && s != sid ==> r.segs[s] == k.segs[s])
            && (if k.segs[sid].refs > 0 then r.segs == k.segs && r.heap == k.heap
                else r.segs[sid].refs == 0 && r.segs[sid].size == 0
                     && Blocks(r.heap) == if k.segs[sid].size > 0 then Blocks(k.heap) - {k.segs[sid].base / PAGE}
                                          else Blocks(k.heap))
            && (forall i :: 0 <= i < |k.ents| && i != Slot(k, segno) ==> r.ents[i] == k.ents[i])
            && !Valid(r.ents[Slot(k, segno)])
  {
    MmapInv(k, sid, segno);
    MmapResult(k, sid, segno);
    var k1 := Mmap(k, sid, segno).0;
    MappingFlags(k1.segs[sid], sid);
    MunmapFrees(k1, segno);
    NoFlags(k1.ents[Slot(k, segno)]);
    if k.segs[sid].size == 0 {
      ReferenceChange(k1, sid, 0);
    }
  }

  lemma {:induction false} NoFlags(e: Desc)
    ensures !Valid(e.(size := 0, flags := 0))
  {
  }
}
