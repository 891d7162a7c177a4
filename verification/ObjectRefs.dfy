/** Reference counts of loaded objects over every run of load and sfree, sfree
    being free to name any segid, live, already freed or never allocated. */
module ObjectRefs {
  import opened Kernel
  import opened KernelInv

  datatype ObjOp = LoadObject(ino: nat, osegs: seq<ObjSeg>) | FreeSegment(sid: nat)

  ghost predicate Ok(k: Sys) {
    Shape(k) && LoadInv(k)
  }

  predicate OpOk(op: ObjOp) {
    op.LoadObject? ==> op.ino != 0 && ObjOk(op.osegs)
  }

  ghost function Apply(k: Sys, op: ObjOp): (r: Sys)
    requires Ok(k) && OpOk(op)
    ensures Ok(r)
  {
    match op
    case LoadObject(ino, osegs) => LoadCounts(k, ino, osegs); Load(k, ino, osegs).0
    case FreeSegment(sid) => SfreeLoad(k, sid); Sfree(k, sid)
  }

  ghost function ApplyAll(k: Sys, ops: seq<ObjOp>): (r: Sys)
    requires Ok(k) && forall op :: op in ops ==> OpOk(op)
    ensures Ok(r)
    decreases |ops|
  {
    if |ops| == 0 then k else ApplyAll(Apply(k, ops[0]), ops[1..])
  }

  lemma {:induction false} LoadSegCounts(k: Sys, ino: nat, o: ObjSeg)
    requires Ok(k) && ino in k.loaded && (o.size > 0 ==> SizeOk(o.size))
    ensures var k' := LoadSeg(k, ino, o).0; Ok(k') && ino in k'.loaded
  {
    if o.size > 0 && Salloc(k, o.size).1.Some? {
      var k' := LoadSeg(k, ino, o).0;
      LoadSegAppends(k, ino, o);
      OneMore(k.segs, k'.segs[|k.segs|], k.loaded, k'.loaded, ino);
    }
  }

  lemma {:induction false} LoadSegAppends(k: Sys, ino: nat, o: ObjSeg)
    requires Shape(k) && ino in k.loaded && o.size > 0 && SizeOk(o.size) && Salloc(k, o.size).1.Some?
    ensures var k' := LoadSeg(k, ino, o).0;
            && |k'.segs| == |k.segs| + 1 && k'.segs == k.segs + [k'.segs[|k.segs|]] && k'.segs[|k.segs|].ino == ino
            && ino in k'.loaded && k'.loaded[ino].refs == k.loaded[ino].refs + 1
            && k'.loaded == k.loaded[ino := k'.loaded[ino]]
  {
  }

  /** One more segment of one object, and one more reference. */
  lemma {:induction false} OneMore(segs: seq<SegRec>, s: SegRec, was: map<nat, Loaded>, now: map<nat, Loaded>, ino: nat)
    requires forall i :: i in was ==> was[i].refs == CountIno(segs, i)
    requires s.ino == ino && ino in was && ino in now && now == was[ino := now[ino]]
             && now[ino].refs == was[ino].refs + 1
    ensures forall i :: i in now ==> now[i].refs == CountIno(segs + [s], i)
  {
    forall i | i in now
      ensures now[i].refs == CountIno(segs + [s], i)
    {
      CountInoPush(segs, s, i);
    }
  }

  lemma {:induction false} LoadSegsCounts(k: Sys, ino: nat, osegs: seq<ObjSeg>)
    requires Ok(k) && ino in k.loaded && ObjOk(osegs)
    ensures Ok(LoadSegs(k, ino, osegs).0)
    decreases |osegs|
  {
    if |osegs| > 0 {
      LoadSegCounts(k, ino, osegs[0]);
      var (k1, err) := LoadSeg(k, ino, osegs[0]);
      if err == Done {
        LoadSegsCounts(k1, ino, osegs[1..]);
      }
    }
  }

  /** load counts what it allocated, also when it stops on ENOMEM. */
  lemma {:induction false} LoadCounts(k: Sys, ino: nat, osegs: seq<ObjSeg>)
    requires Ok(k) && ino != 0 && ObjOk(osegs)
    ensures Ok(Load(k, ino, osegs).0)
  {
    if ino !in k.loaded {
      CountInoNone(k.segs, ino);
      LoadSegsCounts(Registered(k, ino), ino, osegs);
    }
  }

  /** After every run each loaded object's count is the number of segments still
      carrying its inode, no segment carries the inode of an unloaded object, and
      the next sfree erases an object exactly when it takes its last segment. */
  lemma {:induction false} CountsAlways(k: Sys, ops: seq<ObjOp>, sid: nat)
    requires Shape(k) && k.segs == [] && k.loaded == map[] && forall op :: op in ops ==> OpOk(op)
    ensures Ok(k)
    ensures var k' := ApplyAll(k, ops);
            && (forall ino :: ino in k'.loaded ==> k'.loaded[ino].refs == CountIno(k'.segs, ino))
            && (forall s :: 0 <= s < |k'.segs| && k'.segs[s].ino != 0 ==> k'.segs[s].ino in k'.loaded)
            && forall ino :: ino in k'.loaded ==>
                 (ino !in Sfree(k', sid).loaded <==>
                    CountIno(k'.segs, ino) == 1 && CountIno(Sfree(k', sid).segs, ino) == 0)
  {
    SfreeLoad(ApplyAll(k, ops), sid);
  }
}
