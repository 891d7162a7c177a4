/** The address space exec leaves: what each slot of the running process's table
    holds afterwards. */
module ExecSpace {
  import opened Codec
  import opened Heap
  import opened Kernel
  import opened KernelInv
  import opened KernelRun
  import Isolation

  /** The keys of a std::map, in its order. */
  predicate Ascends(ms: seq<(nat, nat)>) {
    forall i, j :: 0 <= i < j < |ms| ==> ms[i].0 < ms[j].0
  }

  predicate HasKey(ms: seq<(nat, nat)>, key: nat) {
    exists i :: 0 <= i < |ms| && ms[i].0 == key
  }

  lemma {:induction false} EmplaceAscends(m: seq<(nat, nat)>, key: nat, sid: nat)
    requires Ascends(m)
    ensures Ascends(Emplace(m, key, sid))
    ensures forall p :: p in Emplace(m, key, sid) ==> p in m || p.0 == key
    decreases |m|
  {
    if |m| > 0 && m[0].0 < key {
      EmplaceAscends(m[1..], key, sid);
      var rest := Emplace(m[1..], key, sid);
      forall j | 0 <= j < |rest|
        ensures m[0].0 < rest[j].0
      {
        assert rest[j] in rest;
      }
    }
  }

  /** Every loaded object's segment list is a std::map: in order, no key twice. */
  predicate AllAscend(k: Sys) {
    forall i :: i in k.loaded ==> Ascends(k.loaded[i].segs)
  }

  lemma {:induction false} LoadSegsAscend(k: Sys, ino: nat, osegs: seq<ObjSeg>)
    requires Shape(k) && ino in k.loaded && ObjOk(osegs) && AllAscend(k)
    ensures AllAscend(LoadSegs(k, ino, osegs).0)
    decreases |osegs|
  {
    if |osegs| > 0 {
      EmplaceAscends(k.loaded[ino].segs, osegs[0].segno, |k.segs|);
      var (k1, err) := LoadSeg(k, ino, osegs[0]);
      if err == Done {
        LoadSegsAscend(k1, ino, osegs[1..]);
      }
    }
  }

  /** mmap fails exactly without such a slot or segid, and over the process area's slot
      if that is VALID; it then changes nothing. Otherwise the slot has the segid's
      memory, with its flags, and no other entry changes. */
  lemma {:induction false} MmapOutcome(k: Sys, sid: nat, segno: nat)
    requires Inv(k) && sid !in k.uareas
    ensures var (r, err) := Mmap(k, sid, segno);
            && (err == ENOMEM <==> !(k.cur.Some? && segno < k.len && sid < |k.segs|))
            && (err == EPERM <==> k.cur.Some? && segno < k.len && sid < |k.segs|
                                  && segno == 4 && Valid(k.ents[Slot(k, 4)]))
            && (err != Done ==> r == k)
            && (err == Done ==>
                  && k.cur.Some? && segno < k.len && sid < |k.segs| && r.memSize == k.memSize
                  && var s := r.segs[sid];
                     r.ents == k.ents[Slot(k, segno) := Desc(s.base, s.size, SetBit(s.flags, VALID) % P18, sid)])
  {
    if Mmap(k, sid, segno).1 == Done {
      MmapResult(k, sid, segno);
      var r := Mmap(k, sid, segno).0;
      assert |r.ents| == |k.ents|;
    }
  }

  /** Everything but the table's entries is as it was, up to reference counts. */
  predicate SameSegments(k: Sys, r: Sys) {
    && |r.segs| == |k.segs|
    && forall s :: 0 <= s < |k.segs| ==> r.segs[s] == k.segs[s].(refs := r.segs[s].refs)
  }

  /** The entries that differ from `k` are those of slots from `lo` to `hi`. */
  predicate OnlySlots(k: Sys, r: Sys, lo: nat, hi: nat)
    requires k.cur.Some?
  {
    && |r.ents| == |k.ents| && r.cur == k.cur && r.len == k.len
    && forall j :: 0 <= j < |k.ents| && !(SLOTS * k.cur.value + lo <= j < SLOTS * k.cur.value + hi) ==>
       r.ents[j] == k.ents[j]
  }

  /** No entry of the table from slot `from` on is VALID, the fourth aside. */
  predicate Cleared(k: Sys, r: Sys, from: nat)
    requires k.cur.Some?
  {
    var at := SLOTS * k.cur.value;
    forall j :: at + from <= j < at + k.len && j != at + 4 && j < |r.ents| ==> !Valid(r.ents[j])
  }

  /** Objects still loaded keep their segment lists, and memory its size. */
  predicate SameLists(k: Sys, r: Sys) {
    && r.memSize == k.memSize
    && forall i :: i in r.loaded ==> i in k.loaded && r.loaded[i].segs == k.loaded[i].segs
  }

  lemma {:induction false} MunmapClears(k: Sys, segno: nat)
    requires Inv(k) && k.cur.Some? && segno < k.len
    ensures var r := Munmap(k, segno).0;
            Inv(r) && OnlySlots(k, r, segno, segno + 1) && !Valid(r.ents[Slot(k, segno)]) && SameLists(k, r)
  {
    MunmapInv(k, segno);
    assert EntOk(k.segs, k.ents[Slot(k, segno)]);
  }

  /** From `k` to `r`, slots of the table from `from` on were freed, but for the
      fourth. */
  predicate Freed(k: Sys, r: Sys, from: nat)
    requires Shape(k) && k.cur.Some?
  {
    && OnlySlots(k, r, from, k.len) && SameLists(k, r) && Cleared(k, r, from)
    && (4 < k.len ==> r.ents[Slot(k, 4)] == k.ents[Slot(k, 4)])
  }

  /** freesegs leaves no VALID entry but possibly the fourth. */
  lemma {:induction false} FreeSegsClears(k: Sys, from: nat)
    requires Inv(k) && k.cur.Some? && from <= k.len
    ensures Inv(FreeSegs(k, false, from)) && Freed(k, FreeSegs(k, false, from), from)
    decreases k.len - from
  {
    if from < k.len {
      var k1 := if from != 4 then Munmap(k, from).0 else k;
      var r := FreeSegs(k1, false, from + 1);
      if from != 4 {
        MunmapClears(k, from);
      }
      FreeSegsClears(k1, from + 1);
      FreedFurther(k, k1, r, from);
    }
  }

  lemma {:induction false} FreedFurther(k: Sys, k1: Sys, r: Sys, from: nat)
    requires Shape(k) && Shape(k1) && k.cur.Some? && from < k.len && SameLists(k, k1)
    requires if from == 4 then k1 == k else OnlySlots(k, k1, from, from + 1) && !Valid(k1.ents[Slot(k, from)])
    requires k1.cur.Some? && Freed(k1, r, from + 1)
    ensures Freed(k, r, from)
  {
  }

  /** The effect of one mapping. */
  lemma {:induction false} InstallOnly(k: Sys, sid: nat, segno: nat)
    requires Shape(k) && k.cur.Some? && segno < k.len && sid < |k.segs|
    ensures var r := Install(k, sid, segno);
            && SameSegments(k, r) && OnlySlots(k, r, segno, segno + 1) && r.loaded == k.loaded
            && r.ents[Slot(k, segno)] == Mapping(k.segs[sid], sid)
  {
  }

  /** mmap over slots that are not in use installs every mapping and nothing
      else. */
  lemma {:induction false} MapAllInstalls(k: Sys, ms: seq<(nat, nat)>)
    requires Shape(k) && k.cur.Some? && Ascends(ms) && MapAll(k, ms).1 == Done && Unused(k, ms)
    ensures var r := MapAll(k, ms).0;
            && SameSegments(k, r) && OnlySlots(k, r, 0, k.len) && r.loaded == k.loaded
            && AllMapped(k, r, ms) && OthersKept(k, r, ms)
    decreases |ms|
  {
    if |ms| > 0 {
      var k1 := Mmap(k, ms[0].1, ms[0].0).0;
      assert ms[0].0 < k.len && ms[0].1 < |k.segs| && !Valid(k.ents[Slot(k, ms[0].0)]);
      assert k1 == Install(k, ms[0].1, ms[0].0);
      InstallOnly(k, ms[0].1, ms[0].0);
      StillUnused(k, k1, ms);
      MapAllInstalls(k1, ms[1..]);
      MapOneMore(k, k1, MapAll(k1, ms[1..]).0, ms);
    }
  }

  predicate Unused(k: Sys, ms: seq<(nat, nat)>)
    requires Shape(k) && k.cur.Some?
  {
    forall i :: 0 <= i < |ms| && ms[i].0 < k.len ==> !Valid(k.ents[Slot(k, ms[i].0)])
  }

  predicate AllMapped(k: Sys, r: Sys, ms: seq<(nat, nat)>)
    requires Shape(k) && k.cur.Some?
  {
    forall i :: 0 <= i < |ms| ==> Mapped(k, r, ms[i])
  }

  ghost predicate OthersKept(k: Sys, r: Sys, ms: seq<(nat, nat)>)
    requires Shape(k) && k.cur.Some? && |r.ents| == |k.ents|
  {
    var at := SLOTS * k.cur.value;
    forall j :: at <= j < at + k.len && j < |r.ents| && !HasKey(ms, j - at) ==> r.ents[j] == k.ents[j]
  }

  lemma {:induction false} StillUnused(k: Sys, k1: Sys, ms: seq<(nat, nat)>)
    requires Shape(k) && Shape(k1) && k.cur.Some? && Ascends(ms) && |ms| > 0 && Unused(k, ms)
    requires ms[0].0 < k.len && OnlySlots(k, k1, ms[0].0, ms[0].0 + 1)
    ensures Unused(k1, ms[1..]) && Ascends(ms[1..])
  {
    forall i | 0 <= i < |ms| - 1 && ms[1..][i].0 < k1.len
      ensures !Valid(k1.ents[Slot(k1, ms[1..][i].0)])
    {
      assert ms[1..][i] == ms[i + 1];
    }
  }

  lemma {:induction false} MapOneMore(k: Sys, k1: Sys, r: Sys, ms: seq<(nat, nat)>)
    requires Shape(k) && Shape(k1) && k.cur.Some? && Ascends(ms) && |ms| > 0 && ms[0].0 < k.len && ms[0].1 < |k.segs|
    requires SameSegments(k, k1) && OnlySlots(k, k1, ms[0].0, ms[0].0 + 1)
             && k1.ents[Slot(k, ms[0].0)] == Mapping(k.segs[ms[0].1], ms[0].1)
    requires SameSegments(k1, r) && OnlySlots(k1, r, 0, k1.len) && AllMapped(k1, r, ms[1..])
             && OthersKept(k1, r, ms[1..])
    ensures AllMapped(k, r, ms) && OthersKept(k, r, ms)
  {
    KeyOfRest(ms, ms[0].0);
    forall i | 0 <= i < |ms|
      ensures Mapped(k, r, ms[i])
    {
      if i > 0 {
        assert Mapped(k1, r, ms[1..][i - 1]);
      } else {
        FirstNotLater(ms);
      }
    }
    var at := SLOTS * k.cur.value;
    forall j | at <= j < at + k.len && j < |r.ents| && !HasKey(ms, j - at)
      ensures r.ents[j] == k.ents[j]
    {
      KeyOfRest(ms, j - at);
    }
  }

  lemma {:induction false} FirstNotLater(ms: seq<(nat, nat)>)
    requires Ascends(ms) && |ms| > 0
    ensures !HasKey(ms[1..], ms[0].0)
  {
  }

  lemma {:induction false} KeyOfRest(ms: seq<(nat, nat)>, key: nat)
    requires |ms| > 0
    ensures HasKey(ms, key) <==> ms[0].0 == key || HasKey(ms[1..], key)
  {
    if HasKey(ms[1..], key) {
      var i :| 0 <= i < |ms| - 1 && ms[1..][i].0 == key;
      assert ms[i + 1].0 == key;
    }
    if HasKey(ms, key) && ms[0].0 != key {
      var i :| 0 <= i < |ms| && ms[i].0 == key;
      assert ms[1..][i - 1].0 == key;
    }
  }

  /** Slot `p.0` of the table maps segid `p.1`. */
  predicate Mapped(k: Sys, r: Sys, p: (nat, nat))
    requires Shape(k) && k.cur.Some?
  {
    && p.0 < k.len && p.1 < |k.segs| && |r.ents| == |k.ents|
    && r.ents[Slot(k, p.0)] == Mapping(k.segs[p.1], p.1)
  }

  /** The stack of exec goes into slot 0, usable but not marked VALID. */
  lemma {:induction false} StackMapped(k: Sys)
    requires Inv(k) && k.cur.Some? && k.len >= 5 && !Valid(k.ents[Slot(k, 0)]) && MapStack(k).1 == Done
    ensures var r := MapStack(k).0;
            && OnlySlots(k, r, 0, 1) && r.loaded == k.loaded
            && r.ents[Slot(k, 0)].flags == READ + WRITE && r.ents[Slot(k, 0)].size == PAGE
               && r.ents[Slot(k, 0)].segid == |k.segs|
  {
    var k1 := Salloc(k, PAGE).0;
    assert Mmap(k1, |k.segs|, 0) == (Install(k1, |k.segs|, 0), Done);
  }

  /** A mapping of slot 4 succeeds only when the slot was not marked VALID. */
  lemma {:induction false} FourFree(k: Sys, ms: seq<(nat, nat)>)
    requires Shape(k) && k.cur.Some? && Ascends(ms) && MapAll(k, ms).1 == Done && UnusedButFour(k, ms)
    ensures Unused(k, ms)
    decreases |ms|
  {
    if |ms| > 0 {
      var segno, sid := ms[0].0, ms[0].1;
      assert segno < k.len && sid < |k.segs| && !Valid(k.ents[Slot(k, segno)]);
      var k1 := Mmap(k, sid, segno).0;
      assert k1 == Install(k, sid, segno);
      InstallOnly(k, sid, segno);
      RestUnused(k, k1, ms);
      FourFree(k1, ms[1..]);
      AlsoUnused(k, k1, ms);
    }
  }

  predicate UnusedButFour(k: Sys, ms: seq<(nat, nat)>)
    requires Shape(k) && k.cur.Some?
  {
    forall i :: 0 <= i < |ms| && ms[i].0 < k.len && ms[i].0 != 4 ==> !Valid(k.ents[Slot(k, ms[i].0)])
  }

  lemma {:induction false} RestUnused(k: Sys, k1: Sys, ms: seq<(nat, nat)>)
    requires Shape(k) && Shape(k1) && k.cur.Some? && Ascends(ms) && |ms| > 0 && UnusedButFour(k, ms)
    requires OnlySlots(k, k1, ms[0].0, ms[0].0 + 1)
    ensures UnusedButFour(k1, ms[1..]) && Ascends(ms[1..])
  {
    forall i | 0 <= i < |ms| - 1 && ms[1..][i].0 < k1.len && ms[1..][i].0 != 4
      ensures !Valid(k1.ents[Slot(k1, ms[1..][i].0)])
    {
      assert ms[1..][i] == ms[i + 1];
    }
  }

  lemma {:induction false} AlsoUnused(k: Sys, k1: Sys, ms: seq<(nat, nat)>)
    requires Shape(k) && Shape(k1) && k.cur.Some? && Ascends(ms) && |ms| > 0 && ms[0].0 < k.len
    requires !Valid(k.ents[Slot(k, ms[0].0)]) && OnlySlots(k, k1, ms[0].0, ms[0].0 + 1) && Unused(k1, ms[1..])
    ensures Unused(k, ms)
  {
    forall i | 0 <= i < |ms| && ms[i].0 < k.len
      ensures !Valid(k.ents[Slot(k, ms[i].0)])
    {
      if i > 0 {
        assert ms[1..][i - 1] == ms[i];
        assert !Valid(k1.ents[Slot(k1, ms[1..][i - 1].0)]);
      }
    }
  }

  lemma {:induction false} LoadAscend(k: Sys, ino: nat, osegs: seq<ObjSeg>)
    requires Shape(k) && ObjOk(osegs) && AllAscend(k)
    ensures AllAscend(Load(k, ino, osegs).0)
  {
    if ino !in k.loaded {
      LoadSegsAscend(Registered(k, ino), ino, osegs);
    }
  }

  /** The table of `r` just before exec maps the object's segments: clear, but for
      slot 4 and the stack. */
  predicate Ready(k: Sys, r: Sys)
    requires Shape(k) && k.cur.Some? && k.len >= 5
  {
    && OnlySlots(k, r, 0, k.len) && Cleared(k, r, 0)
    && r.ents[Slot(k, 4)] == k.ents[Slot(k, 4)]
    && r.ents[Slot(k, 0)].flags == READ + WRITE && r.ents[Slot(k, 0)].segid == |k.segs|
  }

  /** The flags of exec's stack do not make its entry VALID. */
  lemma {:induction false} StackFlags(d: Desc)
    requires d.flags == READ + WRITE
    ensures !Valid(d)
  {
  }

  lemma {:induction false} ReadyAfterStack(k: Sys, k1: Sys, r: Sys)
    requires Shape(k) && k.cur.Some? && k.len >= 5
    requires OnlySlots(k, k1, 0, k.len) && Cleared(k, k1, 0) && k1.ents[Slot(k, 4)] == k.ents[Slot(k, 4)]
    requires OnlySlots(k1, r, 0, 1) && r.ents[Slot(k, 0)].flags == READ + WRITE && r.ents[Slot(k, 0)].segid == |k.segs|
    ensures Ready(k, r)
  {
    StackFlags(r.ents[Slot(k, 0)]);
  }

  lemma {:induction false} BeforeMapping(k: Sys)
    requires Inv(k) && k.cur.Some? && k.len >= 5 && BeforeLoad(k).1 == Done
    ensures var r := BeforeLoad(k).0;
            Inv(r) && SameLists(k, r) && Ready(k, r)
  {
    FreeSegsClears(k, 0);
    var k1 := FreeSegs(k, false, 0);
    assert !Valid(k1.ents[Slot(k, 0)]);
    FreeSegsCount(k, 0);
    StackMapped(k1);
    MapStackInv(k1);
    ReadyAfterStack(k, k1, MapStack(k1).0);
  }

  /** freesegs drops references; it makes and removes no segid. */
  lemma {:induction false} FreeSegsCount(k: Sys, from: nat)
    requires Inv(k) && k.cur.Some? && from <= k.len
    ensures |FreeSegs(k, false, from).segs| == |k.segs|
    decreases k.len - from
  {
    if from < k.len {
      if from == 4 {
        FreeSegsCount(k, from + 1);
      } else {
        MunmapClears(k, from);
        FreeSegsCount(Munmap(k, from).0, from + 1);
      }
    }
  }

  /** The table of `r` after exec in `k`, the object's list being `ms`. */
  ghost predicate Holds(k: Sys, r: Sys, ms: seq<(nat, nat)>)
    requires Shape(k) && Shape(r) && k.cur.Some? && k.len >= 5 && OnlySlots(k, r, 0, k.len)
  {
    var at := SLOTS * k.cur.value;
    && AllMapped(r, r, ms)
    && (forall j :: at <= j < at + k.len && j != at + 4 && !HasKey(ms, j - at) ==> !Valid(r.ents[j]))
    && (!HasKey(ms, 0) ==> r.ents[Slot(k, 0)].flags == READ + WRITE && r.ents[Slot(k, 0)].segid == |k.segs|)
    && (!HasKey(ms, 4) ==> r.ents[Slot(k, 4)] == k.ents[Slot(k, 4)])
  }

  lemma {:induction false} HoldsAfterMapping(k: Sys, k3: Sys, r: Sys, ms: seq<(nat, nat)>)
    requires Shape(k) && Shape(k3) && Shape(r) && k.cur.Some? && k.len >= 5 && Ready(k, k3)
    requires SameSegments(k3, r) && OnlySlots(k3, r, 0, k3.len) && AllMapped(k3, r, ms) && OthersKept(k3, r, ms)
    ensures OnlySlots(k, r, 0, k.len) && Holds(k, r, ms)
  {
    forall i | 0 <= i < |ms|
      ensures Mapped(r, r, ms[i])
    {
      assert Mapped(k3, r, ms[i]);
      assert r.segs[ms[i].1] == k3.segs[ms[i].1].(refs := r.segs[ms[i].1].refs);
    }
  }

  /** A mapped slot answers with its own segid's base, size and flags. */
  lemma {:induction false} MappedAnswers(r: Sys, p: (nat, nat))
    requires Inv(r) && r.cur.Some? && Mapped(r, r, p) && p.0 != FLAT
    ensures Lookup(r, p.0).1 == Found(Fetch(Mapping(r.segs[p.1], p.1), p.0))
  {
    Isolation.LookupIsDirect(r, p.0);
  }

  /** After a successful exec the running process's table holds exactly: the
      object's segments, each in the slot of its number with its own segid's base,
      size and flags; a fresh page for the stack in slot 0, unless the object has a
      segment 0; what it held in slot 4, unless the object has a segment 4; and no
      other VALID entry. No other table changes, and lookups answer accordingly. */
  lemma {:induction false} ExecAddressSpace(k: Sys, ino: nat, osegs: seq<ObjSeg>)
    requires Inv(k) && ino != 0 && ObjOk(osegs) && Exec(k, ino, osegs).1 == Done
    requires AllAscend(k)
    ensures var r := Exec(k, ino, osegs).0;
            && Inv(r) && k.cur.Some? && k.len >= 5 && ino in r.loaded
            && OnlySlots(k, r, 0, k.len) && Holds(k, r, r.loaded[ino].segs)
            && forall p :: p in r.loaded[ino].segs ==>
                 p.1 < |r.segs| && Lookup(r, p.0).1 == Found(Fetch(Mapping(r.segs[p.1], p.1), p.0))
  {
    ExecInv(k, ino, osegs);
    BeforeMapping(k);
    var k2 := BeforeLoad(k).0;
    LoadAscend(k2, ino, osegs);
    ExecMaps(k, k2, Load(k2, ino, osegs).0, ino, Exec(k, ino, osegs).0);
  }

  lemma {:induction false} ExecMaps(k: Sys, k2: Sys, k3: Sys, ino: nat, r: Sys)
    requires Shape(k) && Shape(k2) && Shape(k3) && Inv(r) && k.cur.Some? && k.len >= 5 && Ready(k, k2)
    requires k3.ents == k2.ents && k3.cur == k2.cur && k3.len == k2.len
    requires ino in k3.loaded && Ascends(k3.loaded[ino].segs) && MapAll(k3, k3.loaded[ino].segs) == (r, Done)
    ensures OnlySlots(k, r, 0, k.len) && r.loaded == k3.loaded && SameSegments(k3, r) && Holds(k, r, r.loaded[ino].segs)
    ensures forall p :: p in r.loaded[ino].segs ==>
              p.1 < |r.segs| && Lookup(r, p.0).1 == Found(Fetch(Mapping(r.segs[p.1], p.1), p.0))
  {
    var ms := k3.loaded[ino].segs;
    ReadyUnused(k, k3, ms);
    FourFree(k3, ms);
    MapAllInstalls(k3, ms);
    HoldsAfterMapping(k, k3, r, ms);
    forall p | p in ms
      ensures p.1 < |r.segs| && Lookup(r, p.0).1 == Found(Fetch(Mapping(r.segs[p.1], p.1), p.0))
    {
      var i :| 0 <= i < |ms| && ms[i] == p;
      assert Mapped(r, r, ms[i]);
      MappedAnswers(r, p);
    }
  }

  /** The segments that the object's load made are those of the final state. */
  lemma {:induction false} ExecLoads(k: Sys, ino: nat, osegs: seq<ObjSeg>)
    requires Inv(k) && ino != 0 && ObjOk(osegs) && Exec(k, ino, osegs).1 == Done && AllAscend(k)
    ensures k.cur.Some? && k.len >= 5 && BeforeLoad(k).1 == Done && Load(BeforeLoad(k).0, ino, osegs).1 == Done
    ensures SameLists(k, BeforeLoad(k).0)
    ensures var k3, r := Load(BeforeLoad(k).0, ino, osegs).0, Exec(k, ino, osegs).0;
            SameSegments(k3, r) && r.loaded == k3.loaded
  {
    ExecInv(k, ino, osegs);
    BeforeMapping(k);
    var k2 := BeforeLoad(k).0;
    LoadAscend(k2, ino, osegs);
    ExecMaps(k, k2, Load(k2, ino, osegs).0, ino, Exec(k, ino, osegs).0);
  }

  lemma {:induction false} ReadyUnused(k: Sys, r: Sys, ms: seq<(nat, nat)>)
    requires Shape(k) && Shape(r) && k.cur.Some? && k.len >= 5 && Ready(k, r)
    ensures UnusedButFour(r, ms)
  {
  }

  /** load lists no number but those of the object's non-empty segments. */
  lemma {:induction false} ListedAreSegments(k: Sys, ino: nat, osegs: seq<ObjSeg>)
    requires Shape(k) && ino in k.loaded && ObjOk(osegs)
    ensures forall p :: p in LoadSegs(k, ino, osegs).0.loaded[ino].segs ==>
              p in k.loaded[ino].segs || exists o :: o in osegs && o.size > 0 && o.segno == p.0
    decreases |osegs|
  {
    if |osegs| > 0 {
      var o := osegs[0];
      var (k1, err) := LoadSeg(k, ino, o);
      assert forall p :: p in k1.loaded[ino].segs ==>
               p in k.loaded[ino].segs || (o in osegs && o.size > 0 && o.segno == p.0);
      if err == Done {
        ListedAreSegments(k1, ino, osegs[1..]);
      }
    }
  }

  // ----- after any run ------------------------------------------------------------------

  lemma {:induction false} MunmapLists(k: Sys, segno: nat)
    requires Shape(k)
    ensures SameLists(k, Munmap(k, segno).0)
  {
  }

  lemma {:induction false} FreeSegsLists(k: Sys, everything: bool, from: nat)
    requires Shape(k)
    ensures SameLists(k, FreeSegs(k, everything, from))
    decreases k.len - from
  {
    if k.cur.Some? && from < k.len {
      MunmapLists(k, from);
      FreeSegsLists(if everything || from != 4 then Munmap(k, from).0 else k, everything, from + 1);
    }
  }

  lemma {:induction false} MmapLists(k: Sys, sid: nat, segno: nat)
    requires Shape(k)
    ensures SameLists(k, Mmap(k, sid, segno).0)
  {
    MunmapLists(k, segno);
  }

  lemma {:induction false} MapAllLists(k: Sys, ms: seq<(nat, nat)>)
    requires Shape(k)
    ensures SameLists(k, MapAll(k, ms).0)
    decreases |ms|
  {
    if |ms| > 0 {
      MmapLists(k, ms[0].1, ms[0].0);
      var (k1, err) := Mmap(k, ms[0].1, ms[0].0);
      if err == Done {
        MapAllLists(k1, ms[1..]);
      }
    }
  }

  lemma {:induction false} MapStackLists(k: Sys)
    requires Shape(k) && k.cur.Some? && k.len >= 5
    ensures SameLists(k, MapStack(k).0)
  {
    var (k1, sid) := Salloc(k, PAGE);
    if sid.Some? {
      MmapLists(k1, sid.value, 0);
    }
  }

  lemma {:induction false} ExecAscend(k: Sys, ino: nat, osegs: seq<ObjSeg>)
    requires Shape(k) && ObjOk(osegs) && AllAscend(k)
    ensures AllAscend(Exec(k, ino, osegs).0)
  {
    if k.cur.Some? && k.len >= 5 {
      FreeSegsLists(k, false, 0);
      MapStackLists(FreeSegs(k, false, 0));
      var (k1, err1) := MapStack(FreeSegs(k, false, 0));
      if err1 == Done {
        LoadAscend(k1, ino, osegs);
        var (k2, err2) := Load(k1, ino, osegs);
        if err2 == Done {
          MapAllLists(k2, k2.loaded[ino].segs);
        }
      }
    }
  }

  lemma {:induction false} ForkLists(k: Sys, stale: seq<Desc>, sspSeg: nat, sspAddr: nat)
    requires Shape(k) && |stale| == SLOTS
    ensures ForkSuper(k, stale).0.loaded == k.loaded
    ensures k.cur.Some? ==> ForkUser(k, sspSeg, sspAddr).0.loaded == k.loaded
  {
  }

  lemma {:induction false} StepAscend(k: Sys, op: Op)
    requires Inv(k) && Enabled(k, op) && AllAscend(k)
    ensures AllAscend(Step(k, op))
  {
    match op
    case LoadObject(ino, osegs) => LoadAscend(k, ino, osegs);
    case Map(sid, segno) => MmapLists(k, sid, segno);
    case Unmap(segno) => MunmapLists(k, segno);
    case Unmapall(everything) => FreeSegsLists(k, everything, 0);
    case Execute(ino, osegs) => ExecAscend(k, ino, osegs);
    case ForkFirst(stale) => ForkLists(k, stale, 0, 0);
    case ForkProcess(sspSeg, sspAddr) => ForkLists(k, seq(SLOTS, _ => Desc(0, 0, 0, 0)), sspSeg, sspAddr);
    case _ =>
  }

  lemma {:induction false} RunAscend(k: Sys, ops: seq<Op>)
    requires Inv(k) && Runs(k, ops) && AllAscend(k)
    ensures AllAscend(After(k, ops))
    decreases |ops|
  {
    if |ops| > 0 {
      StepAscend(k, ops[0]);
      RunAscend(Step(k, ops[0]), ops[1..]);
    }
  }

  /** The address space of every process that a run from power-on execs. */
  lemma {:induction false} ExecAfterAnyRun(memSize: nat, ops: seq<Op>, ino: nat, osegs: seq<ObjSeg>)
    requires memSize >= PAGE && Inv(Boot(memSize)) && Runs(Boot(memSize), ops) && ino != 0 && ObjOk(osegs)
    requires Exec(After(Boot(memSize), ops), ino, osegs).1 == Done
    ensures var k := After(Boot(memSize), ops);
            var r := Exec(k, ino, osegs).0;
            && Inv(r) && k.cur.Some? && k.len >= 5 && ino in r.loaded
            && OnlySlots(k, r, 0, k.len) && Holds(k, r, r.loaded[ino].segs)
            && forall p :: p in r.loaded[ino].segs ==>
                 p.1 < |r.segs| && Lookup(r, p.0).1 == Found(Fetch(Mapping(r.segs[p.1], p.1), p.0))
  {
    RunAscend(Boot(memSize), ops);
    ExecAddressSpace(After(Boot(memSize), ops), ino, osegs);
  }
}
