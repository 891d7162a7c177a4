/** The memory management of os.cc and the segment lookup of cpu.cc on values:
    the page heap, the global segment list, the loaded objects, the descriptor
    tables of all processes, and the descriptor cache. A table is the 32-entry
    array at the start of a process area; all tables are laid out one after the
    other in `ents`, in order of creation. */
module Kernel {
  import opened Codec
  import opened Heap

  datatype Option<+T> = None | Some(value: T)

  const SLOTS: nat := 32

  /** The bytes of a table of 16-byte descriptors. */
  const TABLE: nat := 512

  const EXEC: nat := 0x1
  const WRITE: nat := 0x2
  const READ: nat := 0x4
  const SUPER: nat := 0x8
  const COW: nat := 0x10
  const VALID: nat := 0x2_0000

  const FLAT: nat := 0x3_FFFF

  /** A descriptor of a process table (CPU::Segment). */
  datatype Desc = Desc(base: nat, size: nat, flags: nat, segid: nat)

  /** An entry of the global segment list. */
  datatype SegRec = SegRec(refs: nat, base: nat, size: nat, ino: nat, flags: nat)

  /** A loaded object: its segment number to segid map in ascending order. */
  datatype Loaded = Loaded(refs: nat, segs: seq<(nat, nat)>)

  /** A slot of the descriptor cache. */
  datatype CSeg = CSeg(seg: nat, flags: nat, len: nat, base: nat)

  /** A segment of a parsed object file, with data runs at offsets. */
  datatype ObjSeg = ObjSeg(segno: nat, flags: nat, size: nat, data: seq<(nat, seq<Byte>)>)

  /** `cur` is the table segmap points at; None stands for segmap == 0. */
  datatype Sys = Sys(
    memSize: nat,
    heap: seq<int>,
    segs: seq<SegRec>,
    loaded: map<nat, Loaded>,
    uareas: seq<nat>,
    ents: seq<Desc>,
    cur: Option<nat>,
    len: nat,
    cache: seq<CSeg>)

  /** `Trapped` is a segment fault raised inside a system call; `Stray` is an access
      of the host outside the memory array, after which nothing is promised. */
  datatype Errno = Done | ENOMEM | EPERM | Trapped | Stray

  datatype Found = Found(desc: CSeg) | NoSegment(segno: nat)

  predicate Valid(e: Desc) {
    Bit(e.flags, VALID)
  }

  /** Some access through the descriptor passes the permission test, which
      never looks at VALID. */
  predicate Accessible(e: Desc) {
    Bit(e.flags, READ) || Bit(e.flags, WRITE) || Bit(e.flags, EXEC)
  }

  /** Usable but not marked VALID: the stack of exec, the process area of fork. */
  predicate Unmarked(e: Desc) {
    Accessible(e) && !Valid(e)
  }

  predicate Names(e: Desc, sid: nat) {
    Valid(e) && e.segid == sid
  }

  function Count(es: seq<Desc>, sid: nat): nat {
    if |es| == 0 then 0
    else Count(es[..|es| - 1], sid) + if Names(es[|es| - 1], sid) then 1 else 0
  }

  function CountIno(segs: seq<SegRec>, ino: nat): nat {
    if |segs| == 0 then 0
    else CountIno(segs[..|segs| - 1], ino) + if segs[|segs| - 1].ino == ino then 1 else 0
  }

  // ----- shape ---------------------------------------------------------------

  predicate Shape(k: Sys) {
    && |k.ents| == SLOTS * |k.uareas|
    && |k.cache| == 16
    && (k.cur.Some? ==> k.cur.value < |k.uareas| && k.len <= SLOTS)
    && 1 <= |k.heap|
    && forall s :: 0 <= s < |k.segs| ==> k.segs[s].base / PAGE < |k.heap|
  }

  function Slot(k: Sys, segno: nat): (i: nat)
    requires Shape(k) && k.cur.Some? && segno < k.len
    ensures i < |k.ents|
  {
    SLOTS * k.cur.value + segno
  }

  // ----- Machine -------------------------------------------------------------

  /** A size whose page count does not wrap around the host's 64 bits to zero. */
  predicate SizeOk(size: nat) {
    0 < size <= P64 - PAGE
  }

  ghost function Salloc(k: Sys, size: nat): (r: (Sys, Option<nat>))
    requires Shape(k) && SizeOk(size)
    ensures Shape(r.0) && (r.1.None? ==> r.0 == k)
    ensures r.1.Some? ==> r.1.value == |k.segs| && |r.0.segs| == |k.segs| + 1
  {
    PagesCover(size);
    var (heap, base) := Malloc(k.heap, k.memSize / PAGE, size);
    if base == 0 then (k, None)
    else (k.(heap := heap, segs := k.segs + [SegRec(0, base, size, 0, 0)]), Some(|k.segs|))
  }

  function Unload(loaded: map<nat, Loaded>, ino: nat): map<nat, Loaded> {
    if ino == 0 || ino !in loaded || loaded[ino].refs == 0 then loaded
    else if loaded[ino].refs == 1 then loaded - {ino}
    else loaded[ino := loaded[ino].(refs := loaded[ino].refs - 1)]
  }

  ghost function Sfree(k: Sys, sid: nat): (r: Sys)
    requires Shape(k)
    ensures Shape(r)
  {
    if sid >= |k.segs| then k
    else
      var s := k.segs[sid];
      k.(heap := Free(k.heap, s.base).0,
         loaded := Unload(k.loaded, s.ino),
         segs := k.segs[sid := s.(base := 0, size := 0, ino := 0)])
  }

  // ----- CPU: the current table ------------------------------------------------

  function Invalidate(k: Sys): (r: Sys)
    requires |k.cache| == 16
    ensures r == k.(cache := r.cache) && |r.cache| == 16
    ensures forall i :: 0 <= i < 16 ==> r.cache[i].flags == 0 && r.cache[i] == k.cache[i].(flags := 0)
  {
    k.(cache := seq(16, i requires 0 <= i < 16 => k.cache[i].(flags := 0)))
  }

  /** Drop one reference of a segid, freeing it when none is left. */
  ghost function Release(k: Sys, sid: nat): (r: Sys)
    requires Shape(k) && sid < |k.segs|
    ensures Shape(r) && r == k.(heap := r.heap, segs := r.segs, loaded := r.loaded) && |r.segs| == |k.segs|
  {
    var refs := if k.segs[sid].refs == 0 then P64 - 1 else k.segs[sid].refs - 1;
    var k1 := k.(segs := k.segs[sid := k.segs[sid].(refs := refs)]);
    if refs == 0 then Sfree(k1, sid) else k1
  }

  ghost function Munmap(k: Sys, segno: nat): (r: (Sys, Errno))
    requires Shape(k)
    ensures Shape(r.0) && |r.0.segs| == |k.segs| && r.0.cur == k.cur && r.0.len == k.len && r.0.uareas == k.uareas
  {
    if k.cur.None? || segno >= k.len then (k, ENOMEM)
    else
      var e := k.ents[Slot(k, segno)];
      if !Valid(e) || e.segid >= |k.segs| then (k, Done)
      else
        var k1 := Release(k, e.segid);
        (Invalidate(k1.(ents := k.ents[Slot(k, segno) := e.(size := 0, flags := 0)])), Done)
  }

  /** The descriptor a mapping of `s` stores. */
  function Mapping(s: SegRec, sid: nat): Desc {
    Desc(s.base, s.size, SetBit(s.flags, VALID) % P18, sid)
  }

  /** Point a table entry at a segid, with one more reference. */
  function Install(k: Sys, sid: nat, segno: nat): (r: Sys)
    requires Shape(k) && k.cur.Some? && segno < k.len && sid < |k.segs|
    ensures Shape(r) && |r.segs| == |k.segs| && r.cur == k.cur && r.len == k.len && r.uareas == k.uareas
  {
    var s := k.segs[sid].(refs := k.segs[sid].refs + 1);
    Invalidate(k.(segs := k.segs[sid := s], ents := k.ents[Slot(k, segno) := Mapping(s, sid)]))
  }

  ghost function Mmap(k: Sys, sid: nat, segno: nat): (r: (Sys, Errno))
    requires Shape(k)
    ensures Shape(r.0) && |r.0.segs| == |k.segs| && r.0.cur == k.cur && r.0.len == k.len && r.0.uareas == k.uareas
  {
    if k.cur.None? || segno >= k.len || sid >= |k.segs| then (k, ENOMEM)
    else
      var was := k.ents[Slot(k, segno)];
      if Valid(was) && segno == 4 then (k, EPERM)
      else
        (Install(if Valid(was) then Munmap(k, segno).0 else k, sid, segno), Done)
  }

  ghost function FreeSegs(k: Sys, everything: bool, from: nat): (r: Sys)
    requires Shape(k)
    ensures Shape(r) && |r.segs| == |k.segs| && r.cur == k.cur && r.len == k.len && r.uareas == k.uareas
    decreases k.len - from
  {
    if k.cur.None? || from >= k.len then k
    else FreeSegs(if everything || from != 4 then Munmap(k, from).0 else k, everything, from + 1)
  }

  // ----- objects -----------------------------------------------------------------

  /** std::map::emplace: an existing key keeps its value. */
  function Emplace(m: seq<(nat, nat)>, key: nat, sid: nat): (r: seq<(nat, nat)>)
    ensures forall p :: p in r ==> p in m || p == (key, sid)
  {
    if |m| == 0 || key < m[0].0 then [(key, sid)] + m
    else if m[0].0 == key then m
    else [m[0]] + Emplace(m[1..], key, sid)
  }

  /** One allocation of the load loop. */
  ghost function LoadSeg(k: Sys, ino: nat, o: ObjSeg): (r: (Sys, Errno))
    requires Shape(k) && ino in k.loaded && (o.size > 0 ==> SizeOk(o.size))
    ensures Shape(r.0) && ino in r.0.loaded && r.0 == k.(heap := r.0.heap, segs := r.0.segs, loaded := r.0.loaded)
  {
    if o.size == 0 then (k, Done)
    else
      var (k1, sid) := Salloc(k, o.size);
      if sid.None? then (k1, ENOMEM)
      else
        var s := k1.segs[sid.value].(ino := ino, flags := SetBit(o.flags, VALID));
        var lo := k1.loaded[ino];
        (k1.(segs := k1.segs[sid.value := s],
             loaded := k1.loaded[ino := Loaded(lo.refs + 1, Emplace(lo.segs, o.segno, sid.value))]), Done)
  }

  predicate ObjOk(osegs: seq<ObjSeg>) {
    forall i :: 0 <= i < |osegs| && osegs[i].size > 0 ==> SizeOk(osegs[i].size)
  }

  /** The allocation loop, which leaves what it built when memory runs out. */
  ghost function LoadSegs(k: Sys, ino: nat, osegs: seq<ObjSeg>): (r: (Sys, Errno))
    requires Shape(k) && ino in k.loaded && ObjOk(osegs)
    ensures Shape(r.0) && ino in r.0.loaded && r.0 == k.(heap := r.0.heap, segs := r.0.segs, loaded := r.0.loaded)
    decreases |osegs|
  {
    if |osegs| == 0 then (k, Done)
    else
      var (k1, err) := LoadSeg(k, ino, osegs[0]);
      if err != Done then (k1, err) else LoadSegs(k1, ino, osegs[1..])
  }

  ghost function Load(k: Sys, ino: nat, osegs: seq<ObjSeg>): (r: (Sys, Errno))
    requires Shape(k) && ObjOk(osegs)
    ensures Shape(r.0) && ino in r.0.loaded && r.0 == k.(heap := r.0.heap, segs := r.0.segs, loaded := r.0.loaded)
  {
    if ino in k.loaded then (k, Done)
    else LoadSegs(Registered(k, ino), ino, osegs)
  }

  // ----- where load copies ---------------------------------------------------------

  predicate RunsFit(data: seq<(nat, seq<Byte>)>, size: int) {
    0 <= size && forall d :: d in data ==> d.0 + |d.1| <= size
  }

  /** The data runs copied for one segment end inside memory. load compares them
      with nothing, not even with the size of the segment. */
  ghost predicate CopyInside(k: Sys, ino: nat, o: ObjSeg)
    requires Shape(k) && ino in k.loaded && (o.size > 0 ==> SizeOk(o.size))
  {
    o.size > 0 && LoadSeg(k, ino, o).1 == Done ==>
      RunsFit(o.data, k.memSize - LoadSeg(k, ino, o).0.segs[|k.segs|].base)
  }

  ghost predicate CopiesInside(k: Sys, ino: nat, osegs: seq<ObjSeg>)
    requires Shape(k) && ino in k.loaded && ObjOk(osegs)
    decreases |osegs|
  {
    |osegs| == 0 ||
    (CopyInside(k, ino, osegs[0]) &&
     var (k1, err) := LoadSeg(k, ino, osegs[0]);
     err != Done || CopiesInside(k1, ino, osegs[1..]))
  }

  /** All that load copies lies inside memory; elsewhere the host's memcpy has no
      meaning. */
  ghost predicate LoadInside(k: Sys, ino: nat, osegs: seq<ObjSeg>)
    requires Shape(k) && ObjOk(osegs)
  {
    ino in k.loaded || CopiesInside(Registered(k, ino), ino, osegs)
  }

  /** The loaded object's entry, before its segments. */
  function Registered(k: Sys, ino: nat): (r: Sys)
    ensures r.segs == k.segs
  {
    k.(loaded := k.loaded[ino := Loaded(0, [])])
  }

  ghost function MapAll(k: Sys, ms: seq<(nat, nat)>): (r: (Sys, Errno))
    requires Shape(k)
    ensures Shape(r.0) && r.0.cur == k.cur && r.0.len == k.len && r.0.uareas == k.uareas
    decreases |ms|
  {
    if |ms| == 0 then (k, Done)
    else
      var (k1, err) := Mmap(k, ms[0].1, ms[0].0);
      if err != Done then (k1, err) else MapAll(k1, ms[1..])
  }

  /** The stack of exec: a fresh page in slot 0, with VALID overwritten. */
  ghost function MapStack(k: Sys): (r: (Sys, Errno))
    requires Shape(k) && k.cur.Some? && k.len >= 5
    ensures Shape(r.0) && r.0.cur == k.cur && r.0.len == k.len && r.0.uareas == k.uareas
  {
    var (k1, sid) := Salloc(k, PAGE);
    if sid.None? then (k1, ENOMEM)
    else
      var (k2, err) := Mmap(k1, sid.value, 0);
      if err != Done then (k2, err)
      else (k2.(ents := k2.ents[Slot(k2, 0) := k2.ents[Slot(k2, 0)].(flags := READ + WRITE)]), Done)
  }

  /** exec up to the loading of the object. */
  ghost function BeforeLoad(k: Sys): (r: (Sys, Errno))
    requires Shape(k) && k.cur.Some? && k.len >= 5
    ensures Shape(r.0) && r.0.cur == k.cur && r.0.len == k.len && r.0.uareas == k.uareas
  {
    MapStack(FreeSegs(k, false, 0))
  }

  /** ... and from there on. */
  ghost function LoadAndMap(k: Sys, ino: nat, osegs: seq<ObjSeg>): (r: (Sys, Errno))
    requires Shape(k) && ObjOk(osegs)
    ensures Shape(r.0)
  {
    var (k2, err2) := Load(k, ino, osegs);
    if err2 != Done then (k2, err2) else MapAll(k2, k2.loaded[ino].segs)
  }

  ghost function Exec(k: Sys, ino: nat, osegs: seq<ObjSeg>): (r: (Sys, Errno))
    requires Shape(k) && ObjOk(osegs)
    ensures Shape(r.0)
  {
    if k.cur.None? || k.len < 5 then (k, ENOMEM)
    else
      var (k1, err1) := BeforeLoad(k);
      if err1 != Done then (k1, err1) else LoadAndMap(k1, ino, osegs)
  }

  // ----- fork ------------------------------------------------------------------------

  function AreaEntry(base: nat, useg: nat): Desc {
    Desc(base, PAGE, SUPER + READ + WRITE, useg)
  }

  /** A fresh process area with the given table around its own entry. */
  ghost function NewArea(k: Sys, table: seq<Desc>): (r: (Sys, Option<nat>))
    requires Shape(k) && |table| == SLOTS
    ensures Shape(r.0) && r.0.cur == k.cur && r.0.len == k.len
  {
    var (k1, useg) := Salloc(k, PAGE);
    if useg.None? then (k1, None)
    else
      var s := k1.segs[useg.value].(refs := 1);
      (k1.(segs := k1.segs[useg.value := s],
           uareas := k1.uareas + [useg.value],
           ents := k1.ents + table[4 := AreaEntry(s.base, useg.value)]), useg)
  }

  /** fork from the kernel: the other entries lose their flags and keep whatever
      `stale` bytes the page held. */
  ghost function ForkSuper(k: Sys, stale: seq<Desc>): (r: (Sys, Errno))
    requires Shape(k) && |stale| == SLOTS
    ensures Shape(r.0)
  {
    var (k1, useg) := NewArea(k, seq(SLOTS, i requires 0 <= i < SLOTS => stale[i].(flags := 0)));
    if useg.None? then (k1, ENOMEM) else (Invalidate(k1), Done)
  }

  /** A child's copy of an entry: a writable valid one turns copy-on-write. */
  function CopyEnt(e: Desc): Desc {
    if Valid(e) && Bit(e.flags, WRITE) then e.(flags := SetBit(e.flags - WRITE, COW)) else e
  }

  /** One more reference for every valid entry of `es` except slot 4. */
  function Addrefs(segs: seq<SegRec>, es: seq<Desc>): (r: seq<SegRec>)
    ensures |r| == |segs|
    decreases |es|
  {
    if |es| == 0 then segs
    else
      var n := |es| - 1;
      var r := Addrefs(segs, es[..n]);
      if n != 4 && Valid(es[n]) && es[n].segid < |r| then
          r[es[n].segid := r[es[n].segid].(refs := r[es[n].segid].refs + 1)]
      else r
  }

  function CurTable(k: Sys): (t: seq<Desc>)
    requires Shape(k) && k.cur.Some?
    ensures |t| == SLOTS
  {
    k.ents[SLOTS * k.cur.value..SLOTS * k.cur.value + SLOTS]
  }

  /** fork from a process: the child's table copies the parent's; the parent's
      context is saved at `ssp`, and the child's table becomes current. */
  ghost function ForkUser(k: Sys, sspSeg: nat, sspAddr: nat): (r: (Sys, Errno))
    requires Shape(k) && k.cur.Some?
    ensures Shape(r.0)
  {
    var t := CurTable(k);
    var (k1, useg) := NewArea(k, seq(SLOTS, i requires 0 <= i < SLOTS => CopyEnt(t[i])));
    if useg.None? then (k1, ENOMEM)
    else
      AddrefsShape(k1.segs, t);
      var (k2, found) := Lookup(k1.(segs := Addrefs(k1.segs, t)), sspSeg);
      if found.NoSegment? || sspAddr > found.desc.len then (k2, Trapped)
      else (Invalidate(k2.(cur := Some(|k.uareas|))), Done)
  }

  lemma {:induction false} AddrefsShape(segs: seq<SegRec>, es: seq<Desc>)
    ensures forall s :: 0 <= s < |segs| ==> Addrefs(segs, es)[s] == segs[s].(refs := Addrefs(segs, es)[s].refs)
    decreases |es|
  {
    if |es| > 0 {
      AddrefsShape(segs, es[..|es| - 1]);
    }
  }

  // ----- lookup --------------------------------------------------------------------

  function Flat(k: Sys): CSeg {
    CSeg(FLAT, VALID + SUPER + READ + WRITE + EXEC, k.memSize, 0)
  }

  function Fetch(d: Desc, segno: nat): CSeg {
    CSeg(segno, d.flags, d.size, d.base)
  }

  /** CPU::seg, through the 16-slot direct-mapped cache. */
  function Lookup(k: Sys, segno: nat): (r: (Sys, Found))
    requires Shape(k)
    ensures Shape(r.0) && r.0 == k.(cache := r.0.cache)
  {
    if segno == FLAT then (k, Found(Flat(k)))
    else
      var i := segno % 16;
      var s := k.cache[i];
      if Bit(s.flags, VALID) && s.seg == segno then (k, Found(s))
      else if k.cur.None? || segno >= k.len then
        (k.(cache := k.cache[i := s.(seg := segno, flags := 0)]), NoSegment(segno))
      else
        var c := Fetch(k.ents[Slot(k, segno)], segno);
        (k.(cache := k.cache[i := c]), Found(c))
  }

  /** What a machine without a cache would answer. */
  function Direct(k: Sys, segno: nat): Found
    requires Shape(k)
  {
    if segno == FLAT then Found(Flat(k))
    else if k.cur.None? || segno >= k.len then NoSegment(segno)
    else Found(Fetch(k.ents[Slot(k, segno)], segno))
  }

  /** The segment number that an address of segment `seg`, held in its cache slot,
      has after a lookup of `other`. */
  function Retargeted(seg: nat, other: nat): nat {
    if seg != FLAT && other != FLAT && other % 16 == seg % 16 then other else seg
  }

  // ----- privileged table changes --------------------------------------------------------

  function Reset(k: Sys): (r: Sys)
    requires Shape(k)
    ensures Shape(r)
  {
    Invalidate(k.(cur := None, len := 0))
  }

  /** SSMA with the base of process area `j`, and SSML: neither invalidates. */
  function Ssma(k: Sys, j: nat): (r: Sys)
    requires Shape(k) && j < |k.uareas| && k.len <= SLOTS
    ensures Shape(r)
  {
    k.(cur := Some(j))
  }

  function Ssml(k: Sys, n: nat): (r: Sys)
    requires Shape(k) && n <= SLOTS
    ensures Shape(r)
  {
    k.(len := n)
  }
}
