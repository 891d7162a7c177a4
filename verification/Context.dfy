/** The context that fork saves for a process (os.cc): its frame in memory, the
    return from it, and what saving it can do to the tables. */
module Context {
  import opened Codec
  import opened Heap
  import opened Kernel
  import opened KernelInv
  import opened KernelRun
  import opened Memory
  import opened Cpu
  import opened Movm
  import Stack
  import Isolation

  /** The first `n` registers in frame order: d0 to d7, then a0 to a6. */
  function Regs(n: nat): (rs: seq<nat>)
    ensures |rs| == n && forall i :: 0 <= i < n ==> rs[i] == i
  {
    seq(n, i => i)
  }

  /** An exception frame without a fault address, then the registers. */
  function ContextBytes(st: State): (b: seq<Byte>)
    requires Wf(st)
    ensures |b| == CONTEXT
  {
    RegsSize();
    Head(st) + ListBytes(st, Regs(15))
  }

  function Head(st: State): (b: seq<Byte>)
    requires Wf(st)
    ensures |b| == Stack.FRAME
  {
    Stack.FrameBytes(st.ccr, st.ir, st.smr, AReg(0, 0), st.a[7], st.pc)
  }

  lemma {:induction false} RegsSize()
    ensures ListSize(Regs(15)) == 74
  {
    SizeTo(15);
  }

  function UpTo(n: nat): nat {
    if n <= 8 then 4 * n else 32 + 6 * (n - 8)
  }

  lemma {:induction false} SizeTo(n: nat)
    requires n <= 15
    ensures ListSize(Regs(n)) == UpTo(n)
    decreases n
  {
    if n > 0 {
      SizeTo(n - 1);
      assert Regs(n) == Regs(n - 1) + [n - 1];
      SizeAppend(Regs(n - 1), n - 1);
    }
  }

  /** Memory with the first `n` registers of a frame at `p` written. */
  function WithRegs(m: seq<Byte>, p: nat, st: State, n: nat): (r: seq<Byte>)
    requires Wf(st) && n <= 15 && p + CONTEXT <= |m|
    ensures |r| == |m|
  {
    SizeTo(n);
    Splice(m, p + Stack.FRAME, ListBytes(st, Regs(n)))
  }

  lemma {:induction false} RegsStart(m: seq<Byte>, p: nat, st: State)
    requires Wf(st) && p + CONTEXT <= |m|
    ensures WithRegs(m, p, st, 0) == m
  {
  }

  lemma {:induction false} RegsNext(m: seq<Byte>, p: nat, st: State, n: nat)
    requires Wf(st) && n < 15 && p + CONTEXT <= |m|
    ensures var at := p + Stack.FRAME + UpTo(n);
            && at + RegSize(n) <= |m|
            && WithRegs(m, p, st, n + 1) == Splice(WithRegs(m, p, st, n), at, RegBytes(st, n))
  {
    SizeTo(n);
    SizeTo(n + 1);
    assert Regs(n + 1) == Regs(n) + [n];
    ListAppend(st, Regs(n), n);
    Extend(m, p + Stack.FRAME, ListBytes(st, Regs(n)), RegBytes(st, n));
  }

  /** The frame, then the registers: the whole context. */
  lemma {:induction false} ContextStored(m: seq<Byte>, p: nat, st: State)
    requires Wf(st) && p + CONTEXT <= |m|
    ensures WithRegs(Splice(m, p, Head(st)), p, st, 15) == Splice(m, p, ContextBytes(st))
  {
    RegsSize();
    Extend(m, p, Head(st), ListBytes(st, Regs(15)));
  }

  // ----- saving and loading ------------------------------------------------------------

  /** loadctx: the registers out of a frame at `p`. */
  function LoadContext(s: State, p: nat): (r: State)
    requires Wf(s) && p + CONTEXT <= |s.mem|
    ensures Wf(r)
  {
    RegsSize();
    LoadRegs(Headed(s, p), Regs(15), p + Stack.FRAME)
  }

  /** The registers of `r` are those of `st` as memory keeps them. */
  predicate SameContext(r: State, st: State)
    requires Wf(r) && Wf(st)
  {
    && (forall j :: 0 <= j < REGS ==> SameReg(j, r, st))
    && r.a[7] == AReg(st.a[7].seg % P18, st.a[7].addr % P36)
    && r.pc == AReg(st.pc.seg % P18, st.pc.addr % P36)
  }

  /** loadctx undoes savectx, from whatever state `s` it starts, as long as the
      frame is still there. */
  lemma {:induction false} ContextRoundTrip(st: State, s: State, p: nat)
    requires Wf(st) && Wf(s) && p + CONTEXT <= |s.mem| && s.mem[p..p + CONTEXT] == ContextBytes(st)
    ensures SameContext(LoadContext(s, p), st)
  {
    RegsSize();
    var frame := Head(st);
    var rest := ListBytes(st, Regs(15));
    SplitRun(s.mem, p, frame, rest);
    Stack.FrameReads(s.mem, p, st.ccr, st.ir, st.smr, AReg(0, 0), st.a[7], st.pc);
    RegsRoundTrip(st, s, p);
  }

  /** The state into which loadctx loads the listed registers. */
  function Headed(s: State, p: nat): (r: State)
    requires Wf(s) && p + CONTEXT <= |s.mem|
    ensures Wf(r) && r.mem == s.mem
  {
    var m := s.mem;
    s.(ccr := Uw(m, p), ir := Uw(m, p + 2), smr := Uw(m, p + 4),
       a := s.a[7 := PointerAt(m, p + 12)], pc := PointerAt(m, p + 18))
  }

  lemma {:induction false} RegsRoundTrip(st: State, s: State, p: nat)
    requires Wf(st) && Wf(s) && p + CONTEXT <= |s.mem| && ListSize(Regs(15)) == 74
    requires s.mem[p + Stack.FRAME..p + CONTEXT] == ListBytes(st, Regs(15))
    requires Uw(s.mem, p) == st.ccr % P18 && Uw(s.mem, p + 2) == st.ir % P18 && Uw(s.mem, p + 4) == st.smr % P18
    ensures var r := LoadContext(s, p);
            && (forall j :: 0 <= j < REGS ==> SameReg(j, r, st))
            && r.a[7] == PointerAt(s.mem, p + 12) && r.pc == PointerAt(s.mem, p + 18)
  {
    var s1 := Headed(s, p);
    LoadKeepsStack(s1, Regs(15), p + Stack.FRAME);
    forall j | 0 <= j < REGS
      ensures SameReg(j, LoadContext(s, p), st)
    {
      OneReg(st, s1, p + Stack.FRAME, j);
    }
  }

  lemma {:induction false} OneReg(st: State, s: State, p: nat, j: nat)
    requires Wf(st) && Wf(s) && p + 74 <= |s.mem| && ListSize(Regs(15)) == 74
             && s.mem[p..p + 74] == ListBytes(st, Regs(15))
    requires j < REGS && s.ccr == st.ccr % P18 && s.ir == st.ir % P18 && s.smr == st.smr % P18
    ensures SameReg(j, LoadRegs(s, Regs(15), p), st)
  {
    if j < 15 {
      assert Regs(15)[j] == j;
      LoadRestores(s, Regs(15), p, st, j);
    } else {
      LoadKeeps(s, Regs(15), p, j);
    }
  }

  // ----- the process area beyond its table ------------------------------------------

  const PID: nat := 512
  const PPID: nat := 514
  const STATUS: nat := 516
  const SSP: nat := 522

  /** A process's own ssp at first: in its area, 3072 bytes up. */
  function FirstSsp(): AReg {
    AReg(4, 3072)
  }

  /** The fields that both kinds of fork fill in a new area. */
  function Fields(m: seq<Byte>, base: nat, pid: nat, ppid: nat): (r: seq<Byte>)
    requires base + PAGE <= |m|
    ensures |r| == |m|
  {
    Numbers(Splice(m, base + SSP, PointerBytes(FirstSsp())), base, pid, ppid)
  }

  function Numbers(m: seq<Byte>, base: nat, pid: nat, ppid: nat): (r: seq<Byte>)
    requires base + PAGE <= |m|
    ensures |r| == |m|
  {
    Splice(Splice(m, base + PPID, WordBytes(ppid)), base + PID, WordBytes(pid))
  }

  lemma {:induction false} FieldsAre(m: seq<Byte>, m1: seq<Byte>, m2: seq<Byte>, base: nat, pid: nat, ppid: nat)
    requires base + PAGE <= |m| && m1 == Splice(m, base + SSP, PointerBytes(FirstSsp()))
    requires m2 == Numbers(m1, base, pid, ppid)
    ensures m2 == Fields(m, base, pid, ppid)
  {
  }

  /** They are read back from the new area, and lie in it beyond its table. */
  lemma {:induction false} FieldsRead(m: seq<Byte>, base: nat, pid: nat, ppid: nat)
    requires base + PAGE <= |m|
    ensures var r := Fields(m, base, pid, ppid);
            && Uw(r, base + PID) == pid % P18 && Uw(r, base + PPID) == ppid % P18
            && PointerAt(r, base + SSP) == FirstSsp()
            && forall i :: 0 <= i < |m| && !(base + TABLE <= i < base + PAGE) ==> r[i] == m[i]
  {
    var m1 := Splice(m, base + SSP, PointerBytes(FirstSsp()));
    var m2 := Splice(m1, base + PPID, WordBytes(ppid));
    var r := Splice(m2, base + PID, WordBytes(pid));
    PointerRoundTrip(m, base + SSP, FirstSsp());
    SpliceWord(m1, base + PPID, ppid);
    SpliceWord(m2, base + PID, pid);
    assert r[base + PPID] == m2[base + PPID] && r[base + PPID + 1] == m2[base + PPID + 1];
    assert forall i :: base + SSP <= i < base + SSP + 6 ==> r[i] == m1[i];
  }

  /** ... and that of the kernel marks as ready. */
  function KernelFields(m: seq<Byte>, base: nat): (r: seq<Byte>)
    requires base + PAGE <= |m|
    ensures |r| == |m|
  {
    Splice(Fields(m, base, 1, 1), base + STATUS, WordBytes(0))
  }

  lemma {:induction false} MaskedFields(m: seq<Byte>, m1: seq<Byte>, base: nat, pid: nat, ppid: nat)
    requires |m| == |m1| && base + PAGE <= |m| && Masked(m, base) == Masked(m1, base)
    ensures Masked(Fields(m, base, pid, ppid), base) == Masked(Fields(m1, base, pid, ppid), base)
    ensures Masked(KernelFields(m, base), base) == Masked(KernelFields(m1, base), base)
  {
    MaskedFieldStores(m, m1, base, pid, ppid);
    MaskedFieldStores(m, m1, base, 1, 1);
    MaskedSplice(Fields(m, base, 1, 1), Fields(m1, base, 1, 1), base + STATUS, WordBytes(0), base);
  }

  lemma {:induction false} MaskedFieldStores(m: seq<Byte>, m1: seq<Byte>, base: nat, pid: nat, ppid: nat)
    requires |m| == |m1| && base + PAGE <= |m| && Masked(m, base) == Masked(m1, base)
    ensures Masked(Fields(m, base, pid, ppid), base) == Masked(Fields(m1, base, pid, ppid), base)
  {
    var b, w, w1 := PointerBytes(FirstSsp()), WordBytes(ppid), WordBytes(pid);
    MaskedSplice(m, m1, base + SSP, b, base);
    var n, n1 := Splice(m, base + SSP, b), Splice(m1, base + SSP, b);
    MaskedSplice(n, n1, base + PPID, w, base);
    MaskedSplice(Splice(n, base + PPID, w), Splice(n1, base + PPID, w), base + PID, w1, base);
  }

  /** sizeof counts host bytes, two to a machine byte. */
  const CONTEXT_STEP: nat := 2 * CONTEXT

  /** savectx: the frame, and the moved ssp recorded in the area at `base`. */
  function Saved(m: seq<Byte>, p: nat, base: nat, st: State): (r: seq<Byte>)
    requires Wf(st) && p + CONTEXT <= |m| && base + PAGE <= |m|
    ensures |r| == |m|
  {
    Splice(Splice(m, p, ContextBytes(st)), base + SSP, PointerBytes(Moved(st.ssp, CONTEXT_STEP)))
  }

  // ----- what a saved context does to tables -------------------------------------------

  /** The frame at `p` meets no table. */
  predicate Misses(bases: seq<nat>, p: nat) {
    forall j :: 0 <= j < |bases| ==> p + CONTEXT <= bases[j] || bases[j] + TABLE <= p
  }

  /** The tables stay as they are whatever the registers hold exactly when the
      frame misses every one of them. */
  lemma {:induction false} TablesKeptIff(m: seq<Byte>, bases: seq<nat>, p: nat)
    requires Inside(bases, |m|) && p + CONTEXT <= |m|
    ensures (forall st: State :: Wf(st) ==> Tables(Splice(m, p, ContextBytes(st)), bases) == Tables(m, bases)) <==>
            Misses(bases, p)
  {
    if Misses(bases, p) {
      forall st: State | Wf(st)
        ensures Tables(Splice(m, p, ContextBytes(st)), bases) == Tables(m, bases)
      {
        SpliceOffTables(m, p, ContextBytes(st), bases);
      }
    }
    if forall st: State :: Wf(st) ==> Tables(Splice(m, p, ContextBytes(st)), bases) == Tables(m, bases) {
      forall j | 0 <= j < |bases|
        ensures p + CONTEXT <= bases[j] || bases[j] + TABLE <= p
      {
        if bases[j] < p + CONTEXT && p < bases[j] + TABLE {
          TableHit(m, bases, p, j);
        }
      }
    }
  }

  lemma {:induction false} SpliceOffTables(m: seq<Byte>, p: nat, b: seq<Byte>, bases: seq<nat>)
    requires Inside(bases, |m|) && p + |b| <= |m|
    requires forall j :: 0 <= j < |bases| ==> p + |b| <= bases[j] || bases[j] + TABLE <= p
    ensures Tables(Splice(m, p, b), bases) == Tables(m, bases)
  {
    var m' := Splice(m, p, b);
    forall j | 0 <= j < |bases|
      ensures SameOn(m', m, bases[j])
    {
    }
    TablesFrame(m', m, bases);
  }

  /** Registers with every bit clear, or every bit set. */
  function Uniform(ones: bool): (st: State)
    ensures Wf(st)
  {
    var w, l := if ones then P18 - 1 else 0, if ones then P36 - 1 else 0;
    State(AReg(w, l), seq(8, _ => l), seq(8, _ => AReg(w, l)), AReg(w, l), w, w, w, [], [])
  }

  /** A byte of the frame that no register content leaves fixed. */
  predicate Edge(i: nat) {
    i == 0 || i == 2 || i == 95 || i == 97
  }

  lemma {:induction false} EdgeBytes(st: State)
    requires Wf(st)
    ensures var b := ContextBytes(st);
            && b[0] == WordBytes(st.ccr)[0] && b[2] == WordBytes(st.ir)[0]
            && b[95] == LongBytes(st.a[6].addr)[1] && b[97] == LongBytes(st.a[6].addr)[3]
  {
    RegsSize();
    SizeTo(14);
    assert Regs(15) == Regs(14) + [14];
    ListAppend(st, Regs(14), 14);
    EdgesOf(Head(st), ListBytes(st, Regs(14)), PointerBytes(st.a[6]));
    HeadEdges(st);
  }

  lemma {:induction false} HeadEdges(st: State)
    requires Wf(st)
    ensures Head(st)[0] == WordBytes(st.ccr)[0] && Head(st)[2] == WordBytes(st.ir)[0]
  {
  }

  lemma {:induction false} EdgesOf(h: seq<Byte>, l: seq<Byte>, t: seq<Byte>)
    requires |h| == 24 && |l| == 68 && |t| == 6
    ensures var b := h + (l + t); b[0] == h[0] && b[2] == h[2] && b[95] == t[3] && b[97] == t[5]
  {
  }

  lemma {:induction false} EdgeIs(ones: bool, i: nat) returns (st: State)
    requires Edge(i)
    ensures Wf(st) && ContextBytes(st)[i] == if ones then P9 - 1 else 0
  {
    st := Uniform(ones);
    EdgeBytes(st);
    ExtremeBytes(ones);
  }

  lemma {:induction false} ExtremeBytes(ones: bool)
    ensures var v, w, l := if ones then P9 - 1 else 0, if ones then P18 - 1 else 0, if ones then P36 - 1 else 0;
            WordBytes(w)[0] == v && LongBytes(l)[1] == v && LongBytes(l)[3] == v
  {
  }

  /** The bytes of a descriptor other than the two spare ones. */
  predicate Decoded(o: nat) {
    o < DESC && o != 10 && o != 11
  }

  lemma {:induction false} DescInjective(m: seq<Byte>, m': seq<Byte>, p: nat, o: nat)
    requires p + DESC <= |m| && p + DESC <= |m'| && DescAt(m, p) == DescAt(m', p) && Decoded(o)
    ensures m[p + o] == m'[p + o]
  {
    WordsOfLong(m, m', p);
    WordsOfLong(m, m', p + 4);
    WordsOfLong(m, m', p + 12);
    BytesOfWord(m, m', p + o / 2 * 2);
  }

  lemma {:induction false} WordsOfLong(m: seq<Byte>, m': seq<Byte>, p: nat)
    requires p + 4 <= |m| && p + 4 <= |m'| && Ul(m, p) == Ul(m', p)
    ensures Uw(m, p) == Uw(m', p) && Uw(m, p + 2) == Uw(m', p + 2)
  {
  }

  lemma {:induction false} BytesOfWord(m: seq<Byte>, m': seq<Byte>, p: nat)
    requires p + 2 <= |m| && p + 2 <= |m'| && Uw(m, p) == Uw(m', p)
    ensures m[p] == m'[p] && m[p + 1] == m'[p + 1]
  {
  }

  /** Of a frame that meets the table at `b`, such a byte falls on the field of a
      descriptor. */
  lemma {:induction false} EdgeInTable(p: nat, b: nat) returns (i: nat, x: nat, o: nat)
    requires b < p + CONTEXT && p < b + TABLE
    ensures Edge(i) && x < SLOTS && Decoded(o) && p + i == b + DESC * x + o
  {
    if p < b {
      i := if (p + 97 - b) % DESC == 10 || (p + 97 - b) % DESC == 11 then 95 else 97;
    } else {
      i := if (p - b) % DESC == 10 || (p - b) % DESC == 11 then 2 else 0;
    }
    x, o := (p + i - b) / DESC, (p + i - b) % DESC;
  }

  lemma {:induction false} TablesDiffer(m: seq<Byte>, m': seq<Byte>, bases: seq<nat>, j: nat, x: nat, o: nat)
    requires Inside(bases, |m|) && |m'| == |m| && j < |bases| && x < SLOTS && Decoded(o)
    requires m[bases[j] + DESC * x + o] != m'[bases[j] + DESC * x + o]
    ensures Tables(m, bases) != Tables(m', bases)
  {
    TablesAt(m, bases, j, x);
    TablesAt(m', bases, j, x);
    if Tables(m, bases) == Tables(m', bases) {
      DescInjective(m, m', bases[j] + DESC * x, o);
    }
  }

  lemma {:induction false} TableHit(m: seq<Byte>, bases: seq<nat>, p: nat, j: nat)
    requires Inside(bases, |m|) && p + CONTEXT <= |m| && j < |bases|
    requires bases[j] < p + CONTEXT && p < bases[j] + TABLE
    ensures exists st: State :: Wf(st) && Tables(Splice(m, p, ContextBytes(st)), bases) != Tables(m, bases)
  {
    var i, x, o := EdgeInTable(p, bases[j]);
    var st0 := EdgeIs(false, i);
    var st1 := EdgeIs(true, i);
    var m0, m1 := Splice(m, p, ContextBytes(st0)), Splice(m, p, ContextBytes(st1));
    assert m0[p + i] != m1[p + i];
    TablesDiffer(m0, m1, bases, j, x, o);
  }

  // ----- a run after which fork overwrites a table -------------------------------------

  lemma {:induction false} TwoAreas()
    ensures Malloc([1], 4, PAGE) == ([1, 1], PAGE)
    ensures Malloc([1, 1], 4, PAGE) == ([1, 1, 1], 2 * PAGE)
  {
    assert Pages(PAGE) == 1;
    assert LiveEnd([1]) == 1 && LiveEnd([1, 1]) == 2;
    assert !InteriorHole([1], 1) && !InteriorHole([1, 1], 1);
    assert Placed([1], 1, 1) == [1, 1] && Placed([1, 1], 2, 1) == [1, 1, 1];
  }

  /** The first process, running: its area is page 1, mapped in slot 4. */
  ghost predicate FirstProcess(k: Sys) {
    && Shape(k) && k.memSize == 4 * PAGE && k.heap == [1, 1] && |k.segs| == 1 && k.uareas == [0]
    && k.segs[0].base == PAGE && k.cur == Some(0) && k.len == SLOTS && k.ents[4] == AreaEntry(PAGE, 0)
    && forall i :: 0 <= i < 16 ==> k.cache[i].flags == 0
  }

  /** ... and before the kernel points the table register at it. */
  ghost predicate FirstArea(k: Sys) {
    k.cur == None && k.len == 0 && |k.uareas| == 1 && FirstProcess(k.(cur := Some(0), len := SLOTS))
  }

  lemma {:induction false} FirstFork(stale: seq<Desc>)
    requires |stale| == SLOTS
    ensures FirstArea(ForkSuper(Boot(4 * PAGE), stale).0)
  {
    TwoAreas();
    var k := Boot(4 * PAGE);
    var t := seq(SLOTS, i requires 0 <= i < SLOTS => stale[i].(flags := 0));
    assert Salloc(k, PAGE).1 == Some(0);
    assert NewArea(k, t).0.ents == t[4 := AreaEntry(PAGE, 0)];
  }

  lemma {:induction false} FirstForkRun(stale: seq<Desc>)
    requires |stale| == SLOTS
    ensures Inv(Boot(4 * PAGE))
    ensures var ops := [ForkFirst(stale), SetLength(SLOTS), SetTable(0)];
            Runs(Boot(4 * PAGE), ops) && FirstProcess(After(Boot(4 * PAGE), ops))
  {
    BootInv(4 * PAGE);
    FirstFork(stale);
    var k1 := KernelRun.Step(Boot(4 * PAGE), ForkFirst(stale));
    assert FirstArea(k1);
    StartFirst(k1);
    var rest := [SetLength(SLOTS), SetTable(0)];
    assert [ForkFirst(stale), SetLength(SLOTS), SetTable(0)][1..] == rest;
  }

  lemma {:induction false} StartFirst(k: Sys)
    requires Inv(k) && FirstArea(k)
    ensures var ops := [SetLength(SLOTS), SetTable(0)]; Runs(k, ops) && FirstProcess(After(k, ops))
  {
    assert EmptyCache(k);
    var k2 := KernelRun.Step(k, SetLength(SLOTS));
    assert EmptyCache(k2);
    var k3 := KernelRun.Step(k2, SetTable(0));
    assert [SetLength(SLOTS), SetTable(0)][1..] == [SetTable(0)] && [SetTable(0)][1..] == [];
    assert Runs(k3, []) && After(k3, []) == k3;
    assert Runs(k2, [SetTable(0)]) && After(k2, [SetTable(0)]) == k3;
  }

  /** After that run, a fork that saves its context at 4:4052, where ssp is after
      five earlier saves, is not Enabled: the frame runs from byte 8148 into the
      child's table at 8192, and for some registers changes it. */
  lemma {:induction false} ContextHitsTable(k: Sys, m: seq<Byte>, bases: seq<nat>)
    requires Inv(k) && FirstProcess(k)
    requires |m| == k.memSize && bases == [PAGE, 2 * PAGE]
    ensures FirstSsp().addr + 5 * CONTEXT_STEP == 4052
    ensures SavePlace(k, 4, 4052) == Some(8148) && !Enabled(k, ForkProcess(4, 4052))
    ensures 1 in Child(k).uareas && |Child(k).segs| == 2 && Child(k).segs[1].base == 2 * PAGE
    ensures Inside(bases, |m|)
    ensures exists st: State :: Wf(st) && Tables(Splice(m, 8148, ContextBytes(st)), bases) != Tables(m, bases)
  {
    TwoAreas();
    assert Salloc(k, PAGE).1 == Some(1);
    AddrefsShape(NewArea(k, seq(SLOTS, i requires 0 <= i < SLOTS => CopyEnt(CurTable(k)[i]))).0.segs, CurTable(k));
    var c := Child(k);
    assert c.uareas == [0] + [1] && c.segs[1].base == 2 * PAGE;
    assert c.ents[4] == AreaEntry(PAGE, 0);
    assert Lookup(c, 4).1 == Found(Fetch(AreaEntry(PAGE, 0), 4));
    assert ContextPlace(c, 4, 4052) == Some(8148);
    assert 1 in c.uareas;
    TableHit(m, bases, 8148, 1);
  }

  // ----- a run after which SSMA goes stale ----------------------------------------------

  /** Two process areas, at pages 1 and 2, the table register at the first. */
  ghost predicate BothAreas(k: Sys) {
    && Shape(k) && k.memSize == 4 * PAGE && k.heap == [1, 1, 1] && |k.segs| == 2 && k.uareas == [0, 1]
    && k.cur == Some(0) && k.len == SLOTS && k.ents[5].flags == 0 && k.ents[SLOTS + 5].flags == 0
    && k.ents[4] == AreaEntry(PAGE, 0) && k.ents[SLOTS + 4] == AreaEntry(2 * PAGE, 1)
    && forall i :: 0 <= i < 16 ==> k.cache[i].flags == 0
  }

  ghost predicate AreasMade(k: Sys) {
    k.cur == None && k.len == 0 && |k.uareas| == 2 && BothAreas(k.(cur := Some(0), len := SLOTS))
  }

  lemma {:induction false} SecondFork(stale: seq<Desc>)
    requires |stale| == SLOTS
    ensures AreasMade(ForkSuper(ForkSuper(Boot(4 * PAGE), stale).0, stale).0)
  {
    TwoAreas();
    FirstFork(stale);
    var k0 := Boot(4 * PAGE);
    var k := ForkSuper(k0, stale).0;
    var t := seq(SLOTS, i requires 0 <= i < SLOTS => stale[i].(flags := 0));
    assert Salloc(k0, PAGE).1 == Some(0) && Salloc(k, PAGE).1 == Some(1);
    assert NewArea(k0, t).0.ents == t[4 := AreaEntry(PAGE, 0)];
    assert NewArea(k, t).0.ents == k.ents + t[4 := AreaEntry(2 * PAGE, 1)];
  }

  lemma {:induction false} Then(k: Sys, op: KernelRun.Op, rest: seq<KernelRun.Op>)
    requires Inv(k) && Enabled(k, op) && Runs(KernelRun.Step(k, op), rest)
    ensures Runs(k, [op] + rest) && After(k, [op] + rest) == After(KernelRun.Step(k, op), rest)
  {
    assert ([op] + rest)[1..] == rest;
  }

  /** ... and a segment besides the areas. */
  ghost predicate ThreeSegments(k: Sys) {
    && Shape(k) && |k.segs| == 3 && k.uareas == [0, 1] && k.cur == Some(0) && k.len == SLOTS
    && k.ents[5].flags == 0 && k.ents[SLOTS + 5].flags == 0
  }

  lemma {:induction false} ThirdSegment(k: Sys)
    requires BothAreas(k)
    ensures ThreeSegments(Salloc(k, PAGE).0)
  {
    assert Malloc([1, 1, 1], 4, PAGE) == ([1, 1, 1, 1], 3 * PAGE) by {
      assert Pages(PAGE) == 1 && LiveEnd([1, 1, 1]) == 3;
      assert Placed([1, 1, 1], 3, 1) == [1, 1, 1, 1];
    }
  }

  /** The first area maps it in slot 5, the second does not. */
  ghost predicate OneMaps(k: Sys) {
    && Shape(k) && k.uareas == [0, 1] && k.cur == Some(0) && k.len == SLOTS
    && Valid(k.ents[5]) && k.ents[SLOTS + 5].flags == 0
  }

  lemma {:induction false} MapThird(k: Sys)
    requires ThreeSegments(k)
    ensures OneMaps(Mmap(k, 2, 5).0)
  {
    MappingValid(k.segs[2].(refs := k.segs[2].refs + 1), 2);
  }

  lemma {:induction false} MappingValid(s: SegRec, sid: nat)
    ensures Valid(Mapping(s, sid))
  {
    assert Bit(SetBit(s.flags, VALID), VALID);
    BitMod(SetBit(s.flags, VALID));
  }

  lemma {:induction false} BitMod(n: nat)
    ensures Bit(n % P18, VALID) <==> Bit(n, VALID)
  {
  }

  /** Slot 5 of the first area is cached too. */
  ghost predicate Fetched(k: Sys) {
    OneMaps(k) && Lookup(k, 5) == (k, Found(Fetch(k.ents[5], 5)))
  }

  lemma {:induction false} FetchFifth(k: Sys)
    requires Inv(k) && OneMaps(k)
    ensures Fetched(Lookup(k, 5).0)
  {
    assert SlotOk(k, 5);
  }

  lemma {:induction false} UseSegment(k: Sys)
    requires Inv(k) && BothAreas(k)
    ensures Runs(k, Uses()) && Fetched(After(k, Uses()))
  {
    ThirdSegment(k);
    var k1 := KernelRun.Step(k, Allocate(PAGE));
    MapThird(k1);
    var k2 := KernelRun.Step(k1, Map(2, 5));
    FetchFifth(k2);
    Then(k2, Find(5), []);
    Then(k1, Map(2, 5), [Find(5)] + []);
    Then(k, Allocate(PAGE), [Map(2, 5)] + ([Find(5)] + []));
  }

  /** The kernel points its table register at the first area. */
  lemma {:induction false} PointAtFirst(k: Sys, rest: seq<KernelRun.Op>)
    requires Inv(k) && AreasMade(k) && Inv(k.(cur := Some(0), len := SLOTS))
    requires Runs(k.(cur := Some(0), len := SLOTS), rest)
    ensures var ops := [SetLength(SLOTS)] + ([SetTable(0)] + rest);
            Runs(k, ops) && After(k, ops) == After(k.(cur := Some(0), len := SLOTS), rest)
  {
    assert EmptyCache(k);
    var k1 := KernelRun.Step(k, SetLength(SLOTS));
    assert EmptyCache(k1);
    Then(k1, SetTable(0), rest);
    Then(k, SetLength(SLOTS), [SetTable(0)] + rest);
  }

  /** The kernel's two forks. */
  lemma {:induction false} TwoForks(k: Sys, stale: seq<Desc>, rest: seq<KernelRun.Op>)
    requires Inv(k) && |stale| == SLOTS && Inv(Forked(k, stale)) && Runs(Forked(k, stale), rest)
    ensures var ops := [ForkFirst(stale)] + ([ForkFirst(stale)] + rest);
            Runs(k, ops) && After(k, ops) == After(Forked(k, stale), rest)
  {
    var k1 := KernelRun.Step(k, ForkFirst(stale));
    Then(k1, ForkFirst(stale), rest);
    Then(k, ForkFirst(stale), [ForkFirst(stale)] + rest);
  }

  ghost function Forked(k: Sys, stale: seq<Desc>): Sys
    requires Shape(k) && |stale| == SLOTS
  {
    ForkSuper(ForkSuper(k, stale).0, stale).0
  }

  lemma {:induction false} ForkedInv(k: Sys, stale: seq<Desc>)
    requires Inv(k) && |stale| == SLOTS
    ensures Inv(Forked(k, stale))
  {
    ForkSuperInv(k, stale);
    ForkSuperInv(ForkSuper(k, stale).0, stale);
  }

  function Uses(): seq<KernelRun.Op> {
    [Allocate(PAGE)] + ([Map(2, 5)] + ([Find(5)] + []))
  }

  function StaleOps(stale: seq<Desc>): seq<KernelRun.Op> {
    [ForkFirst(stale)] + ([ForkFirst(stale)] + ([SetLength(SLOTS)] + ([SetTable(0)] + Uses())))
  }

  /** From power-on, two forks of the kernel, the table register at the first area, a
      segment mapped in its slot 5 and looked up there. SSMA to the second area would
      still find the first one's segment, where the second has none. */
  lemma {:induction false} StaleRun(stale: seq<Desc>)
    requires |stale| == SLOTS
    ensures Inv(Boot(4 * PAGE)) && Runs(Boot(4 * PAGE), StaleOps(stale))
    ensures var k := After(Boot(4 * PAGE), StaleOps(stale));
            && k.uareas == [0, 1] && k.len == SLOTS
            && Lookup(Ssma(k, 1), 5).1 != Direct(Ssma(k, 1), 5)
  {
    BootInv(4 * PAGE);
    SecondFork(stale);
    ForkedInv(Boot(4 * PAGE), stale);
    var k2 := Forked(Boot(4 * PAGE), stale);
    PointedRun(k2);
    TwoForks(Boot(4 * PAGE), stale, [SetLength(SLOTS)] + ([SetTable(0)] + Uses()));
    FetchedStale(After(k2, [SetLength(SLOTS)] + ([SetTable(0)] + Uses())));
  }

  lemma {:induction false} PointedRun(k: Sys)
    requires Inv(k) && AreasMade(k)
    ensures var ops := [SetLength(SLOTS)] + ([SetTable(0)] + Uses()); Runs(k, ops) && Fetched(After(k, ops))
  {
    TableChangeInv(k, Some(0), SLOTS);
    UseSegment(k.(cur := Some(0), len := SLOTS));
    PointAtFirst(k, Uses());
  }

  lemma {:induction false} FetchedStale(k: Sys)
    requires Inv(k) && Fetched(k)
    ensures Lookup(Ssma(k, 1), 5).1 != Direct(Ssma(k, 1), 5)
  {
    Isolation.SsmaGoesStale(k, 5, 1);
  }

  function AreaOps(stale: seq<Desc>): seq<KernelRun.Op> {
    [ForkFirst(stale)] + ([ForkFirst(stale)] + ([SetLength(SLOTS)] + ([SetTable(0)] + [])))
  }

  lemma {:induction false} AreasReached(stale: seq<Desc>)
    requires |stale| == SLOTS && Inv(Boot(4 * PAGE))
    ensures Runs(Boot(4 * PAGE), AreaOps(stale)) && BothAreas(After(Boot(4 * PAGE), AreaOps(stale)))
  {
    SecondFork(stale);
    ForkedInv(Boot(4 * PAGE), stale);
    var k2 := Forked(Boot(4 * PAGE), stale);
    TableChangeInv(k2, Some(0), SLOTS);
    PointAtFirst(k2, []);
    TwoForks(Boot(4 * PAGE), stale, [SetLength(SLOTS)] + ([SetTable(0)] + []));
  }

  /** After the first four of these steps, the last byte of the address space in the
      second area's segment is the last byte of the first area. */
  lemma {:induction false} WrapRun(stale: seq<Desc>)
    requires |stale| == SLOTS
    ensures Inv(Boot(4 * PAGE)) && Runs(Boot(4 * PAGE), AreaOps(stale))
    ensures WrapsIntoFirst(After(Boot(4 * PAGE), AreaOps(stale)))
  {
    BootInv(4 * PAGE);
    AreasReached(stale);
    AreasWrap(After(Boot(4 * PAGE), AreaOps(stale)));
  }

  ghost predicate WrapsIntoFirst(k: Sys) {
    && Shape(k) && k.uareas == [0, 1] && k.ents[4].segid == 0 && k.ents[SLOTS + 4].segid == 1
    && var first, second := Fetch(k.ents[4], 4), Fetch(k.ents[SLOTS + 4], 4);
       && Isolation.Passes(first, PAGE - 1, 1, READ) && Isolation.Passes(second, P64 - 1, 1, READ)
       && Isolation.Phys(second, P64 - 1, 1) == Isolation.Phys(first, PAGE - 1, 1)
  }

  lemma {:induction false} AreasWrap(k: Sys)
    requires Inv(k) && BothAreas(k)
    ensures WrapsIntoFirst(k)
  {
    Isolation.WrapMeetsNeighbour(k, 4, SLOTS + 4);
  }
}
