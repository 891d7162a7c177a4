/** MOVM regs,(ar)+ and MOVM -(ar),regs: storing a list of registers and loading
    it back. */
module Movm {
  import opened Codec
  import opened Kernel
  import opened Memory
  import opened Cpu

  /** A step's machine state, reached also when it faults, and its outcome. */
  datatype Result = Result(st: State, out: Out<nat>)

  // registers 0-7 are d0-d7, 8-14 are a0-a6, then ccr, ir and smr
  const REGS: nat := 18

  predicate Registers(rs: seq<nat>) {
    forall i :: 0 <= i < |rs| ==> rs[i] < REGS
  }

  /** A list of registers in ascending order, as every mask is read. */
  ghost predicate IsList(rs: seq<nat>) {
    Registers(rs) && forall i, j :: 0 <= i < j < |rs| ==> rs[i] < rs[j]
  }

  /** The registers of the first `n` bits of a mask. */
  function Listed(mask: seq<bool>, n: nat): (rs: seq<nat>)
    requires n <= |mask|
    ensures forall k :: 0 <= k < |rs| ==> rs[k] < n
  {
    if n == 0 then []
    else if mask[n - 1] then Listed(mask, n - 1) + [n - 1]
    else Listed(mask, n - 1)
  }

  /** A mask names its set bits, each once, in ascending order. */
  lemma {:induction false} ListedExactly(mask: seq<bool>, n: nat)
    requires n <= |mask| <= REGS
    ensures IsList(Listed(mask, n)) && forall i :: i in Listed(mask, n) <==> 0 <= i < n && mask[i]
    decreases n
  {
    if n > 0 {
      ListedExactly(mask, n - 1);
    }
  }

  function RegSize(i: nat): nat {
    if i > 14 then 2 else if i > 7 then 6 else 4
  }

  function RegBytes(st: State, i: nat): (b: seq<Byte>)
    requires Wf(st) && i < REGS
    ensures |b| == RegSize(i)
  {
    if i < 8 then LongBytes(st.d[i])
    else if i < 15 then PointerBytes(st.a[i - 8])
    else WordBytes(if i == 15 then st.ccr else if i == 16 then st.ir else st.smr)
  }

  /** The size of the listed registers. */
  function ListSize(rs: seq<nat>): nat {
    if |rs| == 0 then 0 else RegSize(rs[0]) + ListSize(rs[1..])
  }

  /** Their bytes, in ascending register order. */
  function ListBytes(st: State, rs: seq<nat>): (b: seq<Byte>)
    requires Wf(st) && forall i :: 0 <= i < |rs| ==> rs[i] < REGS
    ensures |b| == ListSize(rs)
  {
    if |rs| == 0 then [] else RegBytes(st, rs[0]) + ListBytes(st, rs[1..])
  }

  lemma {:induction false} SizeAppend(rs: seq<nat>, i: nat)
    ensures ListSize(rs + [i]) == ListSize(rs) + RegSize(i)
    decreases |rs|
  {
    if |rs| == 0 {
      assert rs + [i] == [i] && [i][1..] == [];
    } else {
      assert (rs + [i])[1..] == rs[1..] + [i];
      SizeAppend(rs[1..], i);
    }
  }

  lemma {:induction false} ListAppend(st: State, rs: seq<nat>, i: nat)
    requires Wf(st) && i < REGS && forall k :: 0 <= k < |rs| ==> rs[k] < REGS
    ensures ListBytes(st, rs + [i]) == ListBytes(st, rs) + RegBytes(st, i)
    decreases |rs|
  {
    if |rs| == 0 {
      assert rs + [i] == [i] && [i][1..] == [];
    } else {
      assert (rs + [i])[1..] == rs[1..] + [i];
      ListAppend(st, rs[1..], i);
    }
  }

  function SetReg(st: State, i: nat, m: seq<Byte>, p: nat): (r: State)
    requires Wf(st) && i < REGS && p + RegSize(i) <= |m|
    ensures Wf(r)
  {
    if i < 8 then st.(d := st.d[i := Ul(m, p)])
    else if i < 15 then st.(a := st.a[i - 8 := PointerAt(m, p)])
    else if i == 15 then st.(ccr := Uw(m, p))
    else if i == 16 then st.(ir := Uw(m, p))
    else st.(smr := Uw(m, p))
  }

  /** Load the listed registers out of the bytes at `p`. */
  function LoadRegs(st: State, rs: seq<nat>, p: nat): (r: State)
    requires Wf(st) && p + ListSize(rs) <= |st.mem| && forall i :: 0 <= i < |rs| ==> rs[i] < REGS
    ensures Wf(r) && r.mem == st.mem && r.tab == st.tab
    decreases |rs|
  {
    if |rs| == 0 then st else LoadRegs(SetReg(st, rs[0], st.mem, p), rs[1..], p + RegSize(rs[0]))
  }

  /** The 32-bit correction of the address register beyond its 4-byte step. */
  function Readjust(size: nat): nat {
    (size - 4) % 0x1_0000_0000
  }

  predicate Privileged(rs: seq<nat>) {
    16 in rs || 17 in rs
  }

  function WithA(st: State, r: nat, ar: AReg): (s: State)
    requires Wf(st) && r < 8 && ar.addr < P64
    ensures Wf(s)
  {
    st.(a := st.a[r := ar])
  }

  /** The base register steps by 4 in the decoding and by the rest after it. */
  function Step(size: nat): nat {
    4 + Readjust(size)
  }

  /** MOVM regs,(ar)+; `out` is where the bytes went. */
  ghost function Save(st: State, rs: seq<nat>, r: nat): (res: Result)
    requires Wf(st) && r < 8 && Registers(rs)
    ensures Wf(res.st)
  {
    match AddrOf(st, st.a[r])
    case Fault(t, at) => Result(st, Fault(t, at))
    case Wild => Result(st, Wild)
    case Ok(p) => SaveAt(WithA(st, r, Moved(st.a[r], Step(ListSize(rs)))), rs, p)
  }

  ghost function SaveAt(st: State, rs: seq<nat>, p: Addr): (res: Result)
    requires Wf(st) && Registers(rs)
    ensures Wf(res.st)
  {
    if Privileged(rs) && !Super(st) then Result(st, Fault(ePERM, st.pc))
    else
      match Access(st, p, ListSize(rs), WRITE)
      case Ok(at) => Result(st.(mem := Splice(st.mem, at, ListBytes(st, rs))), Ok(at))
      case Fault(t, f) => Result(st, Fault(t, f))
      case Wild => Result(st, Wild)
  }

  /** MOVM -(ar),regs. */
  ghost function Restore(st: State, rs: seq<nat>, r: nat): (res: Result)
    requires Wf(st) && r < 8 && Registers(rs)
    ensures Wf(res.st)
  {
    match AddrOf(st, st.a[r])
    case Fault(t, at) => Result(st, Fault(t, at))
    case Wild => Result(st, Wild)
    case Ok(p) =>
      var st1 := WithA(st, r, Moved(st.a[r], 0 - Step(ListSize(rs))));
      RestoreAt(st1, rs, Addr(p.c, st1.a[r].addr))
  }

  ghost function RestoreAt(st: State, rs: seq<nat>, p: Addr): (res: Result)
    requires Wf(st) && Registers(rs)
    ensures Wf(res.st)
  {
    if Privileged(rs) && !Super(st) then Result(st, Fault(ePERM, st.pc))
    else
      match Access(st, p, ListSize(rs), READ)
      case Ok(at) => Result(LoadRegs(st, rs, at), Ok(at))
      case Fault(t, f) => Result(st, Fault(t, f))
      case Wild => Result(st, Wild)
  }

  /** A register at the width memory keeps of it. */
  predicate SameReg(i: nat, now: State, was: State)
    requires Wf(now) && Wf(was) && i < REGS
  {
    if i < 8 then now.d[i] == was.d[i] % P36
    else if i < 15 then now.a[i - 8] == AReg(was.a[i - 8].seg % P18, was.a[i - 8].addr % P36)
    else if i == 15 then now.ccr == was.ccr % P18
    else if i == 16 then now.ir == was.ir % P18
    else now.smr == was.smr % P18
  }

  predicate Untouched(i: nat, now: State, was: State)
    requires Wf(now) && Wf(was) && i < REGS
  {
    if i < 8 then now.d[i] == was.d[i]
    else if i < 15 then now.a[i - 8] == was.a[i - 8]
    else if i == 15 then now.ccr == was.ccr
    else if i == 16 then now.ir == was.ir
    else now.smr == was.smr
  }

  lemma {:induction false} SetRegReads(st: State, i: nat, m: seq<Byte>, p: nat, was: State)
    requires Wf(st) && Wf(was) && i < REGS && p + RegSize(i) <= |m|
    requires m[p..p + RegSize(i)] == RegBytes(was, i)
    ensures SameReg(i, SetReg(st, i, m, p), was)
    ensures forall j :: 0 <= j < REGS && j != i ==> Untouched(j, SetReg(st, i, m, p), st)
    ensures SetReg(st, i, m, p).a[7] == st.a[7]
  {
    var b := RegBytes(was, i);
    assert m == Splice(m, p, b);
    if i < 8 {
      SpliceLong(m, p, was.d[i]);
    } else if i < 15 {
      PointerRoundTrip(m, p, was.a[i - 8]);
    } else {
      SpliceWord(m, p, if i == 15 then was.ccr else if i == 16 then was.ir else was.smr);
    }
  }

  lemma {:induction false} SplitRun(m: seq<Byte>, p: nat, a: seq<Byte>, b: seq<Byte>)
    requires p + |a + b| <= |m| && m[p..p + |a + b|] == a + b
    ensures m[p..p + |a|] == a && m[p + |a|..p + |a| + |b|] == b
  {
    assert m[p..p + |a|] == m[p..p + |a + b|][..|a|] && (a + b)[..|a|] == a;
    assert m[p + |a|..p + |a| + |b|] == m[p..p + |a + b|][|a|..] && (a + b)[|a|..] == b;
  }

  /** Registers outside the list stay as they are. */
  lemma {:induction false} LoadKeeps(st: State, rs: seq<nat>, p: nat, j: nat)
    requires Wf(st) && p + ListSize(rs) <= |st.mem| && forall i :: 0 <= i < |rs| ==> rs[i] < REGS
    requires j < REGS && j !in rs
    ensures Untouched(j, LoadRegs(st, rs, p), st)
    decreases |rs|
  {
    if |rs| > 0 {
      assert rs[0] in rs;
      LoadKeeps(SetReg(st, rs[0], st.mem, p), rs[1..], p + RegSize(rs[0]), j);
    }
  }

  /** Registers that no list can name stay as they are. */
  lemma {:induction false} LoadKeepsStack(st: State, rs: seq<nat>, p: nat)
    requires Wf(st) && p + ListSize(rs) <= |st.mem| && forall i :: 0 <= i < |rs| ==> rs[i] < REGS
    ensures var st' := LoadRegs(st, rs, p); st'.a[7] == st.a[7] && st'.pc == st.pc && st'.ssp == st.ssp
    decreases |rs|
  {
    if |rs| > 0 {
      LoadKeepsStack(SetReg(st, rs[0], st.mem, p), rs[1..], p + RegSize(rs[0]));
    }
  }

  /** Loading the bytes of a list restores its registers. */
  lemma {:induction false} LoadRestores(st: State, rs: seq<nat>, p: nat, was: State, j: nat)
    requires Wf(st) && Wf(was) && IsList(rs) && j in rs && p + ListSize(rs) <= |st.mem|
    requires st.mem[p..p + ListSize(rs)] == ListBytes(was, rs)
    ensures SameReg(j, LoadRegs(st, rs, p), was)
    decreases |rs|
  {
    var rest := rs[1..];
    FirstOfList(st.mem, rs, p, was);
    var st1 := SetReg(st, rs[0], st.mem, p);
    if rs[0] == j {
      SetRegReads(st, j, st.mem, p, was);
      LoadKeeps(st1, rest, p + RegSize(j), j);
    } else {
      LoadRestores(st1, rest, p + RegSize(rs[0]), was, j);
    }
  }

  lemma {:induction false} FirstOfList(m: seq<Byte>, rs: seq<nat>, p: nat, was: State)
    requires Wf(was) && IsList(rs) && |rs| > 0 && p + ListSize(rs) <= |m|
             && m[p..p + ListSize(rs)] == ListBytes(was, rs)
    ensures var n := RegSize(rs[0]);
            && m[p..p + n] == RegBytes(was, rs[0]) && IsList(rs[1..])
            && m[p + n..p + n + ListSize(rs[1..])] == ListBytes(was, rs[1..])
  {
    SplitRun(m, p, RegBytes(was, rs[0]), ListBytes(was, rs[1..]));
  }

  /** The base register `r` is not in the list (a7 cannot be). */
  predicate Excludes(rs: seq<nat>, r: nat) {
    r == 7 || 8 + r !in rs
  }

  lemma {:induction false} SmallList(rs: seq<nat>, lo: nat)
    requires IsList(rs) && lo <= REGS && forall i :: 0 <= i < |rs| ==> lo <= rs[i]
    ensures ListSize(rs) <= 6 * (REGS - lo)
    decreases |rs|
  {
    if |rs| > 0 {
      SmallList(rs[1..], rs[0] + 1);
    }
  }

  lemma {:induction false} SameListBytes(st: State, st1: State, rs: seq<nat>, r: nat)
    requires Wf(st) && Wf(st1) && r < 8 && Excludes(rs, r) && forall i :: 0 <= i < |rs| ==> rs[i] < REGS
    requires st1 == st.(a := st1.a) && forall j :: 0 <= j < 8 && j != r ==> st1.a[j] == st.a[j]
    ensures ListBytes(st1, rs) == ListBytes(st, rs)
    decreases |rs|
  {
    if |rs| > 0 {
      assert rs[0] in rs;
      SameListBytes(st, st1, rs[1..], r);
    }
  }

  lemma {:induction false} StoreIs(st: State, rs: seq<nat>, r: nat)
    requires Wf(st) && r < 8 && IsList(rs) && Save(st, rs, r).out.Ok? && ListSize(rs) >= 4
    ensures var s, size := Save(st, rs, r), ListSize(rs);
            var st1 := WithA(st, r, Moved(st.a[r], size));
            && size < 0x100 && Step(size) == size
            && AddrOf(st, st.a[r]).Ok? && Access(st, AddrOf(st, st.a[r]).value, size, WRITE) == s.out
            && s.st == st1.(mem := Splice(st.mem, s.out.value, ListBytes(st1, rs)))
  {
    SmallList(rs, 0);
  }

  /** The store writes exactly the list's bytes, between the old and the new value
      of the base register. */
  lemma {:induction false} StoreWrites(st: State, rs: seq<nat>, r: nat)
    requires Wf(st) && r < 8 && IsList(rs) && Save(st, rs, r).out.Ok? && ListSize(rs) >= 4
    ensures var s, size := Save(st, rs, r), ListSize(rs);
            && OnlyAt(st.mem, s.st.mem, s.out.value, size)
            && s.st.a[r] == Moved(st.a[r], size) && size < 0x100
            && (Excludes(rs, r) ==> s.st.mem[s.out.value..s.out.value + size] == ListBytes(st, rs))
  {
    StoreIs(st, rs, r);
    if Excludes(rs, r) {
      StoreBytes(st, rs, r);
    }
  }

  lemma {:induction false} StoreBytes(st: State, rs: seq<nat>, r: nat)
    requires Wf(st) && r < 8 && IsList(rs) && Save(st, rs, r).out.Ok? && ListSize(rs) >= 4 && Excludes(rs, r)
    ensures var s, size := Save(st, rs, r), ListSize(rs);
            s.out.value + size <= |s.st.mem| && s.st.mem[s.out.value..s.out.value + size] == ListBytes(st, rs)
  {
    StoreIs(st, rs, r);
    var st1 := WithA(st, r, Moved(st.a[r], ListSize(rs)));
    SplicedThere(st.mem, Save(st, rs, r).out.value, ListBytes(st1, rs));
    SameListBytes(st, st1, rs, r);
  }

  lemma {:induction false} SplicedThere(m: seq<Byte>, at: nat, b: seq<Byte>)
    requires at + |b| <= |m|
    ensures Splice(m, at, b)[at..at + |b|] == b
  {
  }

  /** `mid` can follow the store: it kept the base register, the stored bytes and
      the segment table. */
  ghost predicate Keeps(st: State, rs: seq<nat>, r: nat, mid: State)
    requires Wf(st) && Wf(mid) && r < 8 && IsList(rs)
  {
    var s := Save(st, rs, r);
    && s.out.Ok? && mid.a[r] == s.st.a[r] && mid.tab == st.tab && |mid.mem| == |st.mem|
    && var at, size := s.out.value, ListSize(rs);
       at + size <= |st.mem| && mid.mem[at..at + size] == s.st.mem[at..at + size]
  }

  /** A successful load steps the base register back to where the store began. */
  lemma {:induction false} LoadReads(st: State, rs: seq<nat>, r: nat, mid: State)
    requires Wf(st) && Wf(mid) && r < 8 && IsList(rs) && ListSize(rs) >= 4
    requires Keeps(st, rs, r, mid) && Restore(mid, rs, r).out.Ok?
    ensures var at := Save(st, rs, r).out.value;
            && at + ListSize(rs) <= |mid.mem|
            && Restore(mid, rs, r) == Result(LoadRegs(WithA(mid, r, st.a[r]), rs, at), Ok(at))
  {
    var size := ListSize(rs);
    StoreIs(st, rs, r);
    MovedBack(st.a[r], size);
    var p := AddrOf(st, st.a[r]).value;
    assert AddrOf(mid, mid.a[r]).Ok? && AddrOf(mid, mid.a[r]).value.c == p.c;
    assert Moved(mid.a[r], 0 - Step(size)) == st.a[r];
    SameAccess(st, WithA(mid, r, st.a[r]), p, size);
  }

  lemma {:induction false} SameAccess(st: State, mid: State, p: Addr, n: nat)
    requires |mid.mem| == |st.mem| && Access(st, p, n, WRITE).Ok? && Access(mid, p, n, READ).Ok?
    ensures Access(mid, p, n, READ) == Access(st, p, n, WRITE)
  {
  }

  lemma {:induction false} MovedBack(ar: AReg, n: nat)
    requires ar.addr < P64 && n < P64
    ensures Moved(Moved(ar, n), 0 - n) == ar
  {
  }

  /** MOVM round trip. A store through (ar)+, then anything that keeps the base
      register, the stored bytes and the segment table, then a load through -(ar):
      every listed register is back, the base register too, and no other register
      is changed by the load. The list must measure at least 4 bytes. */
  lemma {:induction false} RoundTrip(st: State, rs: seq<nat>, r: nat, mid: State)
    requires Wf(st) && Wf(mid) && r < 8 && IsList(rs) && Excludes(rs, r) && ListSize(rs) >= 4
    requires Keeps(st, rs, r, mid) && Restore(mid, rs, r).out.Ok?
    ensures var l := Restore(mid, rs, r);
            && (forall j :: j in rs ==> SameReg(j, l.st, st))
            && (forall j :: 0 <= j < REGS && j !in rs && j != 8 + r ==> Untouched(j, l.st, mid))
            && l.st.a[r] == st.a[r] && l.st.pc == mid.pc && l.st.ssp == mid.ssp && l.st.mem == mid.mem
            && l.out == Save(st, rs, r).out
  {
    LoadReads(st, rs, r, mid);
    StoredStill(st, rs, r, mid);
    LoadedBack(mid, r, st.a[r], rs, Save(st, rs, r).out.value, st);
  }

  lemma {:induction false} StoredStill(st: State, rs: seq<nat>, r: nat, mid: State)
    requires Wf(st) && Wf(mid) && r < 8 && IsList(rs) && Excludes(rs, r) && ListSize(rs) >= 4 && Keeps(st, rs, r, mid)
    ensures var at := Save(st, rs, r).out.value; mid.mem[at..at + ListSize(rs)] == ListBytes(st, rs)
  {
    StoreBytes(st, rs, r);
    KeptStretch(st, rs, r, mid);
  }

  lemma {:induction false} KeptStretch(st: State, rs: seq<nat>, r: nat, mid: State)
    requires Wf(st) && Wf(mid) && r < 8 && IsList(rs) && Keeps(st, rs, r, mid)
    ensures var s, n := Save(st, rs, r), ListSize(rs);
            && s.out.value + n <= |mid.mem| && s.out.value + n <= |s.st.mem|
            && mid.mem[s.out.value..s.out.value + n] == s.st.mem[s.out.value..s.out.value + n]
  {
  }

  /** Loading the bytes of a list, the base register set to `ar`. */
  lemma {:induction false} LoadedBack(mid: State, r: nat, ar: AReg, rs: seq<nat>, at: nat, was: State)
    requires Wf(mid) && Wf(was) && r < 8 && ar.addr < P64 && IsList(rs) && Excludes(rs, r)
    requires at + ListSize(rs) <= |mid.mem| && mid.mem[at..at + ListSize(rs)] == ListBytes(was, rs)
    ensures var l := LoadRegs(WithA(mid, r, ar), rs, at);
            && (forall j :: j in rs ==> SameReg(j, l, was))
            && (forall j :: 0 <= j < REGS && j !in rs && j != 8 + r ==> Untouched(j, l, mid))
            && l.a[r] == ar && l.pc == mid.pc && l.ssp == mid.ssp && l.mem == mid.mem
  {
    var m1 := WithA(mid, r, ar);
    forall j | j in rs
      ensures SameReg(j, LoadRegs(m1, rs, at), was)
    {
      LoadRestores(m1, rs, at, was, j);
    }
    forall j | 0 <= j < REGS && j !in rs
      ensures Untouched(j, LoadRegs(m1, rs, at), m1)
    {
      LoadKeeps(m1, rs, at, j);
    }
    LoadKeepsStack(m1, rs, at);
    if r < 7 {
      assert Untouched(8 + r, LoadRegs(m1, rs, at), m1);
    }
  }

  /** With a single two-byte register the 32-bit correction wraps and the base
      register runs away by 2^32. */
  lemma {:induction false} ShortListRunsAway(st: State, i: nat, r: nat)
    requires Wf(st) && r < 8 && 15 <= i < REGS && Save(st, [i], r).out.Ok?
    ensures ListSize([i]) == 2 && Save(st, [i], r).st.a[r] == Moved(st.a[r], 0x1_0000_0000 + 2)
  {
    assert [i][1..] == [];
  }
}
