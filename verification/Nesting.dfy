/** Well-nested runs: calls, frames, register saves and traps, to any depth and in
    any mixture, around arbitrary code that leaves the stacked bytes alone. */
module Nesting {
  import opened Codec
  import opened Kernel
  import opened Memory
  import opened Cpu
  import opened Movm
  import opened Stack

  /** One element of a run. `Plain` is any stretch of code, given by the state it
      ends in; the others bracket a body. */
  datatype Item =
    | Plain(post: State)
    | Call(next: nat, dest: nat, body: seq<Item>)
    | CallFar(next: nat, target: AReg, body: seq<Item>)
    | Frame(l: nat, n: int, next: nat, body: seq<Item>, last: nat)
    | Saved(rs: seq<nat>, r: nat, body: seq<Item>)
    | Interrupt(num: nat, fault: AReg, body: seq<Item>)

  /** A stretch of memory. */
  datatype Stretch = Stretch(at: nat, n: nat)

  ghost predicate SameIn(h: Stretch, m: seq<Byte>, m2: seq<Byte>) {
    |m2| == |m| && forall p :: h.at <= p < h.at + h.n && p < |m| ==> m2[p] == m[p]
  }

  predicate Disjoint(h: Stretch, g: Stretch) {
    h.at + h.n <= g.at || g.at + g.n <= h.at
  }

  /** The stacked bytes, the segment table and the size of memory are kept. */
  ghost predicate Kept(held: seq<Stretch>, st: State, st2: State) {
    && st2.tab == st.tab && |st2.mem| == |st.mem|
    && forall k :: 0 <= k < |held| ==> SameIn(held[k], st.mem, st2.mem)
  }

  /** The opening step of a bracket and the number of bytes it stacks. */
  ghost function Open(item: Item, st: State): (r: (Result, nat))
    requires Wf(st) && !item.Plain? && ItemOk(item, st)
    ensures Wf(r.0.st)
  {
    match item
    case Call(next, dest, _) => (Bsr(st, next, dest), 6)
    case CallFar(next, target, _) => (Jsr(st, next, target), 6)
    case Frame(l, n, next, _, _) => (Link(st, l, n, next), 6)
    case Saved(rs, r, _) => (Save(st, rs, r), ListSize(rs))
    case Interrupt(num, fault, _) => (Trap(st, num, fault), FRAME)
  }

  ghost function Close(item: Item, st: State): (r: Result)
    requires Wf(st) && !item.Plain? && ItemOk(item, st)
    ensures Wf(r.st)
  {
    match item
    case Call(_, _, _) => Rts(st)
    case CallFar(_, _, _) => Rts(st)
    case Frame(l, _, _, _, last) => Unlk(st, l, last)
    case Saved(rs, r, _) => Restore(st, rs, r)
    case Interrupt(_, _, _) => Rte(st)
  }

  /** Operands in range: addresses of the machine's width, a link register other
      than a7, a register list of at least 4 bytes without its base register, a trap
      with a vector. */
  ghost predicate ItemOk(item: Item, st: State) {
    && st.ssp.addr < P64
    && match item
       case Plain(post) => Wf(post) && post.ssp.addr < P64
       case Call(_, dest, _) => dest < P64
       case CallFar(_, target, _) => target.addr < P64
       case Frame(l, _, next, _, last) => l < 7 && next < P64 && last < P64
       case Saved(rs, r, _) => r < 8 && IsList(rs) && Excludes(rs, r) && ListSize(rs) >= 4
       case Interrupt(num, _, _) => Vectored(num)
  }

  /** What the body has to hand back: the stack pointer for calls and traps, the
      link register for frames, the base register for saves. Between LINK and
      UNLK a7 is free. */
  ghost predicate Returned(item: Item, st: State, st2: State)
    requires Wf(st) && Wf(st2) && !item.Plain? && ItemOk(item, st)
  {
    match item
    case Frame(l, _, _, _, _) => st2.a[l] == st.a[l]
    case Saved(_, r, _) => st2.a[r] == st.a[r]
    case _ => st2.a[7] == st.a[7]
  }

  /** A successful run from `st` to the result, while the bytes `held` are stacked;
      None if it is not one. What a bracket stacks must not overlap what is already
      stacked. */
  ghost function Run(items: seq<Item>, held: seq<Stretch>, st: State): (r: Option<State>)
    requires Wf(st)
    ensures r.Some? ==> Wf(r.value)
    decreases items, 1
  {
    if |items| == 0 then Some(st)
    else
      match RunItem(items[0], held, st)
      case None => None
      case Some(s) => Run(items[1..], held, s)
  }

  ghost function RunItem(item: Item, held: seq<Stretch>, st: State): (r: Option<State>)
    requires Wf(st)
    ensures r.Some? ==> Wf(r.value)
    decreases item, 0
  {
    if !ItemOk(item, st) then None
    else if item.Plain? then if Kept(held, st, item.post) then Some(item.post) else None
    else
      var (o, n) := Open(item, st);
      if !o.out.Ok? || o.st.ssp.addr >= P64 then None
      else
        var g := Stretch(o.out.value, n);
        if exists k :: 0 <= k < |held| && !Disjoint(held[k], g) then None
        else
          match Run(item.body, held + [g], o.st)
          case None => None
          case Some(s) =>
            if !Returned(item, o.st, s) || !ItemOk(item, s) then None
            else
              var c := Close(item, s);
              if c.out.Ok? then Some(c.st) else None
  }

  // ----- bracketing steps ---------------------------------------------------------------

  /** Opening a bracket changes memory only where it stacks. */
  lemma {:induction false} OpenKeeps(item: Item, held: seq<Stretch>, st: State)
    requires Wf(st) && !item.Plain? && ItemOk(item, st) && Open(item, st).0.out.Ok?
    requires var (o, n) := Open(item, st); forall k :: 0 <= k < |held| ==> Disjoint(held[k], Stretch(o.out.value, n))
    ensures Kept(held, st, Open(item, st).0.st)
  {
    OpenWrites(item, st);
  }

  lemma {:induction false} OpenWrites(item: Item, st: State)
    requires Wf(st) && !item.Plain? && ItemOk(item, st) && Open(item, st).0.out.Ok?
    ensures var (o, n) := Open(item, st); OnlyAt(st.mem, o.st.mem, o.out.value, n) && o.st.tab == st.tab
  {
    if item.Saved? {
      StoreWrites(st, item.rs, item.r);
      StoreIs(st, item.rs, item.r);
    }
  }

  lemma {:induction false} CloseKeeps(item: Item, st: State)
    requires Wf(st) && !item.Plain? && ItemOk(item, st) && Close(item, st).out.Ok?
    ensures Close(item, st).st.mem == st.mem && Close(item, st).st.tab == st.tab
  {
  }

  /** A run keeps every stacked byte. */
  lemma {:induction false} RunKeeps(items: seq<Item>, held: seq<Stretch>, st: State)
    requires Wf(st) && Run(items, held, st).Some?
    ensures Kept(held, st, Run(items, held, st).value)
    decreases items, 1
  {
    if |items| > 0 {
      ItemKeeps(items[0], held, st);
      RunKeeps(items[1..], held, RunItem(items[0], held, st).value);
    }
  }

  lemma {:induction false} ItemKeeps(item: Item, held: seq<Stretch>, st: State)
    requires Wf(st) && RunItem(item, held, st).Some?
    ensures Kept(held, st, RunItem(item, held, st).value)
    decreases item, 0
  {
    if !item.Plain? {
      var (o, n) := Open(item, st);
      var held' := held + [Stretch(o.out.value, n)];
      OpenKeeps(item, held, st);
      RunKeeps(item.body, held', o.st);
      var s := Run(item.body, held', o.st).value;
      forall k | 0 <= k < |held|
        ensures SameIn(held[k], o.st.mem, s.mem)
      {
        assert held'[k] == held[k];
      }
      CloseKeeps(item, s);
    }
  }

  /** The state in which the body of a bracket ends. */
  ghost function BodyEnd(item: Item, held: seq<Stretch>, st: State): (s: State)
    requires Wf(st) && RunItem(item, held, st).Some? && !item.Plain?
    ensures Wf(s) && ItemOk(item, s) && Returned(item, Open(item, st).0.st, s)
    ensures Open(item, st).0.out.Ok? && Close(item, s).out.Ok? && RunItem(item, held, st).value == Close(item, s).st
  {
    var (o, n) := Open(item, st);
    Run(item.body, held + [Stretch(o.out.value, n)], o.st).value
  }

  /** The bytes a bracket stacked are there when it closes. */
  lemma {:induction false} BodyKeeps(item: Item, held: seq<Stretch>, st: State)
    requires Wf(st) && RunItem(item, held, st).Some? && !item.Plain?
    ensures var (o, n) := Open(item, st);
            var s := BodyEnd(item, held, st);
            && s.tab == st.tab && |s.mem| == |st.mem| && o.out.value + n <= |s.mem| && |o.st.mem| == |st.mem|
            && s.mem[o.out.value..o.out.value + n] == o.st.mem[o.out.value..o.out.value + n]
  {
    var (o, n) := Open(item, st);
    var g := Stretch(o.out.value, n);
    var held' := held + [g];
    OpenWrites(item, st);
    RunKeeps(item.body, held', o.st);
    assert held'[|held|] == g;
    SameSlice(g, o.st.mem, BodyEnd(item, held, st).mem);
  }

  lemma {:induction false} SameSlice(h: Stretch, m: seq<Byte>, m2: seq<Byte>)
    requires SameIn(h, m, m2) && h.at + h.n <= |m|
    ensures m2[h.at..h.at + h.n] == m[h.at..h.at + h.n]
  {
  }

  // ----- what each bracket restores ---------------------------------------------------------

  predicate Fits(ar: AReg) {
    ar.seg < P18 && ar.addr < P36
  }

  /** BSR ... RTS: the run resumes after the call with the stack pointer back. */
  lemma {:induction false} CallReturns(item: Item, held: seq<Stretch>, st: State)
    requires Wf(st) && RunItem(item, held, st).Some? && item.Call?
    ensures var r := RunItem(item, held, st).value;
            && r.a[7] == st.a[7] && r.pc == AReg(st.pc.seg % P18, item.next % P36)
  {
    BodyKeeps(item, held, st);
    BsrRts(st, item.next, item.dest, BodyEnd(item, held, st));
  }

  /** JSR ... RTS. */
  lemma {:induction false} FarCallReturns(item: Item, held: seq<Stretch>, st: State)
    requires Wf(st) && RunItem(item, held, st).Some? && item.CallFar?
    ensures var r := RunItem(item, held, st).value;
            && r.a[7] == st.a[7] && r.pc == AReg(st.pc.seg % P18, item.next % P36)
  {
    BodyKeeps(item, held, st);
    JsrRts(st, item.next, item.target, BodyEnd(item, held, st));
  }

  /** LINK ... UNLK: stack pointer and link register are back, whatever the body
      did to a7. */
  lemma {:induction false} FrameReturns(item: Item, held: seq<Stretch>, st: State)
    requires Wf(st) && RunItem(item, held, st).Some? && item.Frame?
    ensures var r := RunItem(item, held, st).value;
            && r.a[7] == st.a[7] && r.a[item.l] == AReg(st.a[item.l].seg % P18, st.a[item.l].addr % P36)
  {
    BodyKeeps(item, held, st);
    LinkUnlk(st, item.l, item.n, item.next, BodyEnd(item, held, st), item.last);
  }

  /** MOVM regs,(ar)+ ... MOVM -(ar),regs: the listed registers and the base
      register are back. */
  lemma {:induction false} SaveReturns(item: Item, held: seq<Stretch>, st: State)
    requires Wf(st) && RunItem(item, held, st).Some? && item.Saved?
    ensures var r := RunItem(item, held, st).value;
            && (forall j :: j in item.rs ==> j < REGS && SameReg(j, r, st))
            && r.a[item.r] == st.a[item.r]
  {
    var s := BodyEnd(item, held, st);
    BodyKeeps(item, held, st);
    RoundTrip(st, item.rs, item.r, s);
  }

  /** trap ... RTE: condition codes, ir, mode, stack pointer and pc of the
      interrupted code are back. A trap from user mode also leaves ssp as it was;
      one from supervisor mode leaves it at the interrupted stack pointer. */
  lemma {:induction false} TrapReturns(item: Item, held: seq<Stretch>, st: State)
    requires Wf(st) && RunItem(item, held, st).Some? && item.Interrupt?
    ensures var r := RunItem(item, held, st).value;
            && r.ccr == st.ccr % P18 && r.ir == st.ir % P18 && r.smr == st.smr % P18
            && r.a[7] == AReg(st.a[7].seg % P18, st.a[7].addr % P36)
            && r.pc == AReg(st.pc.seg % P18, st.pc.addr % P36)
            && r.ssp == if Super(st) then st.a[7] else st.ssp
  {
    BodyKeeps(item, held, st);
    TrapRte(st, item.num, item.fault, BodyEnd(item, held, st));
  }

  // ----- whole runs ---------------------------------------------------------------------------

  /** The context a trap stacks fits the frame: 18-bit words, 36-bit offsets. */
  predicate Canonical(st: State)
    requires Wf(st)
  {
    Fits(st.pc) && Fits(st.a[7]) && st.ccr < P18 && st.ir < P18 && st.smr < P18
  }

  /** Any trap taken in any run returns to exactly the interrupted context. */
  lemma {:induction false} TrapTransparent(item: Item, held: seq<Stretch>, st: State)
    requires Wf(st) && RunItem(item, held, st).Some? && item.Interrupt? && Canonical(st)
    ensures var r := RunItem(item, held, st).value;
            && r.ccr == st.ccr && r.ir == st.ir && r.smr == st.smr && r.a[7] == st.a[7] && r.pc == st.pc
            && (!Super(st) ==> r.ssp == st.ssp)
  {
    TrapReturns(item, held, st);
    FitsExactly(st.pc);
    FitsExactly(st.a[7]);
    WordFits(st.ccr);
    WordFits(st.ir);
    WordFits(st.smr);
  }

  lemma {:induction false} WordFits(n: nat)
    ensures n % P18 == n <==> n < P18
  {
  }

  lemma {:induction false} FitsExactly(ar: AReg)
    ensures AReg(ar.seg % P18, ar.addr % P36) == ar <==> Fits(ar)
  {
  }

  /** Brackets that give the stack pointer back. */
  predicate Balanced(item: Item, a7: AReg) {
    match item
    case Plain(_) => false
    case Saved(_, r, _) => r == 7
    case Interrupt(_, _, _) => Fits(a7)
    case _ => true
  }

  lemma {:induction false} ItemBalanced(item: Item, held: seq<Stretch>, st: State)
    requires Wf(st) && RunItem(item, held, st).Some? && Balanced(item, st.a[7])
    ensures RunItem(item, held, st).value.a[7] == st.a[7]
  {
    match item
    case Call(_, _, _) => CallReturns(item, held, st);
    case CallFar(_, _, _) => FarCallReturns(item, held, st);
    case Frame(_, _, _, _, _) => FrameReturns(item, held, st);
    case Saved(_, _, _) => SaveReturns(item, held, st);
    case Interrupt(_, _, _) =>
      TrapReturns(item, held, st);
      FitsExactly(st.a[7]);
  }

  /** A run of calls, frames, saves and traps, whatever nests inside them, gives
      back the stack pointer it started with. */
  lemma {:induction false} RunBalanced(items: seq<Item>, held: seq<Stretch>, st: State)
    requires Wf(st) && Run(items, held, st).Some?
    requires forall i :: 0 <= i < |items| ==> Balanced(items[i], st.a[7])
    ensures Run(items, held, st).value.a[7] == st.a[7]
    decreases |items|
  {
    if |items| > 0 {
      ItemBalanced(items[0], held, st);
      RunBalanced(items[1..], held, RunItem(items[0], held, st).value);
    }
  }

  // ----- stack discipline -----------------------------------------------------------------

  /** The stack a bracket stacks on: a trap from user mode uses the other one. */
  function Top(item: Item, st: State): AReg
    requires Wf(st)
  {
    if item.Interrupt? && !Super(st) then st.ssp else st.a[7]
  }

  function Stacked(item: Item): nat {
    match item
    case Plain(_) => 0
    case Saved(rs, _, _) => ListSize(rs)
    case Interrupt(_, _, _) => FRAME
    case _ => 6
  }

  /** The local variables of a frame. */
  function Extra(item: Item): int {
    if item.Frame? then item.n else 0
  }

  /** Brackets that stack at the stack pointer, which does not wrap. */
  predicate Pushes(item: Item, st: State)
    requires Wf(st)
  {
    && (item.Saved? ==> item.r == 7) && (item.Interrupt? ==> Fits(st.a[7])) && Extra(item) >= 0
    && Top(item, st).addr + Stacked(item) + Extra(item) < P64
  }

  predicate Above(st: State, floor: AReg)
    requires Wf(st)
  {
    st.a[7].seg == floor.seg && floor.addr <= st.a[7].addr
  }

  /** The mode is the same, and user code has the same supervisor stack pointer. */
  predicate SameMode(st: State, st2: State) {
    Super(st2) == Super(st) && (!Super(st) ==> st2.ssp == st.ssp)
  }

  /** The stack pointer a bracket leaves above what it stacked. */
  function Lifted(item: Item, st: State): AReg
    requires Wf(st)
  {
    AReg(Top(item, st).seg, Top(item, st).addr + Stacked(item))
  }

  /** A run without the overlap test. Instead, plain code keeps its mode and does not
      take the stack pointer below the floor, which is where the bracket around it
      stacked; and brackets stack at the stack pointer. */
  ghost function Free(items: seq<Item>, held: seq<Stretch>, floor: AReg, st: State): (r: Option<State>)
    requires Wf(st)
    ensures r.Some? ==> Wf(r.value)
    decreases items, 1
  {
    if |items| == 0 then Some(st)
    else
      match FreeItem(items[0], held, floor, st)
      case None => None
      case Some(s) => Free(items[1..], held, floor, s)
  }

  ghost function FreeItem(item: Item, held: seq<Stretch>, floor: AReg, st: State): (r: Option<State>)
    requires Wf(st)
    ensures r.Some? ==> Wf(r.value)
    decreases item, 0
  {
    if !ItemOk(item, st) then None
    else if item.Plain? then
      if Kept(held, st, item.post) && Above(item.post, floor) && SameMode(st, item.post) then Some(item.post) else None
    else
      var (o, n) := Open(item, st);
      if !o.out.Ok? || o.st.ssp.addr >= P64 || !Pushes(item, st) then None
      else
        match Free(item.body, held + [Stretch(o.out.value, n)], Lifted(item, st), o.st)
        case None => None
        case Some(s) =>
          if !Returned(item, o.st, s) || !ItemOk(item, s) then None
          else
            var c := Close(item, s);
            if c.out.Ok? then Some(c.st) else None
  }

  /** Outside the part of a segment that lies above a stack pointer. */
  predicate Outside(h: Stretch, top: AReg, st: State) {
    var c := Resolve(st, top.seg);
    c.Ok? && (h.at + h.n <= c.value.base + top.addr || c.value.base + c.value.len <= h.at)
  }

  predicate Clear(held: seq<Stretch>, top: AReg, st: State) {
    forall k :: 0 <= k < |held| ==> Outside(held[k], top, st)
  }

  /** The parts of two segments above two stack pointers have no byte in common. */
  predicate Apart(top: AReg, other: AReg, st: State) {
    var c, d := Resolve(st, top.seg), Resolve(st, other.seg);
    c.Ok? && d.Ok? && (c.value.base + c.value.len <= d.value.base + other.addr
                       || d.value.base + d.value.len <= c.value.base + top.addr)
  }

  /** What is stacked lies outside the room above the floor; in user mode also
      outside that above the supervisor stack pointer, and the two rooms are apart. */
  predicate Tidy(held: seq<Stretch>, floor: AReg, st: State)
    requires Wf(st)
  {
    && Above(st, floor) && Clear(held, floor, st)
    && (!Super(st) ==> Clear(held, st.ssp, st) && Apart(floor, st.ssp, st))
  }

  /** The step `o` stacked `n` bytes at `top`, inside its segment, and left the stack
      pointer above them. */
  predicate StackedAt(st: State, top: AReg, o: Result, n: nat)
    requires Wf(o.st)
  {
    var c := Resolve(st, top.seg);
    && c.Ok? && o.out.Ok? && o.out.value == c.value.base + top.addr && top.addr + n <= c.value.len
    && o.st.tab == st.tab && |o.st.mem| == |st.mem| && Above(o.st, AReg(top.seg, top.addr + n))
  }

  lemma {:induction false} AtTop(st: State, st1: State, st2: State, top: AReg, n: nat)
    requires st1.tab == st.tab && |st1.mem| == |st.mem| && |st2.mem| == |st.mem| && AddrOf(st1, top).Ok?
    requires top.addr + n < P64 && Access(st2, AddrOf(st1, top).value, n, WRITE).Ok?
    ensures var c := Resolve(st, top.seg);
            && c.Ok? && Access(st2, AddrOf(st1, top).value, n, WRITE).value == c.value.base + top.addr
            && top.addr + n <= c.value.len
  {
  }

  lemma {:induction false} NoWrap(ar: AReg, n: nat)
    requires ar.addr + n < P64
    ensures Moved(ar, n) == AReg(ar.seg, ar.addr + n)
  {
  }

  lemma {:induction false} CallThere(st: State, next: nat, dest: nat)
    requires Wf(st) && dest < P64 && st.a[7].addr + 6 < P64 && Bsr(st, next, dest).out.Ok?
    ensures StackedAt(st, st.a[7], Bsr(st, next, dest), 6)
  {
    AtTop(st, st, Push(st, st.a[7]), st.a[7], 6);
    NoWrap(st.a[7], 6);
  }

  lemma {:induction false} FarCallThere(st: State, next: nat, target: AReg)
    requires Wf(st) && target.addr < P64 && st.a[7].addr + 6 < P64 && Jsr(st, next, target).out.Ok?
    ensures StackedAt(st, st.a[7], Jsr(st, next, target), 6)
  {
    AtTop(st, st, st, st.a[7], 6);
    NoWrap(st.a[7], 6);
  }

  lemma {:induction false} LinkThere(st: State, l: nat, n: nat, next: nat)
    requires Wf(st) && l < 7 && next < P64 && st.a[7].addr + 6 + n < P64 && Link(st, l, n, next).out.Ok?
    ensures StackedAt(st, st.a[7], Link(st, l, n, next), 6)
  {
    AtTop(st, st, st, st.a[7], 6);
    NoWrap(st.a[7], 6);
    NoWrap(Moved(st.a[7], 6), n);
  }

  lemma {:induction false} SaveThere(st: State, rs: seq<nat>)
    requires Wf(st) && IsList(rs) && ListSize(rs) >= 4 && st.a[7].addr + ListSize(rs) < P64 && Save(st, rs, 7).out.Ok?
    ensures StackedAt(st, st.a[7], Save(st, rs, 7), ListSize(rs))
  {
    StoreIs(st, rs, 7);
    AtTop(st, st, st, st.a[7], ListSize(rs));
    NoWrap(st.a[7], ListSize(rs));
  }

  lemma {:induction false} TrapThere(st: State, num: nat, fault: AReg)
    requires Wf(st) && st.ssp.addr < P64 && Vectored(num) && Trap(st, num, fault).out.Ok?
    requires Entered(st).a[7].addr + FRAME < P64
    ensures StackedAt(st, Entered(st).a[7], Trap(st, num, fault), FRAME)
    ensures Super(Trap(st, num, fault).st)
  {
    var sp := Entered(st).a[7];
    TrapIs(st, num, fault);
    AtTop(st, Entered(st), Entered(st), sp, FRAME);
    NoWrap(sp, FRAME);
    SuperSet(st.smr);
  }

  /** Every such bracket stacks at its stack pointer; only a trap changes the mode. */
  lemma {:induction false} OpensThere(item: Item, st: State)
    requires Wf(st) && !item.Plain? && ItemOk(item, st) && Open(item, st).0.out.Ok? && Pushes(item, st)
    ensures StackedAt(st, Top(item, st), Open(item, st).0, Stacked(item)) && Open(item, st).1 == Stacked(item)
    ensures if item.Interrupt? then Super(Open(item, st).0.st) else SameMode(st, Open(item, st).0.st)
  {
    match item
    case Call(next, dest, _) => CallThere(st, next, dest);
    case CallFar(next, target, _) => FarCallThere(st, next, target);
    case Frame(l, n, next, _, _) => LinkThere(st, l, n, next);
    case Saved(rs, r, _) =>
      StoreIs(st, rs, 7);
      SaveThere(st, rs);
    case Interrupt(num, fault, _) => TrapThere(st, num, fault);
  }

  /** Tidy stacks have room for the next bracket, and are tidy while it is open. */
  lemma {:induction false} TidyOpen(item: Item, held: seq<Stretch>, floor: AReg, st: State)
    requires Wf(st) && !item.Plain? && ItemOk(item, st) && Open(item, st).0.out.Ok? && Pushes(item, st)
    requires Tidy(held, floor, st)
    ensures var (o, n) := Open(item, st);
            var g := Stretch(o.out.value, n);
            && (forall k :: 0 <= k < |held| ==> Disjoint(held[k], g))
            && Tidy(held + [g], Lifted(item, st), o.st)
  {
    var (o, n) := Open(item, st);
    OpensThere(item, st);
    StackTidy(held, if Top(item, st) == st.a[7] then floor else st.ssp, Top(item, st), st, o, n);
    if !item.Interrupt? && !Super(st) {
      OtherTidy(held, floor, st, o, n);
    }
  }

  /** On the stack that grows. */
  lemma {:induction false} StackTidy(held: seq<Stretch>, floor: AReg, top: AReg, st: State, o: Result, n: nat)
    requires Wf(o.st) && StackedAt(st, top, o, n) && Clear(held, floor, st)
    requires top.seg == floor.seg && floor.addr <= top.addr
    ensures forall k :: 0 <= k < |held| ==> Disjoint(held[k], Stretch(o.out.value, n))
    ensures Clear(held + [Stretch(o.out.value, n)], AReg(top.seg, top.addr + n), o.st)
  {
  }

  /** On the supervisor stack beside a user stack that grows. */
  lemma {:induction false} OtherTidy(held: seq<Stretch>, floor: AReg, st: State, o: Result, n: nat)
    requires Wf(st) && Wf(o.st) && StackedAt(st, st.a[7], o, n) && Above(st, floor)
    requires Clear(held, st.ssp, st) && Apart(floor, st.ssp, st)
    ensures Clear(held + [Stretch(o.out.value, n)], st.ssp, o.st)
    ensures Apart(AReg(st.a[7].seg, st.a[7].addr + n), st.ssp, o.st)
  {
  }

  /** Closing a bracket in the mode its body had. */
  lemma {:induction false} CloseMode(item: Item, held: seq<Stretch>, st: State)
    requires Wf(st) && RunItem(item, held, st).Some? && !item.Plain? && Pushes(item, st)
    requires SameMode(Open(item, st).0.st, BodyEnd(item, held, st))
    ensures SameMode(st, RunItem(item, held, st).value) && RunItem(item, held, st).value.a[7] == st.a[7]
  {
    ItemBalanced(item, held, st);
    OpensThere(item, st);
    if item.Saved? {
      SavedMode(item, held, st);
    } else if item.Interrupt? {
      TrapReturns(item, held, st);
      SuperSet(st.smr);
    }
  }

  lemma {:induction false} SavedMode(item: Item, held: seq<Stretch>, st: State)
    requires Wf(st) && RunItem(item, held, st).Some? && item.Saved?
    requires SameMode(st, BodyEnd(item, held, st))
    ensures SameMode(st, RunItem(item, held, st).value)
  {
    var s := BodyEnd(item, held, st);
    BodyKeeps(item, held, st);
    RoundTrip(st, item.rs, item.r, s);
    ModeBack(st, s, Restore(s, item.rs, item.r).st);
  }

  /** Register 17 is the mode register, saved or not. */
  lemma {:induction false} ModeBack(st: State, s: State, r: State)
    requires Wf(st) && Wf(s) && Wf(r) && SameMode(st, s) && r.ssp == s.ssp
    requires SameReg(17, r, st) || Untouched(17, r, s)
    ensures SameMode(st, r)
  {
    SuperSet(st.smr);
  }

  /** The table and the size of memory being the same, tidiness depends on the stack
      pointers and the mode alone. */
  lemma {:induction false} TidyStays(held: seq<Stretch>, floor: AReg, st: State, st2: State)
    requires Wf(st) && Wf(st2) && Tidy(held, floor, st) && Kept(held, st, st2) && Above(st2, floor) && SameMode(st, st2)
    ensures Tidy(held, floor, st2)
  {
  }

  /** Stack discipline is enough: a run that follows it passes every overlap test, so
      all that is said of runs holds of it. Its stacks stay tidy and it ends in the
      mode it began in. */
  lemma {:induction false} FreeRuns(items: seq<Item>, held: seq<Stretch>, floor: AReg, st: State)
    requires Wf(st) && Tidy(held, floor, st) && Free(items, held, floor, st).Some?
    ensures Run(items, held, st) == Free(items, held, floor, st)
    ensures var r := Free(items, held, floor, st).value; Tidy(held, floor, r) && SameMode(st, r)
    decreases items, 1
  {
    if |items| > 0 {
      FreeItemRuns(items[0], held, floor, st);
      FreeRuns(items[1..], held, floor, FreeItem(items[0], held, floor, st).value);
    }
  }

  lemma {:induction false} FreeItemRuns(item: Item, held: seq<Stretch>, floor: AReg, st: State)
    requires Wf(st) && Tidy(held, floor, st) && FreeItem(item, held, floor, st).Some?
    ensures RunItem(item, held, st) == FreeItem(item, held, floor, st)
    ensures var r := FreeItem(item, held, floor, st).value; Tidy(held, floor, r) && SameMode(st, r)
    decreases item, 0
  {
    if !item.Plain? {
      var (o, n) := Open(item, st);
      TidyOpen(item, held, floor, st);
      FreeRuns(item.body, held + [Stretch(o.out.value, n)], Lifted(item, st), o.st);
      CloseMode(item, held, st);
    }
    ItemKeeps(item, held, st);
    TidyStays(held, floor, st, RunItem(item, held, st).value);
  }
}
