/** Where a trap goes: the vectors at the start of memory and the frame that a trap
    stacks. */
module Vectors {
  import opened Codec
  import opened Kernel
  import opened Memory
  import opened Cpu
  import opened Stack
  import Context

  const TRAPS: nat := 24
  const VECTOR: nat := 6

  /** The handlers' pointers, one after the other from address 0. */
  ghost predicate Handlers(m: seq<Byte>, h: seq<AReg>) {
    |h| == TRAPS && TRAPS * VECTOR <= |m| && forall n :: 0 <= n < TRAPS ==> PointerAt(m, VECTOR * n) == h[n]
  }

  /** The vectors as memory is set up to hold them. */
  function HandlerBytes(h: seq<AReg>): (b: seq<Byte>)
    ensures |b| == VECTOR * |h|
  {
    if |h| == 0 then [] else PointerBytes(h[0]) + HandlerBytes(h[1..])
  }

  predicate InFrame(ar: AReg) {
    ar.seg < P18 && ar.addr < P36
  }

  lemma {:induction false} HandlerAt(h: seq<AReg>, rest: seq<Byte>, n: nat)
    requires n < |h| && InFrame(h[n])
    ensures PointerAt(HandlerBytes(h) + rest, VECTOR * n) == h[n]
    decreases n
  {
    var m := HandlerBytes(h) + rest;
    if n == 0 {
      assert m[0..6] == PointerBytes(h[0]);
      PointerThere(m, 0, h[0]);
    } else {
      var tail := HandlerBytes(h[1..]) + rest;
      HandlerAt(h[1..], rest, n - 1);
      assert m == PointerBytes(h[0]) + tail;
      SamePointer(m, tail, VECTOR * n, VECTOR * (n - 1));
    }
  }

  lemma {:induction false} SamePointer(m: seq<Byte>, m': seq<Byte>, p: nat, q: nat)
    requires p + 6 <= |m| && q + 6 <= |m'| && m[p..p + 6] == m'[q..q + 6]
    ensures PointerAt(m, p) == PointerAt(m', q)
  {
    var a, b := m[p..p + 6], m'[q..q + 6];
    assert Uw(m, p) == Uw(a, 0) && Ul(m, p + 2) == Ul(a, 2) && Uw(m', q) == Uw(b, 0) && Ul(m', q + 2) == Ul(b, 2);
  }

  /** A memory that begins with the bytes of 24 pointers has them as its handlers. */
  lemma {:induction false} HandlersStand(h: seq<AReg>, rest: seq<Byte>)
    requires |h| == TRAPS && forall n :: 0 <= n < TRAPS ==> InFrame(h[n])
    ensures Handlers(HandlerBytes(h) + rest, h)
  {
    forall n | 0 <= n < TRAPS
      ensures PointerAt(HandlerBytes(h) + rest, VECTOR * n) == h[n]
    {
      HandlerAt(h, rest, n);
    }
  }

  predicate Meets(at: nat, num: nat) {
    at < VECTOR * num + VECTOR && VECTOR * num < at + FRAME
  }

  /** A trap writes its frame, then reads its vector. */
  lemma {:induction false} TrapGoes(st: State, num: nat, fault: AReg)
    requires Wf(st) && st.ssp.addr < P64 && num < P9 && Vectored(num) && Trap(st, num, fault).out.Ok?
    ensures var r, at := Trap(st, num, fault), Trap(st, num, fault).out.value;
            && VECTOR * num + VECTOR <= |st.mem| && at + FRAME <= |st.mem|
            && r.st.mem == Splice(st.mem, at, FrameBytes(st.ccr, st.ir, st.smr, fault, st.a[7], st.pc))
            && r.st.pc == PointerAt(r.st.mem, VECTOR * num)
            && r.st.a == st.a[7 := Moved(if Super(st) then st.a[7] else st.ssp, FRAME)]
            && r.st.ir == 0x1FF && r.st.d == st.d && r.st.ssp == st.ssp && r.st.ccr == st.ccr
            && r.st.smr == (if Super(st) then st.smr else SetBit(st.smr, SU))
  {
    var s1, at := Entered(st), Trap(st, num, fault).out.value;
    var frame := FrameBytes(st.ccr, st.ir, st.smr, fault, st.a[7], st.pc);
    var s2 := s1.(mem := Splice(s1.mem, at, frame), a := s1.a[7 := Moved(s1.a[7], FRAME)], ir := 0x1FF);
    SuperSet(st.smr);
    VectorRead(s2, VECTOR * num);
  }

  lemma {:induction false} VectorRead(st: State, p: nat)
    requires p + VECTOR < P64 && AddrOf(st, AReg(FLAT, p)).Ok?
    requires Access(st, AddrOf(st, AReg(FLAT, p)).value, VECTOR, READ).Ok?
    ensures Access(st, AddrOf(st, AReg(FLAT, p)).value, VECTOR, READ) == Ok(p)
  {
  }

  /** A trap whose frame lies off the vectors enters the handler of its number, in
      supervisor mode, with the vectors as they were. */
  lemma {:induction false} TrapEnters(st: State, num: nat, fault: AReg, h: seq<AReg>)
    requires Wf(st) && st.ssp.addr < P64 && Vectored(num) && num < TRAPS && Handlers(st.mem, h)
    requires Trap(st, num, fault).out.Ok? && Trap(st, num, fault).out.value >= TRAPS * VECTOR
    ensures var r := Trap(st, num, fault).st; r.pc == h[num] && Super(r) && r.ir == 0x1FF && Handlers(r.mem, h)
  {
    TrapGoes(st, num, fault);
    SuperSet(st.smr);
    var at, m := Trap(st, num, fault).out.value, Trap(st, num, fault).st.mem;
    forall n | 0 <= n < TRAPS
      ensures PointerAt(m, VECTOR * n) == h[n]
    {
      OffPointer(st.mem, at, FrameBytes(st.ccr, st.ir, st.smr, fault, st.a[7], st.pc), VECTOR * n);
    }
  }

  lemma {:induction false} OffPointer(m: seq<Byte>, at: nat, b: seq<Byte>, p: nat)
    requires at + |b| <= |m| && p + 6 <= |m| && (p + 6 <= at || at + |b| <= p)
    ensures PointerAt(Splice(m, at, b), p) == PointerAt(m, p)
  {
  }

  // ----- a frame over its own vector ----------------------------------------------------

  /** What the registers can make of a frame. */
  ghost predicate IsFrame(b: seq<Byte>) {
    exists ccr, ir, smr, fault, usp, pc :: b == FrameBytes(ccr, ir, smr, fault, usp, pc)
  }

  /** A frame leaves the vector of its trap alone, whatever it holds, exactly when its
      24 bytes miss the vector's six: else some registers send the trap elsewhere. */
  lemma {:induction false} VectorKeptIff(m: seq<Byte>, at: nat, num: nat)
    requires at + FRAME <= |m| && VECTOR * num + VECTOR <= |m|
    ensures (forall b :: IsFrame(b) && |b| == FRAME ==>
                           PointerAt(Splice(m, at, b), VECTOR * num) == PointerAt(m, VECTOR * num))
            <==> !Meets(at, num)
  {
    var p := VECTOR * num;
    if Meets(at, num) {
      var b0 := Uniform(false);
      var b1 := Uniform(true);
      var i := if at <= p then p else at;
      assert Splice(m, at, b0)[i] != Splice(m, at, b1)[i];
      PointerBytesOf(Splice(m, at, b0), Splice(m, at, b1), p, i - p);
    } else {
      forall b | IsFrame(b) && |b| == FRAME
        ensures PointerAt(Splice(m, at, b), p) == PointerAt(m, p)
      {
        OffPointer(m, at, b, p);
      }
    }
  }

  /** A frame all of whose bytes are 0, or 511. */
  lemma {:induction false} Uniform(ones: bool) returns (b: seq<Byte>)
    ensures IsFrame(b) && |b| == FRAME && forall i :: 0 <= i < FRAME ==> b[i] == if ones then P9 - 1 else 0
  {
    var w, l := if ones then P18 - 1 else 0, if ones then P36 - 1 else 0;
    var ar := AReg(w, l);
    b := FrameBytes(w, w, w, ar, ar, ar);
    UniformParts(ones, w, l);
  }

  lemma {:induction false} UniformParts(ones: bool, w: nat, l: nat)
    requires w == (if ones then P18 - 1 else 0) && l == if ones then P36 - 1 else 0
    ensures var v := if ones then P9 - 1 else 0;
            WordBytes(w) == [v, v] && PointerBytes(AReg(w, l)) == [v, v, v, v, v, v]
  {
  }

  lemma {:induction false} PointerBytesOf(m: seq<Byte>, m': seq<Byte>, p: nat, o: nat)
    requires p + 6 <= |m| && p + 6 <= |m'| && o < 6 && m[p + o] != m'[p + o]
    ensures PointerAt(m, p) != PointerAt(m', p)
  {
    if PointerAt(m, p) == PointerAt(m', p) {
      Context.WordsOfLong(m, m', p + 2);
      Context.BytesOfWord(m, m', p + o / 2 * 2);
    }
  }
}
