/** Runs of (ar)+ operands: the places they designate lie side by side, and -(ar) goes
    back over them. */
module Sweep {
  import opened Codec
  import opened Kernel
  import opened Memory
  import opened Cpu
  import opened Stack
  import opened Protection

  function PostInc(r: nat): nat {
    0x10 + r
  }

  function PreDec(r: nat): nat {
    0x18 + r
  }

  /** -(ar) after (ar)+ of the same width designates the same bytes and leaves every
      register as it was. */
  lemma {:induction false} BackAgain(st: State, r: nat, easz: nat, ip: Addr, ip2: Addr)
    requires Wf(st) && r < 8 && easz < 3 && Decode(st, PostInc(r), easz, ip).Ok?
    requires var s := st.(a := Decode(st, PostInc(r), easz, ip).value.a);
             Wf(s) && Decode(s, PreDec(r), easz, ip2).Ok?
    ensures var o := Decode(st, PostInc(r), easz, ip).value;
            var b := Decode(st.(a := o.a), PreDec(r), easz, ip2).value;
            b.target == o.target && b.target.At? && b.target.size == |Unit(easz, 0)| && b.a == st.a
  {
    var n := |Unit(easz, 0)|;
    var ar := st.a[r];
    ThereAndBack(ar.addr, n);
    var s := st.(a := Decode(st, PostInc(r), easz, ip).value.a);
    assert s.a[r] == Moved(ar, n);
    assert st.a[r := Moved(ar, n)][r := ar] == st.a;
  }

  lemma {:induction false} ThereAndBack(a: nat, n: nat)
    requires a < P64 && n < P64
    ensures ((a + n) % P64 - n) % P64 == a
  {
    var q := (a + n) / P64;
    DivUnique((a + n) % P64 - n, P64, -q, a);
  }

  // ----- laying numbers side by side ------------------------------------------------------

  /** The bytes of numbers of one width in a row. */
  function Units(easz: nat, ns: seq<int>): (b: seq<Byte>) {
    if |ns| == 0 then [] else Unit(easz, ns[0]) + Units(easz, ns[1..])
  }

  lemma {:induction false} UnitsLength(easz: nat, ns: seq<int>)
    ensures |Units(easz, ns)| == |ns| * |Unit(easz, 0)|
    decreases |ns|
  {
    if |ns| > 0 {
      UnitsLength(easz, ns[1..]);
    }
  }

  lemma {:induction false} UnitsSplit(easz: nat, ns: seq<int>, i: nat)
    requires i < |ns|
    ensures Units(easz, ns) == Units(easz, ns[..i]) + Unit(easz, ns[i]) + Units(easz, ns[i + 1..])
    decreases i
  {
    if i > 0 {
      UnitsSplit(easz, ns[1..], i - 1);
      assert ns[1..][..i - 1] == ns[..i][1..] && ns[1..][i..] == ns[i + 1..];
    }
  }

  /** Storing them one after the other through (ar)+, each store successful. */
  function Stores(st: State, r: nat, easz: nat, ip: Addr, ns: seq<int>): (s: Option<State>)
    requires Wf(st) && r < 8 && easz < 3
    decreases |ns|
  {
    if |ns| == 0 then Some(st)
    else
      var o := StoreTo(st, PostInc(r), easz, ip, Unit(easz, ns[0]));
      if !o.out.Ok? then None
      else
        StoreStays(st, PostInc(r), easz, ip, Unit(easz, ns[0]));
        Stores(o.st, r, easz, ip, ns[1..])
  }

  /** Where register `r` points in memory. */
  function Pointed(st: State, r: nat): int
    requires Wf(st) && r < 8 && AddrOf(st, st.a[r]).Ok?
  {
    AddrOf(st, st.a[r]).value.c.base + st.a[r].addr
  }

  /** `s` is `st` with the bytes `b` where register `r` points, and the register behind
      them. */
  predicate Laid(st: State, s: State, r: nat, b: seq<Byte>)
    requires Wf(st) && r < 8
  {
    && AddrOf(st, st.a[r]).Ok? && Pointed(st, r) >= 0 && Pointed(st, r) + |b| <= |st.mem|
    && s.mem == Splice(st.mem, Pointed(st, r), b) && s.tab == st.tab && s.smr == st.smr
    && s.a == st.a[r := AReg(st.a[r].seg, st.a[r].addr + |b|)]
  }

  /** One such store. */
  lemma {:induction false} OneStore(st: State, r: nat, easz: nat, ip: Addr, n: int)
    requires Wf(st) && r < 8 && easz < 3 && StoreTo(st, PostInc(r), easz, ip, Unit(easz, n)).out.Ok?
    requires st.a[r].addr + |Unit(easz, n)| < P64
    ensures Laid(st, StoreTo(st, PostInc(r), easz, ip, Unit(easz, n)).st, r, Unit(easz, n))
  {
    SizeOfUnit(easz, n);
    NoWrapAt(st, r, Unit(easz, n));
  }

  lemma {:induction false} NoWrapAt(st: State, r: nat, b: seq<Byte>)
    requires Wf(st) && r < 8 && AddrOf(st, st.a[r]).Ok? && st.a[r].addr + |b| < P64
    requires Access(st, AddrOf(st, st.a[r]).value, |b|, WRITE).Ok?
    ensures Access(st, AddrOf(st, st.a[r]).value, |b|, WRITE) == Ok(Pointed(st, r)) && Pointed(st, r) >= 0
  {
  }

  lemma {:induction false} LaidOn(st: State, s: State, t: State, r: nat, x: seq<Byte>, y: seq<Byte>)
    requires Wf(st) && Wf(s) && r < 8 && Laid(st, s, r, x) && Laid(s, t, r, y)
    ensures Laid(st, t, r, x + y)
  {
    assert AddrOf(s, s.a[r]).value.c == AddrOf(st, st.a[r]).value.c;
    assert t.mem == Splice(st.mem, Pointed(st, r), x + y);
  }

  /** Numbers stored through (ar)+ lie one directly after the other, from where the
      register pointed, and the register then points behind the last. */
  lemma {:induction false} StoresLay(st: State, r: nat, easz: nat, ip: Addr, ns: seq<int>)
    requires Wf(st) && r < 8 && easz < 3 && |ns| > 0 && Stores(st, r, easz, ip, ns).Some?
    requires st.a[r].addr + |Units(easz, ns)| < P64
    ensures Laid(st, Stores(st, r, easz, ip, ns).value, r, Units(easz, ns))
    decreases |ns|
  {
    var x, rest := Unit(easz, ns[0]), ns[1..];
    var o := StoreTo(st, PostInc(r), easz, ip, x);
    OneStore(st, r, easz, ip, ns[0]);
    StoreStays(st, PostInc(r), easz, ip, x);
    if |rest| == 0 {
      assert Units(easz, ns) == x;
    } else {
      StoresLay(o.st, r, easz, ip, rest);
      LaidOn(st, o.st, Stores(o.st, r, easz, ip, rest).value, r, x, Units(easz, rest));
    }
  }

  /** ... so each keeps its own bytes, which begin behind those of all before it: that
      is, by UnitsLength, at its own multiple of the width. */
  lemma {:induction false} StoresRead(st: State, r: nat, easz: nat, ip: Addr, ns: seq<int>, i: nat)
    requires Wf(st) && r < 8 && easz < 3 && i < |ns| && Stores(st, r, easz, ip, ns).Some?
    requires st.a[r].addr + |Units(easz, ns)| < P64
    ensures AddrOf(st, st.a[r]).Ok? && Pointed(st, r) >= 0
    ensures var m, at := Stores(st, r, easz, ip, ns).value.mem, Pointed(st, r) + |Units(easz, ns[..i])|;
            Stands(m, at, Unit(easz, ns[i]))
  {
    StoresLay(st, r, easz, ip, ns);
    UnitsSplit(easz, ns, i);
    SplicedPart(st.mem, Pointed(st, r), Units(easz, ns[..i]), Unit(easz, ns[i]), Units(easz, ns[i + 1..]));
  }

  lemma {:induction false} SplicedPart(m: seq<Byte>, at: nat, a: seq<Byte>, x: seq<Byte>, b: seq<Byte>)
    requires at + |a + x + b| <= |m|
    ensures Stands(Splice(m, at, a + x + b), at + |a|, x)
  {
    var m' := Splice(m, at, a + x + b);
    assert m'[at + |a|..at + |a| + |x|] == x;
  }
}
