/** Byte memory: in-place runs of bytes, and the 16-byte descriptors of cpu.hh
    stored in it. */
module Memory {
  import opened Codec
  import opened Kernel

  /** `m` with the bytes `b` laid over it at `p`. */
  function Splice(m: seq<Byte>, p: nat, b: seq<Byte>): (r: seq<Byte>)
    requires p + |b| <= |m|
    ensures |r| == |m|
    ensures forall i :: 0 <= i < |m| ==> r[i] == if p <= i < p + |b| then b[i - p] else m[i]
  {
    m[..p] + b + m[p + |b|..]
  }

  /** Bytes laid next to one another. */
  lemma {:induction false} Extend(m: seq<Byte>, at: nat, b: seq<Byte>, c: seq<Byte>)
    requires at + |b| + |c| <= |m|
    ensures Splice(Splice(m, at, b), at + |b|, c) == Splice(m, at, b + c)
  {
  }

  lemma {:induction false} SpliceWord(m: seq<Byte>, p: nat, n: int)
    requires p + 2 <= |m|
    ensures Uw(Splice(m, p, WordBytes(n)), p) == n % P18
  {
    WordRoundTrip(n, m[..p], m[p + 2..]);
  }

  lemma {:induction false} SpliceLong(m: seq<Byte>, p: nat, n: int)
    requires p + 4 <= |m|
    ensures Ul(Splice(m, p, LongBytes(n)), p) == n % P36
  {
    LongRoundTrip(n, m[..p], m[p + 4..]);
  }

  const DESC: nat := 16

  /** The descriptor stored at `p`; 16 bytes, two of them spare. */
  function DescAt(m: seq<Byte>, p: nat): (d: Desc)
    requires p + DESC <= |m|
    ensures d.base < P36 && d.size < P36 && d.flags < P18 && d.segid < P36
  {
    Desc(Ul(m, p), Ul(m, p + 4), Uw(m, p + 8), Ul(m, p + 12))
  }

  /** `m` from `p` on reads as `m'` from `q` on, for `n` bytes. */
  predicate SameBytes(m: seq<Byte>, m': seq<Byte>, p: nat, q: nat, n: nat) {
    && p + n <= |m| && q + n <= |m'|
    && forall i {:trigger m[i]} :: p <= i < p + n ==> m[i] == m'[i - p + q]
  }

  lemma {:induction false} SameDesc(m: seq<Byte>, m': seq<Byte>, p: nat, q: nat)
    requires SameBytes(m, m', p, q, DESC)
    ensures DescAt(m, p) == DescAt(m', q)
  {
  }

  /** The table of a process area at `base`. */
  function Table(m: seq<Byte>, base: nat): (t: seq<Desc>)
    requires base + TABLE <= |m|
    ensures |t| == SLOTS
  {
    seq(SLOTS, i requires 0 <= i < SLOTS => DescAt(m, base + DESC * i))
  }

  predicate Inside(bases: seq<nat>, len: nat) {
    forall j :: 0 <= j < |bases| ==> bases[j] + TABLE <= len
  }

  /** All tables, one after the other. */
  function Tables(m: seq<Byte>, bases: seq<nat>): (t: seq<Desc>)
    requires Inside(bases, |m|)
    ensures |t| == SLOTS * |bases|
    decreases |bases|
  {
    if |bases| == 0 then []
    else
      var n := |bases| - 1;
      Tables(m, bases[..n]) + Table(m, bases[n])
  }

  lemma {:induction false} TablesAt(m: seq<Byte>, bases: seq<nat>, j: nat, i: nat)
    requires Inside(bases, |m|) && j < |bases| && i < SLOTS
    ensures Tables(m, bases)[SLOTS * j + i] == DescAt(m, bases[j] + DESC * i)
    ensures Tables(m, bases)[SLOTS * j..SLOTS * j + SLOTS] == Table(m, bases[j])
    decreases |bases|
  {
    var n := |bases| - 1;
    if j < n {
      TablesAt(m, bases[..n], j, i);
      assert bases[..n][j] == bases[j];
      assert Tables(m, bases)[SLOTS * j..SLOTS * j + SLOTS] == Tables(m, bases[..n])[SLOTS * j..SLOTS * j + SLOTS];
    } else {
      assert Tables(m, bases)[SLOTS * j..SLOTS * j + SLOTS] == Table(m, bases[n]);
    }
  }

  /** Bytes outside every table do not matter. */
  lemma {:induction false} TablesFrame(m: seq<Byte>, m': seq<Byte>, bases: seq<nat>)
    requires Inside(bases, |m|) && |m| == |m'|
    requires forall j :: 0 <= j < |bases| ==> SameOn(m, m', bases[j])
    ensures Tables(m, bases) == Tables(m', bases)
    decreases |bases|
  {
    if |bases| > 0 {
      var n := |bases| - 1;
      TablesFrame(m, m', bases[..n]);
      TableFrame(m, m', bases[n]);
    }
  }

  predicate SameOn(m: seq<Byte>, m': seq<Byte>, b: nat) {
    SameBytes(m, m', b, b, TABLE)
  }

  lemma {:induction false} TableFrame(m: seq<Byte>, m': seq<Byte>, b: nat)
    requires SameOn(m, m', b)
    ensures Table(m, b) == Table(m', b)
  {
    forall i | 0 <= i < SLOTS
      ensures DescAt(m, b + DESC * i) == DescAt(m', b + DESC * i)
    {
      SameDesc(m, m', b + DESC * i, b + DESC * i);
    }
  }

  predicate Apart(a: nat, b: nat) {
    a + TABLE <= b || b + TABLE <= a
  }

  lemma {:induction false} DescElsewhere(m: seq<Byte>, b: seq<Byte>, p: nat, q: nat)
    requires p + |b| <= |m| && q + DESC <= |m| && (p + |b| <= q || q + DESC <= p)
    ensures DescAt(Splice(m, p, b), q) == DescAt(m, q)
  {
    SameDesc(Splice(m, p, b), m, q, q);
  }

  /** Rewriting one descriptor rewrites one entry of its table. */
  lemma {:induction false} TableUpdate(m: seq<Byte>, b: seq<Byte>, base: nat, i: nat)
    requires base + TABLE <= |m| && |b| == DESC && i < SLOTS
    ensures var m' := Splice(m, base + DESC * i, b);
            Table(m', base) == Table(m, base)[i := DescAt(m', base + DESC * i)]
  {
    var m' := Splice(m, base + DESC * i, b);
    var t, t' := Table(m, base), Table(m', base);
    forall x | 0 <= x < SLOTS && x != i
      ensures t'[x] == t[x]
    {
      DescElsewhere(m, b, base + DESC * i, base + DESC * x);
    }
  }

  /** ... and leaves the other tables alone, provided they do not overlap. */
  lemma {:induction false} TablesUpdate(m: seq<Byte>, b: seq<Byte>, bases: seq<nat>, j: nat, i: nat)
    requires Inside(bases, |m|) && |b| == DESC && j < |bases| && i < SLOTS
    requires forall x, y :: 0 <= x < y < |bases| ==> Apart(bases[x], bases[y])
    ensures var m' := Splice(m, bases[j] + DESC * i, b);
            Tables(m', bases) == Tables(m, bases)[SLOTS * j + i := DescAt(m', bases[j] + DESC * i)]
    decreases |bases|
  {
    var n := |bases| - 1;
    var m' := Splice(m, bases[j] + DESC * i, b);
    if j == n {
      forall x | 0 <= x < n
        ensures SameOn(m, m', bases[x])
      {
        assert Apart(bases[x], bases[n]);
      }
      TablesFrame(m, m', bases[..n]);
      TableUpdate(m, b, bases[n], i);
      InSecond(Tables(m, bases[..n]), Table(m, bases[n]), SLOTS * j + i, DescAt(m', bases[j] + DESC * i));
    } else {
      assert bases[..n][j] == bases[j];
      TablesUpdate(m, b, bases[..n], j, i);
      assert Apart(bases[j], bases[n]);
      TableFrame(m, m', bases[n]);
      InFirst(Tables(m, bases[..n]), Table(m, bases[n]), SLOTS * j + i, DescAt(m', bases[j] + DESC * i));
    }
  }

  lemma {:induction false} InFirst<T>(a: seq<T>, b: seq<T>, i: nat, x: T)
    requires i < |a|
    ensures (a + b)[i := x] == a[i := x] + b
  {
  }

  lemma {:induction false} InSecond<T>(a: seq<T>, b: seq<T>, i: nat, x: T)
    requires |a| <= i < |a| + |b|
    ensures (a + b)[i := x] == a + b[i - |a| := x]
  {
  }

  // ----- stores into a descriptor, field by field ----------------------------------

  lemma {:induction false} WordElsewhere(m: seq<Byte>, b: seq<Byte>, p: nat, q: nat)
    requires p + |b| <= |m| && q + 2 <= |m| && (p + |b| <= q || q + 2 <= p)
    ensures Uw(Splice(m, p, b), q) == Uw(m, q)
  {
  }

  lemma {:induction false} LongElsewhere(m: seq<Byte>, b: seq<Byte>, p: nat, q: nat)
    requires p + |b| <= |m| && q + 4 <= |m| && (p + |b| <= q || q + 4 <= p)
    ensures Ul(Splice(m, p, b), q) == Ul(m, q)
  {
  }

  lemma {:induction false} SetFlags(m: seq<Byte>, p: nat, flags: nat)
    requires p + DESC <= |m|
    ensures DescAt(Splice(m, p + 8, WordBytes(flags)), p) == DescAt(m, p).(flags := flags % P18)
  {
    var w := WordBytes(flags);
    SpliceWord(m, p + 8, flags);
    LongElsewhere(m, w, p + 8, p);
    LongElsewhere(m, w, p + 8, p + 4);
    LongElsewhere(m, w, p + 8, p + 12);
  }

  lemma {:induction false} SetBase(m: seq<Byte>, p: nat, n: nat)
    requires p + DESC <= |m|
    ensures DescAt(Splice(m, p, LongBytes(n)), p) == DescAt(m, p).(base := n % P36)
  {
    SpliceLong(m, p, n);
    LongElsewhere(m, LongBytes(n), p, p + 4);
    WordElsewhere(m, LongBytes(n), p, p + 8);
    LongElsewhere(m, LongBytes(n), p, p + 12);
  }

  lemma {:induction false} SetSize(m: seq<Byte>, p: nat, n: nat)
    requires p + DESC <= |m|
    ensures DescAt(Splice(m, p + 4, LongBytes(n)), p) == DescAt(m, p).(size := n % P36)
  {
    SpliceLong(m, p + 4, n);
    LongElsewhere(m, LongBytes(n), p + 4, p);
    WordElsewhere(m, LongBytes(n), p + 4, p + 8);
    LongElsewhere(m, LongBytes(n), p + 4, p + 12);
  }

  lemma {:induction false} SetSegid(m: seq<Byte>, p: nat, n: nat)
    requires p + DESC <= |m|
    ensures DescAt(Splice(m, p + 12, LongBytes(n)), p) == DescAt(m, p).(segid := n % P36)
  {
    SpliceLong(m, p + 12, n);
    LongElsewhere(m, LongBytes(n), p + 12, p);
    LongElsewhere(m, LongBytes(n), p + 12, p + 4);
    WordElsewhere(m, LongBytes(n), p + 12, p + 8);
  }

  /** The four stores that fill a descriptor. */
  function FillDesc(m: seq<Byte>, p: nat, base: nat, size: nat, flags: nat, segid: nat): (r: seq<Byte>)
    requires p + DESC <= |m|
    ensures |r| == |m|
  {
    Splice(Splice(Splice(Splice(m, p, LongBytes(base)), p + 4, LongBytes(size)), p + 8, WordBytes(flags)),
           p + 12, LongBytes(segid))
  }

  lemma {:induction false} Filled(m: seq<Byte>, p: nat, base: nat, size: nat, flags: nat, segid: nat)
    requires p + DESC <= |m|
    ensures DescAt(FillDesc(m, p, base, size, flags, segid), p)
            == Desc(base % P36, size % P36, flags % P18, segid % P36)
    ensures OnlyAt(m, FillDesc(m, p, base, size, flags, segid), p, DESC)
  {
    var m1 := Splice(m, p, LongBytes(base));
    var m2 := Splice(m1, p + 4, LongBytes(size));
    var m3 := Splice(m2, p + 8, WordBytes(flags));
    SetBase(m, p, base);
    SetSize(m1, p, size);
    SetFlags(m2, p, flags);
    SetSegid(m3, p, segid);
  }

  /** The two stores of munmap. */
  function ClearDesc(m: seq<Byte>, p: nat): (r: seq<Byte>)
    requires p + DESC <= |m|
    ensures |r| == |m|
  {
    Splice(Splice(m, p + 4, LongBytes(0)), p + 8, WordBytes(0))
  }

  lemma {:induction false} Emptied(m: seq<Byte>, p: nat)
    requires p + DESC <= |m|
    ensures DescAt(ClearDesc(m, p), p) == DescAt(m, p).(size := 0, flags := 0)
    ensures OnlyAt(m, ClearDesc(m, p), p, DESC)
  {
    SetSize(m, p, 0);
    SetFlags(Splice(m, p + 4, LongBytes(0)), p, 0);
  }

  /** The bytes `b` are in memory at `p`. */
  predicate Stands(m: seq<Byte>, p: nat, b: seq<Byte>) {
    p + |b| <= |m| && m[p..p + |b|] == b
  }

  /** `m'` differs from `m` at most in the `n` bytes from `p` on. */
  predicate OnlyAt(m: seq<Byte>, m': seq<Byte>, p: nat, n: nat) {
    |m'| == |m| && p + n <= |m| && forall i :: 0 <= i < |m| && !(p <= i < p + n) ==> m'[i] == m[i]
  }

  /** Memory with the table at `p` blanked out. */
  ghost function Masked(m: seq<Byte>, p: nat): (r: seq<Byte>)
  {
    seq(|m|, i requires 0 <= i < |m| => if p <= i < p + TABLE then 0 else m[i])
  }

  lemma {:induction false} EntryMasked(m: seq<Byte>, m': seq<Byte>, p: nat, segno: nat)
    requires OnlyAt(m, m', p + DESC * segno, DESC) && segno < SLOTS
    ensures Masked(m', p) == Masked(m, p)
  {
  }

  lemma {:induction false} TableMasked(m: seq<Byte>, m': seq<Byte>, p: nat)
    requires OnlyAt(m, m', p, TABLE)
    ensures Masked(m', p) == Masked(m, p)
  {
  }

  lemma {:induction false} Respliced(m: seq<Byte>, m': seq<Byte>, p: nat, n: nat)
    requires OnlyAt(m, m', p, n)
    ensures m' == Splice(m, p, m'[p..p + n])
  {
  }

  /** Data runs copied one after the other to `base` plus their offset. */
  function Overlay(m: seq<Byte>, base: nat, data: seq<(nat, seq<Byte>)>): (r: seq<Byte>)
    requires RunsFit(data, |m| - base)
    ensures |r| == |m|
    decreases |data|
  {
    if |data| == 0 then m
    else
      assert data[0] in data;
      Overlay(Splice(m, base + data[0].0, data[0].1), base, data[1..])
  }

  lemma {:induction false} MaskedSplice(m: seq<Byte>, m1: seq<Byte>, q: nat, b: seq<Byte>, p: nat)
    requires |m| == |m1| && q + |b| <= |m| && Masked(m, p) == Masked(m1, p)
    ensures Masked(Splice(m, q, b), p) == Masked(Splice(m1, q, b), p)
  {
    assert forall i :: 0 <= i < |m| && !(p <= i < p + TABLE) ==> m[i] == Masked(m, p)[i] && m1[i] == Masked(m1, p)[i];
  }

  lemma {:induction false} OverlayFrame(m: seq<Byte>, base: nat, data: seq<(nat, seq<Byte>)>, size: nat)
    requires base + size <= |m| && RunsFit(data, size)
    ensures RunsFit(data, |m| - base)
    ensures var r := Overlay(m, base, data);
            forall i :: 0 <= i < |m| && !(base <= i < base + size) ==> r[i] == m[i]
    decreases |data|
  {
    if |data| > 0 {
      assert data[0] in data;
      OverlayFrame(Splice(m, base + data[0].0, data[0].1), base, data[1..], size);
    }
  }
}
