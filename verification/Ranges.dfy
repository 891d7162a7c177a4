/** The collection of generated bytes into ranges (nas/nas.cc, the last part of
    Assembly::assemble), one list of ranges per segment. */
module Ranges {
  import opened Codec
  import opened Kernel

  /** An instruction placed by the passes. */
  datatype Insn = Insn(seg: nat, addr: nat, bytes: seq<Byte>)

  datatype Range = Range(from: nat, to: nat, bytes: seq<Byte>)

  function RangeOf(x: Insn): Range {
    Range(x.addr, x.addr + |x.bytes|, x.bytes)
  }

  predicate Filled(r: Range) {
    r.from < r.to && r.to == r.from + |r.bytes|
  }

  predicate Apart(x: Range, y: Range) {
    x.to <= y.from || y.to <= x.from
  }

  /** The source's test for overlap. */
  predicate Overlaps(x: Range, y: Range) {
    (x.from < y.from && x.to > y.from) || (x.from >= y.from && x.from < y.to)
  }

  /** Where the walk over the list ends at the latest. */
  predicate Stops(rs: seq<Range>, x: Range, i: nat)
    requires i < |rs|
  {
    x.from == rs[i].to || i + 1 == |rs| || rs[i + 1].from == x.to
  }

  /** The walk over a list of ranges, from element `i` on; None is the overlap
      error. New ranges always go to the end of the list. */
  function Insert(rs: seq<Range>, x: Range, i: nat): (r: Option<seq<Range>>)
    requires i < |rs|
    decreases |rs| - i
  {
    if Overlaps(x, rs[i]) then None
    else if x.from == rs[i].to then
      if i + 1 < |rs| && x.to == rs[i + 1].from then
        Some(rs[..i] + [Range(rs[i].from, rs[i + 1].to, rs[i].bytes + x.bytes + rs[i + 1].bytes)] + rs[i + 2..])
      else Some(rs[i := Range(rs[i].from, x.to, rs[i].bytes + x.bytes)])
    else if i + 1 == |rs| then Some(rs + [x])
    else if rs[i + 1].from == x.to then
      Some(rs[i + 1 := Range(x.from, rs[i + 1].to, x.bytes + rs[i + 1].bytes)])
    else Insert(rs, x, i + 1)
  }

  function Add(rs: seq<Range>, x: Range): Option<seq<Range>> {
    if |rs| == 0 then Some([x]) else Insert(rs, x, 0)
  }

  /** The ranges of `n` segments after all of `src`. */
  function Collected(src: seq<Insn>, n: nat): (r: Option<seq<seq<Range>>>)
    requires forall i :: 0 <= i < |src| ==> src[i].seg < n
    ensures r.Some? ==> |r.value| == n
  {
    if |src| == 0 then Some(seq(n, i => []))
    else
      var x := src[|src| - 1];
      var before := Collected(src[..|src| - 1], n);
      if before.None? then None
      else
        var after := Add(before.value[x.seg], RangeOf(x));
        if after.None? then None else Some(before.value[x.seg := after.value])
  }

  /** One segment's list, changed in place. */
  class Segment {
    var data: seq<Range>

    constructor ()
      ensures data == []
    {
      data := [];
    }

    method Place(x: Range) returns (ok: bool)
      modifies this
      ensures ok <==> Add(old(data), x).Some?
      ensures data == if ok then Add(old(data), x).value else old(data)
    {
      if |data| == 0 {
        data := [x];
        return true;
      }
      var si := 0;
      while si < |data|
        invariant 0 <= si < |data| && data == old(data)
        invariant Insert(data, x, 0) == Insert(data, x, si)
        decreases |data| - si
      {
        var s := data[si];
        if Overlaps(x, s) {
          return false;
        }
        var sn := si + 1;
        if x.from == s.to {
          s := Range(s.from, x.to, s.bytes + x.bytes);
          if sn != |data| && x.to == data[sn].from {
            s := Range(s.from, data[sn].to, s.bytes + data[sn].bytes);
            data := data[..si] + [s] + data[sn + 1..];
          } else {
            data := data[si := s];
          }
          return true;
        }
        if sn == |data| {
          data := data + [x];
          return true;
        }
        if data[sn].from == x.to {
          data := data[sn := Range(x.from, data[sn].to, x.bytes + data[sn].bytes)];
          return true;
        }
        si := sn;
      }
    }
  }

  /** The loop over the source lines; on an overlap the assembler gives up. */
  method Collect(src: seq<Insn>, segs: seq<Segment>) returns (ok: bool)
    requires forall i :: 0 <= i < |src| ==> src[i].seg < |segs|
    requires forall i, j :: 0 <= i < j < |segs| ==> segs[i] != segs[j]
    requires forall i :: 0 <= i < |segs| ==> segs[i].data == []
    modifies segs
    ensures ok <==> Collected(src, |segs|).Some?
    ensures ok ==> forall i :: 0 <= i < |segs| ==> segs[i].data == Collected(src, |segs|).value[i]
  {
    var k := 0;
    while k < |src|
      invariant k <= |src| && Collected(src[..k], |segs|).Some?
      invariant forall i :: 0 <= i < |segs| ==> segs[i].data == Collected(src[..k], |segs|).value[i]
    {
      assert src[..k + 1][..k] == src[..k];
      ok := segs[src[k].seg].Place(RangeOf(src[k]));
      if !ok {
        CollectedPrefix(src, k + 1, |segs|);
        return;
      }
      k := k + 1;
    }
    assert src[..k] == src;
    return true;
  }

  /** An error is final. */
  lemma {:induction false} CollectedPrefix(src: seq<Insn>, k: nat, n: nat)
    requires k <= |src| && forall i :: 0 <= i < |src| ==> src[i].seg < n
    ensures Collected(src, n).Some? ==> Collected(src[..k], n).Some?
    decreases |src|
  {
    if k == |src| {
      assert src[..k] == src;
    } else {
      CollectedPrefix(src[..|src| - 1], k, n);
      assert src[..|src| - 1][..k] == src[..k];
    }
  }

  // ----- what the ranges hold --------------------------------------------------------

  predicate In(r: Range, a: nat, b: Byte) {
    r.from <= a < r.from + |r.bytes| && r.bytes[a - r.from] == b
  }

  ghost predicate Holds(rs: seq<Range>, a: nat, b: Byte) {
    exists r :: r in rs && In(r, a, b)
  }

  /** Non-empty ranges that share no address. */
  predicate Tidy(rs: seq<Range>) {
    && (forall i :: 0 <= i < |rs| ==> Filled(rs[i]))
    && (forall i, j :: 0 <= i < j < |rs| ==> Apart(rs[i], rs[j]))
  }

  predicate ApartFrom(rs: seq<Range>, x: Range) {
    forall i :: 0 <= i < |rs| ==> Apart(rs[i], x)
  }

  /** `x` was added to `rs`, no more and no less. */
  ghost predicate Joined(rs: seq<Range>, x: Range, r: seq<Range>) {
    Tidy(r) && forall a: nat, b: Byte :: Holds(r, a, b) <==> Holds(rs, a, b) || In(x, a, b)
  }

  /** Replacing element `i` by its union with `x`. */
  lemma {:induction false} Grow(rs: seq<Range>, x: Range, i: nat, m: Range)
    requires Tidy(rs) && Filled(x) && ApartFrom(rs, x) && i < |rs|
    requires (x.from == rs[i].to && m == Range(rs[i].from, x.to, rs[i].bytes + x.bytes))
          || (x.to == rs[i].from && m == Range(x.from, rs[i].to, x.bytes + rs[i].bytes))
    ensures Joined(rs, x, rs[i := m])
  {
    var r := rs[i := m];
    forall a: nat, b: Byte
      ensures Holds(r, a, b) <==> Holds(rs, a, b) || In(x, a, b)
    {
      assert In(m, a, b) <==> In(rs[i], a, b) || In(x, a, b);
      assert r[i] in r && rs[i] in rs;
      if Holds(rs, a, b) {
        var k :| 0 <= k < |rs| && In(rs[k], a, b);
        assert r[k] in r;
      }
      if Holds(r, a, b) {
        var k :| 0 <= k < |r| && In(r[k], a, b);
        assert k != i ==> rs[k] in rs;
      }
    }
  }

  /** Joining element `i` to its successor. */
  lemma {:induction false} Fuse(rs: seq<Range>, i: nat, m: Range)
    requires Tidy(rs) && i + 1 < |rs| && rs[i].to == rs[i + 1].from
    requires m == Range(rs[i].from, rs[i + 1].to, rs[i].bytes + rs[i + 1].bytes)
    ensures var r := rs[..i] + [m] + rs[i + 2..];
            Tidy(r) && forall a: nat, b: Byte :: Holds(r, a, b) <==> Holds(rs, a, b)
  {
    var r := rs[..i] + [m] + rs[i + 2..];
    forall p, q | 0 <= p < q < |r|
      ensures Apart(r[p], r[q])
    {
      assert r[p] == if p < i then rs[p] else if p == i then m else rs[p + 1];
      assert r[q] == if q < i then rs[q] else if q == i then m else rs[q + 1];
    }
    assert rs == rs[..i] + [rs[i], rs[i + 1]] + rs[i + 2..];
    forall a: nat, b: Byte
      ensures Holds(r, a, b) <==> Holds(rs, a, b)
    {
      assert In(m, a, b) <==> In(rs[i], a, b) || In(rs[i + 1], a, b);
      assert m in r && rs[i] in rs && rs[i + 1] in rs;
    }
  }

  lemma {:induction false} Append(rs: seq<Range>, x: Range)
    requires Tidy(rs) && Filled(x) && ApartFrom(rs, x)
    ensures Joined(rs, x, rs + [x])
  {
    var r := rs + [x];
    forall a: nat, b: Byte
      ensures Holds(r, a, b) <==> Holds(rs, a, b) || In(x, a, b)
    {
      assert forall y :: y in r <==> y in rs || y == x;
    }
  }

  /** Placing a range that overlaps nothing never fails, and adds exactly its
      bytes to those held. */
  lemma {:induction false} InsertJoins(rs: seq<Range>, x: Range, i: nat)
    requires Tidy(rs) && Filled(x) && ApartFrom(rs, x) && i < |rs|
    ensures Insert(rs, x, i).Some? && Joined(rs, x, Insert(rs, x, i).value)
    decreases |rs| - i
  {
    if x.from == rs[i].to {
      var m := Range(rs[i].from, x.to, rs[i].bytes + x.bytes);
      Grow(rs, x, i, m);
      if i + 1 < |rs| && x.to == rs[i + 1].from {
        var g := rs[i := m];
        var f := Range(m.from, rs[i + 1].to, m.bytes + rs[i + 1].bytes);
        Fuse(g, i, f);
        assert g[..i] == rs[..i] && g[i + 2..] == rs[i + 2..];
      }
    } else if i + 1 == |rs| {
      Append(rs, x);
    } else if rs[i + 1].from == x.to {
      Grow(rs, x, i + 1, Range(x.from, rs[i + 1].to, x.bytes + rs[i + 1].bytes));
    } else {
      InsertJoins(rs, x, i + 1);
    }
  }

  /** Exactly which overlaps are reported: one with a range the walk reaches. */
  lemma {:induction false} OverlapReported(rs: seq<Range>, x: Range, i: nat)
    requires i < |rs|
    ensures Insert(rs, x, i).None?
       <==> exists j :: i <= j < |rs| && Overlaps(x, rs[j]) && forall k :: i <= k < j ==> !Stops(rs, x, k)
    decreases |rs| - i
  {
    if !Overlaps(x, rs[i]) && !Stops(rs, x, i) {
      OverlapReported(rs, x, i + 1);
      if j :| i + 1 <= j < |rs| && Overlaps(x, rs[j]) && forall k :: i + 1 <= k < j ==> !Stops(rs, x, k) {
        assert forall k :: i <= k < j ==> !Stops(rs, x, k);
      }
    }
  }

  predicate Covers(r: Range, a: nat) {
    r.from <= a < r.to
  }

  /** The test means what it should for ranges with bytes in them. */
  lemma {:induction false} OverlapMeans(x: Range, y: Range)
    requires Filled(x) && Filled(y)
    ensures Overlaps(x, y) <==> exists a :: Covers(x, a) && Covers(y, a)
    ensures Overlaps(x, y) <==> !Apart(x, y)
  {
    if Overlaps(x, y) {
      var a := if x.from < y.from then y.from else x.from;
      assert Covers(x, a) && Covers(y, a);
    }
  }

  predicate Placeable(src: seq<Insn>, n: nat) {
    && (forall i :: 0 <= i < |src| ==> src[i].seg < n && |src[i].bytes| > 0)
    && (forall i, j :: 0 <= i < j < |src| && src[i].seg == src[j].seg ==> Apart(RangeOf(src[i]), RangeOf(src[j])))
  }

  /** Some instruction of segment `s` puts `b` at `a`. */
  ghost predicate Emits(src: seq<Insn>, s: nat, a: nat, b: Byte) {
    exists x :: x in src && x.seg == s && In(RangeOf(x), a, b)
  }

  /** Whatever the order of the instructions, as long as they do not overlap,
      collection succeeds and the ranges of every segment hold exactly the bytes
      of its instructions, each at its own address, once. */
  lemma {:induction false} CollectExactly(src: seq<Insn>, n: nat)
    requires Placeable(src, n)
    ensures Collected(src, n).Some?
    ensures var d := Collected(src, n).value;
            forall s :: 0 <= s < n ==>
              Tidy(d[s]) && forall a: nat, b: Byte :: Holds(d[s], a, b) <==> Emits(src, s, a, b)
    decreases |src|
  {
    if |src| > 0 {
      var last := |src| - 1;
      var x := src[last];
      CollectExactly(src[..last], n);
      var d := Collected(src[..last], n).value;
      assert src == src[..last] + [x];
      assert forall y :: y in src <==> y in src[..last] || y == x;
      ApartFromEarlier(src, n, d[x.seg]);
      if |d[x.seg]| > 0 {
        InsertJoins(d[x.seg], RangeOf(x), 0);
      } else {
        Append([], RangeOf(x));
        assert [] + [RangeOf(x)] == [RangeOf(x)];
      }
      forall s, a: nat, b: Byte | 0 <= s < n
        ensures Holds(Collected(src, n).value[s], a, b) <==> Emits(src, s, a, b)
      {
        assert Emits(src, s, a, b) <==> Emits(src[..last], s, a, b) || (x.seg == s && In(RangeOf(x), a, b));
      }
    }
  }

  /** The ranges so far keep clear of the next instruction. */
  lemma {:induction false} ApartFromEarlier(src: seq<Insn>, n: nat, rs: seq<Range>)
    requires Placeable(src, n) && |src| > 0 && Tidy(rs)
    requires forall a: nat, b: Byte :: Holds(rs, a, b) <==> Emits(src[..|src| - 1], src[|src| - 1].seg, a, b)
    ensures ApartFrom(rs, RangeOf(src[|src| - 1]))
  {
    var x := RangeOf(src[|src| - 1]);
    forall i | 0 <= i < |rs|
      ensures Apart(rs[i], x)
    {
      OverlapMeans(rs[i], x);
      forall a: nat | Covers(rs[i], a)
        ensures !Covers(x, a)
      {
        assert rs[i] in rs && In(rs[i], a, rs[i].bytes[a - rs[i].from]);
        assert Holds(rs, a, rs[i].bytes[a - rs[i].from]);
        var y :| y in src[..|src| - 1] && y.seg == src[|src| - 1].seg && In(RangeOf(y), a, rs[i].bytes[a - rs[i].from]);
        var k :| 0 <= k < |src| - 1 && src[k] == y;
        assert Apart(RangeOf(src[k]), x);
      }
    }
  }

  /** An overlap beyond the place where the walk stops goes unreported, and the
      ranges then hold two bytes for one address. */
  lemma {:induction false} OverlapUnreported()
    ensures var rs := [Range(0, 1, [1]), Range(2, 3, [2])];
            var x := Range(1, 3, [3, 4]);
            && Tidy(rs) && Filled(x) && Overlaps(x, rs[1])
            && Add(rs, x).Some? && Holds(Add(rs, x).value, 2, 2) && Holds(Add(rs, x).value, 2, 4)
  {
    var rs := [Range(0, 1, [1]), Range(2, 3, [2])];
    var x := Range(1, 3, [3, 4]);
    var r := Add(rs, x).value;
    assert rs[0].bytes + x.bytes == [1, 3, 4];
    assert r == [Range(0, 3, [1, 3, 4]), Range(2, 3, [2])];
    assert r[0] in r && In(r[0], 2, 4);
    assert r[1] in r && In(r[1], 2, 2);
  }
}
