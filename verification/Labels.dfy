/** Local labels of nas/nas.cc: `.Nf` and `.Nb` searched among the definitions of
    the same number, which a multimap keeps in the order they were made. */
module Labels {
  import opened Kernel

  datatype Local = Local(num: nat, addr: nat, seg: nat)

  /** A definition the search from `seg` looks at. */
  predicate Same(l: Local, num: nat, seg: nat) {
    l.num == num && l.seg == seg
  }

  /** The first definition at or above `cur`, in the order of definition. */
  function Forward(ls: seq<Local>, num: nat, seg: nat, cur: nat): Option<nat> {
    if |ls| == 0 then None
    else if Same(ls[0], num, seg) && ls[0].addr >= cur then Some(ls[0].addr)
    else Forward(ls[1..], num, seg, cur)
  }

  /** The last definition below `cur`, in the order of definition. */
  function Backward(ls: seq<Local>, num: nat, seg: nat, cur: nat): Option<nat> {
    if |ls| == 0 then None
    else
      var last := |ls| - 1;
      if Same(ls[last], num, seg) && ls[last].addr < cur then Some(ls[last].addr)
      else Backward(ls[..last], num, seg, cur)
  }

  /** The definitions of one number, as equal_range delivers them. */
  function Range(ls: seq<Local>, num: nat): (r: seq<Local>)
    ensures forall i :: 0 <= i < |r| ==> r[i].num == num
  {
    if |ls| == 0 then []
    else
      var last := |ls| - 1;
      Range(ls[..last], num) + if ls[last].num == num then [ls[last]] else []
  }

  /** Searching the range is searching all definitions. */
  lemma {:induction false} RangeBackward(ls: seq<Local>, num: nat, seg: nat, cur: nat)
    ensures Backward(Range(ls, num), num, seg, cur) == Backward(ls, num, seg, cur)
    decreases |ls|
  {
    if |ls| > 0 {
      var last := |ls| - 1;
      RangeBackward(ls[..last], num, seg, cur);
      var r := Range(ls[..last], num);
      if ls[last].num == num {
        assert (r + [ls[last]])[..|r|] == r;
      } else {
        assert Range(ls, num) == r;
      }
    }
  }

  lemma {:induction false} ForwardSplit(a: seq<Local>, b: seq<Local>, num: nat, seg: nat, cur: nat)
    ensures Forward(a + b, num, seg, cur)
         == if Forward(a, num, seg, cur).Some? then Forward(a, num, seg, cur) else Forward(b, num, seg, cur)
    decreases |a|
  {
    if |a| == 0 {
      assert a + b == b;
    } else {
      assert (a + b)[1..] == a[1..] + b;
      ForwardSplit(a[1..], b, num, seg, cur);
    }
  }

  lemma {:induction false} RangeForward(ls: seq<Local>, num: nat, seg: nat, cur: nat)
    ensures Forward(Range(ls, num), num, seg, cur) == Forward(ls, num, seg, cur)
    decreases |ls|
  {
    if |ls| > 0 {
      var last := |ls| - 1;
      var tail := if ls[last].num == num then [ls[last]] else [];
      RangeForward(ls[..last], num, seg, cur);
      ForwardSplit(ls[..last], [ls[last]], num, seg, cur);
      assert ls == ls[..last] + [ls[last]];
      ForwardSplit(Range(ls[..last], num), tail, num, seg, cur);
    }
  }

  /** The pseudo-label case of Assembly::eval: None is an unresolved value. */
  method Resolve(locals: seq<Local>, num: nat, forward: bool, cseg: nat, addr: nat) returns (r: Option<nat>)
    ensures r == if forward then Forward(locals, num, cseg, addr) else Backward(locals, num, cseg, addr)
  {
    var range := Range(locals, num);
    if forward {
      RangeForward(locals, num, cseg, addr);
      var i := 0;
      while i < |range|
        invariant i <= |range|
        invariant Forward(range, num, cseg, addr) == Forward(range[i..], num, cseg, addr)
      {
        if range[i].seg == cseg && range[i].addr >= addr {
          return Some(range[i].addr);
        }
        assert range[i..][1..] == range[i + 1..];
        i := i + 1;
      }
    } else {
      RangeBackward(locals, num, cseg, addr);
      var i := |range|;
      assert range[..i] == range;
      while i != 0
        invariant 0 <= i <= |range|
        invariant Backward(range, num, cseg, addr) == Backward(range[..i], num, cseg, addr)
      {
        assert range[..i][..i - 1] == range[..i - 1];
        i := i - 1;
        if range[i].seg == cseg && range[i].addr < addr {
          return Some(range[i].addr);
        }
      }
    }
    r := None;
  }

  // ----- what the labels mean --------------------------------------------------------

  /** Addresses never decrease from one definition to the next of a segment. */
  predicate Ascending(ls: seq<Local>) {
    forall i, j :: 0 <= i < j < |ls| && ls[i].seg == ls[j].seg ==> ls[i].addr <= ls[j].addr
  }

  /** `a` is the greatest address below `cur` among the definitions looked at. */
  predicate Below(ls: seq<Local>, num: nat, seg: nat, cur: nat, a: nat) {
    && a < cur && (exists l :: l in ls && Same(l, num, seg) && l.addr == a)
    && forall l :: l in ls && Same(l, num, seg) && l.addr < cur ==> l.addr <= a
  }

  /** `a` is the least address from `cur` on. */
  predicate Above(ls: seq<Local>, num: nat, seg: nat, cur: nat, a: nat) {
    && a >= cur && (exists l :: l in ls && Same(l, num, seg) && l.addr == a)
    && forall l :: l in ls && Same(l, num, seg) && l.addr >= cur ==> a <= l.addr
  }

  /** `.Nb` is the nearest definition strictly below the current address, and is
      unresolved exactly when there is none. */
  lemma {:induction false} BackwardNearest(ls: seq<Local>, num: nat, seg: nat, cur: nat)
    requires Ascending(ls)
    ensures forall a: nat :: Backward(ls, num, seg, cur) == Some(a) <==> Below(ls, num, seg, cur, a)
    ensures Backward(ls, num, seg, cur).None? <==> forall l :: l in ls && Same(l, num, seg) ==> l.addr >= cur
    decreases |ls|
  {
    if |ls| > 0 {
      var last := |ls| - 1;
      BackwardNearest(ls[..last], num, seg, cur);
      assert ls == ls[..last] + [ls[last]];
    }
  }

  /** `.Nf` is the nearest definition at or above the current address. */
  lemma {:induction false} ForwardNearest(ls: seq<Local>, num: nat, seg: nat, cur: nat)
    requires Ascending(ls)
    ensures forall a: nat :: Forward(ls, num, seg, cur) == Some(a) <==> Above(ls, num, seg, cur, a)
    ensures Forward(ls, num, seg, cur).None? <==> forall l :: l in ls && Same(l, num, seg) ==> l.addr < cur
    decreases |ls|
  {
    if |ls| > 0 {
      ForwardNearest(ls[1..], num, seg, cur);
      assert ls == [ls[0]] + ls[1..];
    }
  }

  /** Definitions at or above `cur` do not change `.Nb`. */
  lemma {:induction false} BackwardPrefix(ls: seq<Local>, k: nat, num: nat, seg: nat, cur: nat)
    requires k <= |ls|
    requires forall j :: k <= j < |ls| && ls[j].seg == seg ==> ls[j].addr >= cur
    ensures Backward(ls[..k], num, seg, cur) == Backward(ls, num, seg, cur)
    decreases |ls|
  {
    var last := |ls| - 1;
    if k == |ls| {
      assert ls[..k] == ls;
    } else {
      BackwardPrefix(ls[..last], k, num, seg, cur);
      assert ls[..last][..k] == ls[..k];
    }
  }

  /** Between the passes. Pass 1 looks up `.Nb` from the address before alignment
      with the definitions made so far; pass 2 looks it up from the aligned address
      with all of them. Both give the same answer exactly when no definition of
      that number lies in the padding. */
  lemma {:induction false} BackwardAcrossPasses(ls: seq<Local>, k: nat, num: nat, seg: nat, before: nat, aligned: nat)
    requires k <= |ls| && before <= aligned && Ascending(ls)
    requires forall j :: k <= j < |ls| && ls[j].seg == seg ==> ls[j].addr >= aligned
    ensures Backward(ls[..k], num, seg, before) == Backward(ls, num, seg, aligned)
       <==> !exists l :: l in ls[..k] && Same(l, num, seg) && before <= l.addr < aligned
  {
    BackwardPrefix(ls, k, num, seg, aligned);
    BackwardNearest(ls[..k], num, seg, aligned);
    BackwardNearest(ls[..k], num, seg, before);
    var lo, hi := Backward(ls[..k], num, seg, before), Backward(ls[..k], num, seg, aligned);
    if hi.Some? {
      assert Below(ls[..k], num, seg, aligned, hi.value);
      if hi.value < before {
        assert Below(ls[..k], num, seg, before, hi.value);
      }
    }
  }

  /** Without ascending addresses the nearest definition can be missed: after the
      origin has moved back, a farther one is found first. */
  lemma {:induction false} OriginMovedBack()
    ensures var ls := [Local(1, 20, 0), Local(1, 10, 0)];
            Backward(ls, 1, 0, 30) == Some(10) && !Below(ls, 1, 0, 30, 10) && Below(ls, 1, 0, 30, 20)
  {
    var ls := [Local(1, 20, 0), Local(1, 10, 0)];
    assert ls[..1] == [Local(1, 20, 0)];
    assert ls[0] in ls && ls[1] in ls;
  }
}
