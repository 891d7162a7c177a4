/** The address spaces fork leaves: the child's table beside its parent's. */
module ForkSpace {
  import opened Codec
  import opened Heap
  import opened Kernel
  import opened KernelInv
  import opened KernelRun
  import Isolation

  /** An entry of a child: the parent's segment, usable as there, except that a mapping
      is not writable but, if it was, marked copy-on-write. */
  predicate Inherited(e: Desc, c: Desc) {
    && c.segid == e.segid && c.base == e.base && c.size == e.size
    && (Valid(c) <==> Valid(e)) && (Bit(c.flags, SUPER) <==> Bit(e.flags, SUPER))
    && (Bit(c.flags, READ) <==> Bit(e.flags, READ)) && (Bit(c.flags, EXEC) <==> Bit(e.flags, EXEC))
    && (if Valid(e) then !Bit(c.flags, WRITE) && (Bit(c.flags, COW) <==> Bit(e.flags, WRITE) || Bit(e.flags, COW))
        else c == e)
  }

  lemma {:induction false} CopyInherits(e: Desc)
    ensures Inherited(e, CopyEnt(e))
  {
    CopyFlags(e);
    if Valid(e) && Bit(e.flags, WRITE) {
      ClearWriteSetCow(e.flags);
    }
  }

  /** What a process's fork leaves when it succeeds: every table that was there as it
      was; a new one, made current, with its own area in slot 4 and otherwise the
      parent's entries as a child has them. */
  lemma {:induction false} ForkedTable(k: Sys, sspSeg: nat, sspAddr: nat)
    requires Inv(k) && k.cur.Some? && ForkUser(k, sspSeg, sspAddr).1 == Done
    ensures var r, n := ForkUser(k, sspSeg, sspAddr).0, |k.ents|;
            && r.cur == Some(|k.uareas|) && r.len == k.len && r.uareas == k.uareas + [|k.segs|]
            && |r.ents| == n + SLOTS && r.ents[..n] == k.ents && |r.segs| == |k.segs| + 1
            && r.ents[n + 4] == AreaEntry(r.segs[|k.segs|].base, |k.segs|)
            && forall i :: 0 <= i < SLOTS && i != 4 ==> Inherited(CurTable(k)[i], r.ents[n + i])
  {
    var t, n := CurTable(k), |k.ents|;
    var copy := seq(SLOTS, i requires 0 <= i < SLOTS => CopyEnt(t[i]));
    var k1 := NewArea(k, copy).0;
    AddrefsShape(k1.segs, t);
    var r := ForkUser(k, sspSeg, sspAddr).0;
    assert r.ents == k1.ents;
    assert k1.ents[..n] == k.ents;
    forall i | 0 <= i < SLOTS && i != 4
      ensures Inherited(t[i], r.ents[n + i])
    {
      CopyInherits(t[i]);
      assert k1.ents[n + i] == copy[i];
    }
  }

  /** So the child finds the parent's segments, at the same numbers, and writes to none
      of its mappings. */
  lemma {:induction false} ChildFinds(k: Sys, sspSeg: nat, sspAddr: nat, i: nat, addr: nat, n: nat)
    requires Inv(k) && k.cur.Some? && ForkUser(k, sspSeg, sspAddr).1 == Done
    requires i < k.len && i != 4 && Valid(CurTable(k)[i])
    ensures var r, e := ForkUser(k, sspSeg, sspAddr).0, CurTable(k)[i];
            && Lookup(r, i).1.Found?
            && var c := Lookup(r, i).1.desc;
               && c.base == e.base && c.len == e.size && !Isolation.Passes(c, addr, n, WRITE)
               && (Isolation.Passes(c, addr, n, READ) <==> Isolation.Passes(Fetch(e, i), addr, n, READ))
               && (Isolation.Passes(c, addr, n, EXEC) <==> Isolation.Passes(Fetch(e, i), addr, n, EXEC))
  {
    var r := ForkUser(k, sspSeg, sspAddr).0;
    ForkedTable(k, sspSeg, sspAddr);
    ForkUserInv(k, sspSeg, sspAddr);
    Isolation.LookupIsDirect(r, i);
    assert Slot(r, i) == |k.ents| + i;
    assert Inherited(CurTable(k)[i], r.ents[|k.ents| + i]);
  }

  /** The kernel's fork leaves a table in which only slot 4 can be used, and switches to
      none. */
  lemma {:induction false} FirstTable(k: Sys, stale: seq<Desc>)
    requires Inv(k) && |stale| == SLOTS && ForkSuper(k, stale).1 == Done
    ensures var r, n := ForkSuper(k, stale).0, |k.ents|;
            && r.cur == k.cur && r.len == k.len && r.uareas == k.uareas + [|k.segs|]
            && |r.ents| == n + SLOTS && r.ents[..n] == k.ents && |r.segs| == |k.segs| + 1
            && var child := r.ents[n..];
               && child[4] == AreaEntry(r.segs[|k.segs|].base, |k.segs|)
               && forall i :: 0 <= i < SLOTS && i != 4 ==> !Valid(child[i]) && !Accessible(child[i])
  {
    var n := |k.ents|;
    var t := seq(SLOTS, i requires 0 <= i < SLOTS => stale[i].(flags := 0));
    var r := ForkSuper(k, stale).0;
    assert r.ents == k.ents + t[4 := AreaEntry(r.segs[|k.segs|].base, |k.segs|)];
    assert r.ents[n..] == t[4 := AreaEntry(r.segs[|k.segs|].base, |k.segs|)];
  }

  /** When fork fails, and that it then leaves every table as it was. */
  lemma {:induction false} ForkFails(k: Sys, sspSeg: nat, sspAddr: nat)
    requires Inv(k) && k.cur.Some?
    ensures var (r, err) := ForkUser(k, sspSeg, sspAddr);
            && (err == ENOMEM <==> Salloc(k, PAGE).1.None?) && (err == ENOMEM ==> r == k)
            && (err == Trapped <==> Salloc(k, PAGE).1.Some? && SavePlace(k, sspSeg, sspAddr).None?)
            && (err == Trapped ==> r.cur == k.cur && |k.ents| <= |r.ents| && r.ents[..|k.ents|] == k.ents)
            && (err == ENOMEM || err == Trapped || err == Done)
  {
    if Salloc(k, PAGE).1.Some? {
      var copy := seq(SLOTS, i requires 0 <= i < SLOTS => CopyEnt(CurTable(k)[i]));
      assert NewArea(k, copy).0.ents[..|k.ents|] == k.ents;
    }
  }

  /** The kernel reads and writes a process area through slot 4, any other code neither
      executes it nor, by Protection, reaches it. */
  lemma {:induction false} AreaUsable(base: nat, useg: nat, addr: nat, n: nat)
    requires addr + n <= PAGE
    ensures var c := Fetch(AreaEntry(base, useg), 4);
            && Isolation.Passes(c, addr, n, READ) && Isolation.Passes(c, addr, n, WRITE)
            && !Isolation.Passes(c, addr, n, EXEC) && Bit(c.flags, SUPER)
            && (addr + n < P64 ==> Isolation.Phys(c, addr, n) == base + addr)
  {
    assert (addr + n) % P64 == addr + n;
  }
}
