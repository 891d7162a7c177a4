/** What the invariant buys: the results that hold after every run of the
    memory manager from power-on. */
module Isolation {
  import opened Codec
  import opened Heap
  import opened Kernel
  import opened KernelInv
  import opened KernelRun

  // ----- the mapping invariant, spelled out -------------------------------------------

  /** After any run, across the tables of all processes: a segid has at least as
      many references as VALID entries name it; every VALID entry carries its
      segid's base and size; a non-empty segment owns a live block of exactly its
      pages, and no other segid has it. */
  lemma {:induction false} MappingsAlways(memSize: nat, ops: seq<Op>)
    requires memSize >= PAGE
    ensures Inv(Boot(memSize))
    ensures Runs(Boot(memSize), ops) ==>
              var k := After(Boot(memSize), ops);
              && (forall s :: 0 <= s < |k.segs| ==> k.segs[s].refs >= Count(k.ents, s))
              && (forall j :: 0 <= j < |k.ents| && Valid(k.ents[j]) ==>
                    var e := k.ents[j];
                    e.segid < |k.segs| && e.base == k.segs[e.segid].base && e.size == k.segs[e.segid].size)
              && (forall s :: 0 <= s < |k.segs| && k.segs[s].size > 0 ==> Owns(k, s))
              && (forall s, t :: 0 <= s < t < |k.segs| && k.segs[s].size > 0 && k.segs[t].size > 0 ==>
                    k.segs[s].base != k.segs[t].base)
  {
    BootInv(memSize);
    if Runs(Boot(memSize), ops) {
      var k := After(Boot(memSize), ops);
      forall s | 0 <= s < |k.segs|
        ensures k.segs[s].refs >= Count(k.ents, s)
        ensures k.segs[s].size > 0 ==> Owns(k, s)
      {
        assert RefOk(k, s) && SegOk(k.heap, k.segs[s]);
      }
      assert forall j :: 0 <= j < |k.ents| ==> EntOk(k.segs, k.ents[j]);
    }
  }

  /** Segid `s` sits at the start of a live block of the right length. */
  ghost predicate Owns(k: Sys, s: nat)
    requires s < |k.segs|
  {
    var page := k.segs[s].base / PAGE;
    page >= 1 && k.segs[s].base == page * PAGE
    && page in Blocks(k.heap) && Blocks(k.heap)[page] == Pages(k.segs[s].size)
  }

  // ----- access --------------------------------------------------------------------------

  predicate IsPerm(perm: nat) {
    perm == READ || perm == WRITE || perm == EXEC
  }

  /** The test of Addr::access, on 64-bit unsigned arithmetic. */
  predicate Passes(c: CSeg, addr: nat, n: nat, perm: nat)
    requires perm > 0
  {
    (addr + n) % P64 <= c.len && Bit(c.flags, perm)
  }

  /** Where the host pointer lands: an address that wraps counts backwards from
      the segment's base. */
  function Phys(c: CSeg, addr: nat, n: nat): int {
    if addr + n < P64 then c.base + addr else c.base + addr - P64
  }

  /** A passed test confines the access to its segment exactly when address plus
      length stays within 64 bits. */
  lemma {:induction false} ConfinedIff(c: CSeg, addr: nat, n: nat, perm: nat)
    requires IsPerm(perm) && 0 < n < P64 && addr < P64 && Passes(c, addr, n, perm)
    ensures (c.base <= Phys(c, addr, n) && Phys(c, addr, n) + n <= c.base + c.len) <==> addr + n < P64
  {
    if addr + n < P64 {
      assert (addr + n) % P64 == addr + n;
    }
  }

  /** The bytes of the block that starts at `base`. */
  ghost predicate InBlock(k: Sys, base: nat, p: int, n: nat) {
    base / PAGE in Blocks(k.heap) && base <= p && p + n <= base + PAGE * Blocks(k.heap)[base / PAGE]
  }

  /** An access through any usable entry of any table that does not wrap stays in
      the block owned by the segid that entry names, and inside memory; one that
      wraps starts in the `n` bytes below that block. */
  lemma {:induction false} AccessInOwnBlock(k: Sys, j: nat, segno: nat, addr: nat, n: nat, perm: nat)
    requires Inv(k) && j < |k.ents| && IsPerm(perm) && 0 < n < P64 && addr < P64
    requires Passes(Fetch(k.ents[j], segno), addr, n, perm)
    ensures var e := k.ents[j];
            var p := Phys(Fetch(e, segno), addr, n);
            && e.segid < |k.segs| && e.base == k.segs[e.segid].base && p + n <= e.base + e.size <= k.memSize
            && if addr + n < P64 then k.segs[e.segid].size > 0 && e.base <= p && InBlock(k, e.base, p, n)
               else e.base - n <= p < e.base
  {
    var e := k.ents[j];
    assert EntOk(k.segs, e) && Accessible(e);
    var s := k.segs[e.segid];
    assert SegOk(k.heap, s);
    if s.size > 0 {
      PagesCover(s.size);
      assert Cell(k.heap, s.base / PAGE);
    }
    if addr + n < P64 {
      assert (addr + n) % P64 == addr + n;
    } else {
      assert (addr + n) % P64 == addr + n - P64;
    }
  }

  /** Accesses that do not wrap, through entries that name different segids, touch
      no common byte, whichever processes the entries belong to. */
  lemma {:induction false} DistinctSegidsDisjoint(k: Sys, i: nat, ai: nat, ni: nat, pi: nat, j: nat, aj: nat, nj: nat,
                                                  pj: nat)
    requires Inv(k) && i < |k.ents| && j < |k.ents| && k.ents[i].segid != k.ents[j].segid
    requires IsPerm(pi) && 0 < ni && ai + ni < P64 && Passes(Fetch(k.ents[i], 0), ai, ni, pi)
    requires IsPerm(pj) && 0 < nj && aj + nj < P64 && Passes(Fetch(k.ents[j], 0), aj, nj, pj)
    ensures var p := Phys(Fetch(k.ents[i], 0), ai, ni);
            var q := Phys(Fetch(k.ents[j], 0), aj, nj);
            p + ni <= q || q + nj <= p
  {
    AccessInOwnBlock(k, i, 0, ai, ni, pi);
    AccessInOwnBlock(k, j, 0, aj, nj, pj);
    SegmentsApart(k, k.ents[i].segid, k.ents[j].segid);
  }

  lemma {:induction false} SegmentsApart(k: Sys, s: nat, t: nat)
    requires Inv(k) && s < |k.segs| && t < |k.segs| && s != t && k.segs[s].size > 0 && k.segs[t].size > 0
    ensures var p, q := k.segs[s].base, k.segs[t].base;
            && p / PAGE in Blocks(k.heap) && q / PAGE in Blocks(k.heap)
            && (p + PAGE * Blocks(k.heap)[p / PAGE] <= q || q + PAGE * Blocks(k.heap)[q / PAGE] <= p)
  {
    var p, q := k.segs[s].base, k.segs[t].base;
    assert SegOk(k.heap, k.segs[s]) && SegOk(k.heap, k.segs[t]);
    assert p != q by {
      if s < t { assert k.segs[s].base != k.segs[t].base; }
    }
    if p / PAGE < q / PAGE {
      BlocksDisjoint(k.heap, p / PAGE, q / PAGE);
    } else {
      BlocksDisjoint(k.heap, q / PAGE, p / PAGE);
    }
  }

  /** In user mode no access reaches a table: one that does not wrap stays off the
      whole process area, and one that wraps reaches at most the last `n` bytes of
      the page below its segment, which a table leaves free. */
  lemma {:induction false} UserNeverReachesTables(k: Sys, j: nat, addr: nat, n: nat, perm: nat, u: nat)
    requires Inv(k) && j < |k.ents| && u < |k.uareas| && IsPerm(perm) && 0 < n < P64 && addr < P64
    requires Passes(Fetch(k.ents[j], 0), addr, n, perm) && !Bit(k.ents[j].flags, SUPER)
    ensures k.uareas[u] < |k.segs|
    ensures var p := Phys(Fetch(k.ents[j], 0), addr, n);
            var area := k.segs[k.uareas[u]].base;
            && (addr + n < P64 ==> p + n <= area || area + PAGE <= p)
            && (n <= PAGE - TABLE ==> p + n <= area || area + TABLE <= p)
  {
    AccessInOwnBlock(k, j, 0, addr, n, perm);
    assert k.uareas[u] in k.uareas;
    assert PrivateOk(k.uareas, k.ents[j]);
    var s := k.uareas[u];
    assert SegOk(k.heap, k.segs[s]) && SegOk(k.heap, k.segs[k.ents[j].segid]);
    PagesCover(k.segs[s].size);
    if k.segs[k.ents[j].segid].size > 0 {
      SegmentsApart(k, k.ents[j].segid, s);
      PagesCover(k.segs[k.ents[j].segid].size);
    }
  }

  /** Isolation fails for an access that wraps: the one byte at address 2^64-1 of a
      segment is the last byte of a full segment in the block below. */
  lemma {:induction false} WrapMeetsNeighbour(k: Sys, i: nat, j: nat)
    requires Inv(k) && i < |k.ents| && j < |k.ents| && Bit(k.ents[i].flags, READ) && Bit(k.ents[j].flags, READ)
    requires k.ents[i].size > 0 && k.ents[i].size < P64 && k.ents[j].base == k.ents[i].base + k.ents[i].size
    ensures Passes(Fetch(k.ents[i], 0), k.ents[i].size - 1, 1, READ) && Passes(Fetch(k.ents[j], 0), P64 - 1, 1, READ)
    ensures Phys(Fetch(k.ents[j], 0), P64 - 1, 1) == Phys(Fetch(k.ents[i], 0), k.ents[i].size - 1, 1)
    ensures k.ents[i].segid != k.ents[j].segid
  {
    var e, f := k.ents[i], k.ents[j];
    assert EntOk(k.segs, e) && EntOk(k.segs, f);
    assert (e.size - 1 + 1) % P64 == e.size && (P64 - 1 + 1) % P64 == 0;
  }

  // ----- the cache is invisible ------------------------------------------------------------

  lemma {:induction false} LookupIsDirect(k: Sys, segno: nat)
    requires Inv(k)
    ensures Lookup(k, segno).1 == Direct(k, segno)
  {
    assert SlotOk(k, segno % 16);
  }

  /** In any state at all, lookups agree with the table exactly when every VALID
      slot that can be hit holds what the table says. SSMA and SSML can break
      this, since they do not invalidate. */
  lemma {:induction false} TransparentIff(k: Sys)
    requires Shape(k)
    ensures (forall segno: nat :: Lookup(k, segno).1 == Direct(k, segno))
            <==> (forall i :: 0 <= i < 16 ==> SlotAgrees(k, i))
  {
    if forall segno: nat :: Lookup(k, segno).1 == Direct(k, segno) {
      forall i | 0 <= i < 16
        ensures SlotAgrees(k, i)
      {
        assert Lookup(k, k.cache[i].seg).1 == Direct(k, k.cache[i].seg);
      }
    }
    if forall i :: 0 <= i < 16 ==> SlotAgrees(k, i) {
      forall segno: nat
        ensures Lookup(k, segno).1 == Direct(k, segno)
      {
        assert SlotAgrees(k, segno % 16);
      }
    }
  }

  predicate SlotAgrees(k: Sys, i: nat)
    requires Shape(k) && i < 16
  {
    var c := k.cache[i];
    Bit(c.flags, VALID) && c.seg % 16 == i && c.seg != FLAT ==> Direct(k, c.seg) == Found(c)
  }

  /** SSMA to the table of process area `j`, a lookup having filled a slot: the slot
      answers from the old table, wrongly, exactly when the old entry is VALID and the
      new table has another descriptor there. */
  lemma {:induction false} SsmaGoesStale(k: Sys, segno: nat, j: nat)
    requires Inv(k) && k.cur.Some? && j < |k.uareas| && segno < k.len <= SLOTS
    ensures var here, there := k.ents[Slot(k, segno)], k.ents[SLOTS * j + segno];
            var k' := Ssma(Lookup(k, segno).0, j);
            && Direct(k', segno) == Found(Fetch(there, segno))
            && (Lookup(k', segno).1 != Direct(k', segno)
                <==> Valid(here) && Fetch(here, segno) != Fetch(there, segno))
            && (Valid(here) ==> Lookup(k', segno).1 == Found(Fetch(here, segno)))
  {
    assert SlotOk(k, segno % 16);
  }

  /** After reset nothing but the flat segment is found. */
  lemma {:induction false} ResetForgets(k: Sys, segno: nat)
    requires Shape(k)
    ensures Lookup(Reset(k), segno).1 == if segno == FLAT then Found(Flat(k)) else NoSegment(segno)
  {
    NoBits();
  }

  lemma {:induction false} NoBits()
    ensures !Bit(0, VALID)
  {
  }

  /** SSML on an empty cache: exactly the numbers below the length are found, as the
      table has them. */
  lemma {:induction false} SsmlBounds(k: Sys, n: nat, segno: nat)
    requires Inv(k) && EmptyCache(k) && n <= SLOTS && k.cur.Some? && segno != FLAT
    ensures Lookup(Ssml(k, n), segno).1
         == if segno < n then Found(Fetch(k.ents[SLOTS * k.cur.value + segno], segno)) else NoSegment(segno)
  {
  }

  // ----- held addresses ----------------------------------------------------------------------

  ghost function Lookups(k: Sys, ns: seq<nat>): (r: Sys)
    requires Shape(k)
    ensures Shape(r) && r == k.(cache := r.cache)
    decreases |ns|
  {
    if |ns| == 0 then k else Lookups(Lookup(k, ns[0]).0, ns[1..])
  }

  /** The segment number a slot answers for after a series of lookups. */
  function LastInSlot(held: nat, ns: seq<nat>): (r: nat)
    ensures r % 16 == held % 16
    decreases |ns|
  {
    if |ns| == 0 then held
    else LastInSlot(if ns[0] % 16 == held % 16 && ns[0] != FLAT then ns[0] else held, ns[1..])
  }

  /** The slot of `segno` as a lookup leaves it. */
  predicate Holds(k: Sys, segno: nat)
    requires Shape(k)
  {
    var c := k.cache[segno % 16];
    && c.seg == segno
    && match Direct(k, segno)
       case Found(d) => c == d
       case NoSegment(_) => c.flags == 0
  }

  lemma {:induction false} LookupHolds(k: Sys, segno: nat)
    requires Inv(k) && segno != FLAT
    ensures Holds(Lookup(k, segno).0, segno)
  {
    assert SlotOk(k, segno % 16);
  }

  lemma {:induction false} LookupsHold(k: Sys, segno: nat, ns: seq<nat>)
    requires Inv(k) && segno != FLAT && Holds(k, segno)
    ensures Inv(Lookups(k, ns)) && Holds(Lookups(k, ns), LastInSlot(segno, ns))
    decreases |ns|
  {
    if |ns| > 0 {
      LookupInv(k, ns[0]);
      var k1 := Lookup(k, ns[0]).0;
      var next := if ns[0] % 16 == segno % 16 && ns[0] != FLAT then ns[0] else segno;
      if next == ns[0] {
        LookupHolds(k, ns[0]);
      }
      assert SlotOk(k, segno % 16);
      LookupsHold(k1, next, ns[1..]);
    }
  }

  /** An address formed through a cache slot, after any series of lookups, means
      what it meant exactly when the last lookup that fell into its slot was for
      its own segment number; otherwise it has been retargeted to that other
      segment. */
  lemma {:induction false} HeldAddress(k: Sys, segno: nat, ns: seq<nat>)
    requires Inv(k) && segno != FLAT && Lookup(k, segno).1.Found?
    ensures var held := Lookup(k, segno).0;
            var k' := Lookups(held, ns);
            && (k'.cache[segno % 16] == held.cache[segno % 16] <==> LastInSlot(segno, ns) == segno)
            && k'.cache[segno % 16].seg == LastInSlot(segno, ns)
  {
    LookupIsDirect(k, segno);
    LookupInv(k, segno);
    LookupHolds(k, segno);
    LookupsHold(Lookup(k, segno).0, segno, ns);
  }

  /** ... in particular after one lookup, as JSR and PEA make one of a7 while they hold
      their operand's address. */
  lemma {:induction false} HeldAfterOne(k: Sys, segno: nat, other: nat)
    requires Inv(k) && segno != FLAT && Lookup(k, segno).1.Found?
    ensures var held := Lookup(k, segno).0;
            var k' := Lookup(held, other).0;
            && k'.cache[segno % 16].seg == Retargeted(segno, other)
            && (k'.cache[segno % 16] == held.cache[segno % 16] <==> Retargeted(segno, other) == segno)
  {
    var held := Lookup(k, segno).0;
    HeldAddress(k, segno, [other]);
    assert [other][1..] == [] && Lookups(held, [other]) == Lookups(Lookup(held, other).0, []);
    assert LastInSlot(segno, [other]) == Retargeted(segno, other);
  }

  /** One lookup of the segment sixteen further on retargets a held address. */
  lemma {:induction false} HeldRetargets(k: Sys, segno: nat)
    requires Inv(k) && segno != FLAT && segno + 16 != FLAT && Lookup(k, segno).1.Found?
    ensures var held := Lookup(k, segno).0;
            var k' := Lookups(held, [segno + 16]);
            k'.cache[segno % 16] != held.cache[segno % 16] && k'.cache[segno % 16].seg == segno + 16
  {
    HeldAfterOne(k, segno, segno + 16);
    assert [segno + 16][1..] == [];
    assert Lookups(Lookup(k, segno).0, [segno + 16]) == Lookups(Lookup(Lookup(k, segno).0, segno + 16).0, []);
  }

  // ----- end to end ----------------------------------------------------------------------------

  /** After any run, any lookup by the running process that succeeds and passes
      the access test, without wrapping, touches only bytes of the block of the
      segid its table maps there; and none of those bytes can be touched through
      any entry, of this or any other process, that names another segid. */
  lemma {:induction false} EndToEndIsolation(memSize: nat, ops: seq<Op>, segno: nat, addr: nat, n: nat, perm: nat,
                                             j: nat, aj: nat, nj: nat, pj: nat)
    requires memSize >= PAGE && Inv(Boot(memSize)) && Runs(Boot(memSize), ops)
    requires segno != FLAT && IsPerm(perm) && 0 < n && addr + n < P64
    requires var k := After(Boot(memSize), ops);
             var f := Lookup(k, segno).1;
             f.Found? && Passes(f.desc, addr, n, perm)
    requires var k := After(Boot(memSize), ops);
             j < |k.ents| && IsPerm(pj) && 0 < nj && aj + nj < P64 && Passes(Fetch(k.ents[j], 0), aj, nj, pj)
    ensures var k := After(Boot(memSize), ops);
            var c := Lookup(k, segno).1.desc;
            && k.cur.Some? && segno < k.len
            && var e := k.ents[Slot(k, segno)];
               var p := Phys(c, addr, n);
               var q := Phys(Fetch(k.ents[j], 0), aj, nj);
               && InBlock(k, e.base, p, n) && e.segid < |k.segs| && k.segs[e.segid].base == e.base
               && (k.ents[j].segid != e.segid ==> p + n <= q || q + nj <= p)
  {
    var k := After(Boot(memSize), ops);
    LookupIsDirect(k, segno);
    var i := Slot(k, segno);
    AccessInOwnBlock(k, i, segno, addr, n, perm);
    assert Passes(Fetch(k.ents[i], 0), addr, n, perm);
    if k.ents[j].segid != k.ents[i].segid {
      DistinctSegidsDisjoint(k, i, addr, n, perm, j, aj, nj, pj);
    }
  }

  /** Lookups in any interleaving with the other operations answer as the table
      does. */
  lemma {:induction false} CacheTransparent(memSize: nat, ops: seq<Op>, segno: nat)
    requires memSize >= PAGE && Inv(Boot(memSize)) && Runs(Boot(memSize), ops)
    ensures var k := After(Boot(memSize), ops); Lookup(k, segno).1 == Direct(k, segno)
  {
    LookupIsDirect(After(Boot(memSize), ops), segno);
  }
}
