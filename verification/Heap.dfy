/** The page heap of os.cc as a value: one cell per 4096-byte page. A positive
    cell heads a live block and holds its length, a negative cell points back
    to its head, and a zero cell is free. Page 0 is never available. */
module Heap {

  const PAGE: nat := 4096

  ghost predicate Cell(h: seq<int>, p: nat)
    requires p < |h|
  {
    && (h[p] > 0 ==> p + h[p] <= |h| && forall k :: p < k < p + h[p] ==> h[k] == 0 - p)
    && (h[p] < 0 ==> 0 < -h[p] < p && h[-h[p]] > 0 && p < -h[p] + h[-h[p]])
  }

  /** The heap tiles into live blocks and free cells. */
  ghost predicate Tiled(h: seq<int>) {
    && |h| >= 1
    && h[0] == 1
    && forall p :: 0 <= p < |h| ==> Cell(h, p)
  }

  /** The live blocks: head page to length in pages. */
  ghost function Blocks(h: seq<int>): map<int, int> {
    map p | 0 <= p < |h| && h[p] > 0 :: h[p]
  }

  function Pages(bytes: nat): nat {
    (bytes + PAGE - 1) / PAGE
  }

  /** One past the last cell in use. */
  ghost function LiveEnd(h: seq<int>): (e: nat)
    ensures e <= |h|
    ensures forall k :: e <= k < |h| ==> h[k] == 0
    ensures e > 0 ==> h[e - 1] != 0
  {
    if |h| == 0 then 0
    else if h[|h| - 1] != 0 then |h|
    else LiveEnd(h[..|h| - 1])
  }

  ghost predicate FreeRun(h: seq<int>, a: nat, n: nat) {
    a + n <= |h| && forall k :: a <= k < a + n ==> h[k] == 0
  }

  /** Some hole of `wants` pages lies below a live block. */
  ghost predicate InteriorHole(h: seq<int>, wants: nat) {
    exists a :: 1 <= a && a + wants <= LiveEnd(h) && FreeRun(h, a, wants)
  }

  /** Where the search of kmalloc settles: it discards an interior hole and then
      appends beyond the vector, even past free cells at the vector's end. */
  ghost function Place(h: seq<int>, wants: nat): nat {
    if InteriorHole(h, wants) then |h| else LiveEnd(h)
  }

  ghost function Placed(h: seq<int>, at: nat, wants: nat): seq<int> {
    seq(if at + wants > |h| then at + wants else |h|,
        i requires 0 <= i =>
          if i == at then wants
          else if at < i < at + wants then 0 - at
          else if i < |h| then h[i] else 0)
  }

  ghost predicate Fits(h: seq<int>, limit: nat, wants: nat) {
    Place(h, wants) + wants <= |h| || Place(h, wants) + wants <= limit
  }

  /** kmalloc: the new heap and the address, 0 when memory is exhausted. */
  ghost function Malloc(h: seq<int>, limit: nat, bytes: nat): (r: (seq<int>, nat)) {
    var wants := Pages(bytes);
    if Fits(h, limit, wants) then (Placed(h, Place(h, wants), wants), Place(h, wants) * PAGE)
    else (h, 0)
  }

  /** kfree: the new heap and whether the address was refused. */
  ghost function Free(h: seq<int>, addr: nat): (r: (seq<int>, bool))
    requires addr / PAGE < |h|
  {
    var page := addr / PAGE;
    if page == 0 || h[page] < 0 then (h, true)
    else (Cleared(h, page, h[page]), false)
  }

  ghost function Cleared(h: seq<int>, page: nat, n: nat): (r: seq<int>)
    ensures |r| == |h|
  {
    seq(|h|, i requires 0 <= i < |h| => if page <= i < page + n then 0 else h[i])
  }

  lemma {:induction false} BlocksDisjoint(h: seq<int>, p: nat, q: nat)
    requires Tiled(h) && p < q < |h| && h[p] > 0 && h[q] > 0
    ensures p + h[p] <= q
  {
    assert Cell(h, p);
  }

  /** Every live block ends at or before the first cell kmalloc may use. */
  lemma {:induction false} BlocksBelow(h: seq<int>, p: nat)
    requires Tiled(h) && p < |h| && h[p] > 0
    ensures p + h[p] <= LiveEnd(h)
  {
    assert Cell(h, p);
    var last := p + h[p] - 1;
    assert h[last] != 0;
  }

  lemma {:induction false} PagesCover(bytes: nat)
    requires bytes > 0
    ensures Pages(bytes) >= 1 && bytes <= Pages(bytes) * PAGE < bytes + PAGE
  {
  }

  /** Writing a block of `wants` pages above every live block. */
  lemma {:induction false} PlacedTiles(h: seq<int>, at: nat, wants: nat)
    requires Tiled(h) && LiveEnd(h) <= at <= |h| && at >= 1 && wants >= 1
    ensures Tiled(Placed(h, at, wants))
    ensures Blocks(Placed(h, at, wants)) == Blocks(h)[at := wants]
    ensures at !in Blocks(h)
  {
    var h' := Placed(h, at, wants);
    assert h'[0] == 1;
    forall p | 0 <= p < |h'|
      ensures Cell(h', p)
    {
      if p < at {
        PlacedKeeps(h, at, wants, p);
      } else if p < at + wants {
        assert h'[p] == if p == at then wants else 0 - at;
      } else {
        assert h'[p] == 0;
      }
    }
    assert Blocks(h') == Blocks(h)[at := wants];
  }

  lemma {:induction false} PlacedKeeps(h: seq<int>, at: nat, wants: nat, p: nat)
    requires Tiled(h) && LiveEnd(h) <= at <= |h| && p < at
    ensures Cell(Placed(h, at, wants), p)
  {
    var h' := Placed(h, at, wants);
    assert Cell(h, p) && h'[p] == h[p];
    if h[p] > 0 {
      BlocksBelow(h, p);
    }
  }

  /** A successful kmalloc adds exactly one block of the wanted length, above
      every live block, inside memory and never on page 0; the tiling is kept. */
  lemma {:induction false} MallocAddsBlock(h: seq<int>, limit: nat, bytes: nat)
    requires Tiled(h) && |h| <= limit && bytes > 0
    ensures var (h', addr) := Malloc(h, limit, bytes);
            var page := addr / PAGE;
            && (addr == 0 ==> h' == h)
            && (addr != 0 ==>
                  && addr == page * PAGE && page >= 1
                  && page !in Blocks(h)
                  && Blocks(h') == Blocks(h)[page := Pages(bytes)]
                  && (forall q :: q in Blocks(h) ==> q + Blocks(h)[q] <= page)
                  && page + Pages(bytes) <= |h'| <= limit)
            && Tiled(h')
  {
    var wants := Pages(bytes);
    PagesCover(bytes);
    if Fits(h, limit, wants) {
      var at := Place(h, wants);
      BlocksBelow(h, 0);
      PlacedTiles(h, at, wants);
      forall q | q in Blocks(h)
        ensures q + Blocks(h)[q] <= at
      {
        BlocksBelow(h, q);
      }
      assert (at * PAGE) / PAGE == at;
    }
  }

  /** kmalloc fails exactly when the place its search settles on has no room
      below the end of memory. */
  lemma {:induction false} MallocFailsExactly(h: seq<int>, limit: nat, bytes: nat)
    requires Tiled(h) && |h| <= limit && bytes > 0
    ensures Malloc(h, limit, bytes).1 == 0 <==> Place(h, Pages(bytes)) + Pages(bytes) > limit
  {
    PagesCover(bytes);
    BlocksBelow(h, 0);
  }

  /** The search is not first fit, and may even fail with a hole that fits. */
  lemma {:induction false} HoleIgnored()
    ensures var h := [1, 0, 1];
            Tiled(h) && FreeRun(h, 1, 1) && Malloc(h, 3, PAGE).1 == 0 && Malloc(h, 4, PAGE).1 == 3 * PAGE
  {
    var h := [1, 0, 1];
    assert FreeRun(h, 1, 1);
    assert LiveEnd(h) == 3;
    assert InteriorHole(h, 1);
  }

  /** kfree of a head removes exactly that block and keeps the tiling. */
  lemma {:induction false} FreeRemovesBlock(h: seq<int>, addr: nat)
    requires Tiled(h) && addr / PAGE in Blocks(h) && addr / PAGE != 0
    ensures var (h', refused) := Free(h, addr);
            && !refused && |h'| == |h| && Tiled(h')
            && Blocks(h') == Blocks(h) - {addr / PAGE}
  {
    var page := addr / PAGE;
    assert Cell(h, page);
    var h' := Free(h, addr).0;
    forall p | 0 <= p < |h'|
      ensures Cell(h', p)
    {
      assert Cell(h, p);
      if h'[p] > 0 && p < page {
        BlocksDisjoint(h, p, page);
      } else if h'[p] < 0 {
        assert -h[p] != page;
        if page < -h[p] {
          BlocksDisjoint(h, page, -h[p]);
        }
      }
    }
    assert Blocks(h') == Blocks(h) - {page};
  }

  /** kfree of anything else changes nothing. */
  lemma {:induction false} FreeElsewhere(h: seq<int>, addr: nat)
    requires Tiled(h) && addr / PAGE < |h| && (addr / PAGE !in Blocks(h) || addr / PAGE == 0)
    ensures Free(h, addr).0 == h
  {
  }
}
