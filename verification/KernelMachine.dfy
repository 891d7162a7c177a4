/** The memory manager as os.cc and cpu.cc run it: vectors, tables in byte memory
    and a cache array, all changed in place. Each method is tied to the
    corresponding function of module Kernel on the abstract state `Abs()`. */
module KernelMachine {
  import opened Codec
  import opened Heap
  import opened Kernel
  import opened KernelInv
  import opened KernelRun
  import opened Isolation
  import opened Memory
  import opened LoadCopy
  import Cpu
  import Stack
  import Context

  /** How a store ends; `BeforeMemory` is one that the tests let through to a place
      outside the host's array. */
  datatype Stored = Stored | FaultSegment | FaultPerm | FaultAccess | BeforeMemory

  /** The tests of CPU::addr and Addr::access in user mode, in their order. */
  function StoreTest(f: Found, addr: nat, n: nat): Stored {
    if f.NoSegment? || addr > f.desc.len then FaultSegment
    else if Bit(f.desc.flags, SUPER) then FaultPerm
    else if (addr + n) % P64 > f.desc.len then FaultSegment
    else if !Bit(f.desc.flags, WRITE) then FaultAccess
    else Stored.Stored
  }

  /** How a store of `bytes` ends, given what the table says of its segment. */
  ghost predicate StoreEnds(f: Found, addr: nat, bytes: seq<Byte>, r: Stored, m: seq<Byte>, m': seq<Byte>) {
    if StoreTest(f, addr, |bytes|) != Stored.Stored then r == StoreTest(f, addr, |bytes|) && m' == m
    else
      var p := Phys(f.desc, addr, |bytes|);
      if p < 0 then r == BeforeMemory && m' == m
      else r == Stored.Stored && p + |bytes| <= |m| && m' == Splice(m, p, bytes)
  }

  class Machine {
    const mem: array<Byte>
    var heap: seq<int>
    var segs: seq<SegRec>
    var loaded: map<nat, Loaded>
    var segmap: nat
    var segmapLen: nat
    const scache: array<CSeg>

    // the process areas ever created, their addresses, and the current one
    ghost var uareas: seq<nat>
    ghost var bases: seq<nat>
    ghost var cur: Option<nat>

    ghost predicate Laid()
      reads this, mem, scache
    {
      && scache.Length == 16 && mem.Length <= P36 && |segs| <= P36
      && |bases| == |uareas| && Inside(bases, mem.Length)
      && (forall j :: 0 <= j < |bases| ==> uareas[j] < |segs| && segs[uareas[j]].base == bases[j])
      && (cur.None? ==> segmap == 0)
      && (cur.Some? ==> cur.value < |bases| && segmap == bases[cur.value] && segmap > 0)
    }

    ghost function Abs(): Sys
      reads this, mem, scache
      requires Laid()
    {
      Sys(mem.Length, heap, segs, loaded, uareas, Tables(mem[..], bases), cur, segmapLen, scache[..])
    }

    ghost predicate Valid()
      reads this, mem, scache
    {
      Laid() && Inv(Abs())
    }

    /** Power-on over a memory of at least one page. */
    constructor (memory: array<Byte>)
      requires PAGE <= memory.Length <= P36
      ensures Valid() && mem == memory && fresh(scache) && Abs() == Boot(memory.Length)
    {
      mem, heap, segs, loaded, segmap, segmapLen := memory, [1], [], map[], 0, 0;
      uareas, bases, cur := [], [], None;
      scache := new CSeg[16](_ => CSeg(0, 0, 0, 0));
      new;
      BootInv(memory.Length);
      assert scache[..] == Boot(memory.Length).cache;
    }

    /** CPU::reset, as far as the table is concerned. */
    method Restart()
      requires Valid()
      modifies this`segmap, this`segmapLen, this`cur, scache
      ensures Valid() && Abs() == Reset(old(Abs()))
    {
      RestartInv(Abs());
      segmap, segmapLen, cur := 0, 0, None;
      InvalidateCache();
    }

    /** The process areas are disjoint pages inside memory. */
    ghost predicate Spread()
      reads this, mem
    {
      SpreadIn(bases, mem.Length)
    }

    // ----- memory ----------------------------------------------------------------------

    function GetWord(p: nat): (n: nat)
      reads mem
      requires p + 2 <= mem.Length
      ensures n == Uw(mem[..], p)
    {
      mem[p] * P9 + mem[p + 1]
    }

    function GetLong(p: nat): (n: nat)
      reads mem
      requires p + 4 <= mem.Length
      ensures n == Ul(mem[..], p)
    {
      GetWord(p) + GetWord(p + 2) * P18
    }

    method PutWord(p: nat, n: nat)
      requires p + 2 <= mem.Length
      modifies mem
      ensures mem[..] == Splice(old(mem[..]), p, WordBytes(n))
    {
      mem[p] := (n / P9) % P9;
      mem[p + 1] := n % P9;
    }

    method PutLong(p: nat, n: nat)
      requires p + 4 <= mem.Length
      modifies mem
      ensures mem[..] == Splice(old(mem[..]), p, LongBytes(n))
    {
      PutWord(p, n);
      PutWord(p + 2, n / P18);
    }

    method PutDesc(p: nat, base: nat, size: nat, flags: nat, segid: nat)
      requires p + DESC <= mem.Length
      modifies mem
      ensures OnlyAt(old(mem[..]), mem[..], p, DESC)
      ensures DescAt(mem[..], p) == Desc(base % P36, size % P36, flags % P18, segid % P36)
    {
      Filled(mem[..], p, base, size, flags, segid);
      PutLong(p, base);
      PutLong(p + 4, size);
      PutWord(p + 8, flags);
      PutLong(p + 12, segid);
    }

    method EmptyDesc(p: nat)
      requires p + DESC <= mem.Length
      modifies mem
      ensures OnlyAt(old(mem[..]), mem[..], p, DESC)
      ensures DescAt(mem[..], p) == DescAt(old(mem[..]), p).(size := 0, flags := 0)
    {
      Emptied(mem[..], p);
      PutLong(p + 4, 0);
      PutWord(p + 8, 0);
    }

    method CopyDesc(p: nat, q: nat)
      requires p + DESC <= mem.Length && q + DESC <= mem.Length && (p + DESC <= q || q + DESC <= p)
      modifies mem
      ensures OnlyAt(old(mem[..]), mem[..], q, DESC) && DescAt(mem[..], q) == DescAt(old(mem[..]), p)
    {
      CopyRun(q, mem[p..p + DESC]);
      SameDesc(mem[..], old(mem[..]), q, p);
    }

    // ----- the page heap -------------------------------------------------------------------

    /** The search loop of kmalloc: a free run and its length. */
    method FindPages(wants: nat) returns (pfree: nat, nfree: nat)
      requires Tiled(heap) && wants >= 1
      ensures Place(heap, wants) == if pfree + nfree == |heap| then pfree else |heap|
      ensures pfree + nfree <= |heap| && (nfree > 0 ==> pfree >= 1)
      ensures pfree + nfree == |heap| ==> nfree > 0
    {
      var max, p := |heap|, 1;
      pfree, nfree := 0, 0;
      BlocksBelow(heap, 0);
      if 1 < max && heap[1] < 0 {
        BackPointer(heap, 1);
      }
      while p < max && nfree < wants
        invariant 1 <= p <= max
        invariant nfree == 0 ==> heap[p - 1] != 0 && pfree < p && (p < max ==> heap[p] >= 0)
        invariant nfree > 0 ==> 1 <= pfree && pfree + nfree == p && FreeRun(heap, pfree, nfree) && heap[pfree - 1] != 0
        invariant nfree > 0 ==> p == max || heap[p] > 0
        invariant NoHole(heap, if nfree < wants then p else pfree, wants)
      {
        if heap[p] > 0 {
          NoHoleOver(heap, p, wants);
          EndOfBlock(heap, p);
          p := p + heap[p];
          nfree := 0;
          continue;
        }
        pfree := p;
        while p < max && heap[p] == 0
          invariant 1 <= pfree <= p <= max && nfree == p - pfree
          invariant FreeRun(heap, pfree, nfree)
        {
          p, nfree := p + 1, nfree + 1;
        }
        if p < max {
          NotNegative(heap, p);
        }
        NoHoleRun(heap, pfree, nfree, wants);
      }
      Settles(heap, wants, pfree, nfree, p);
    }

    method Kmalloc(bytes: nat) returns (addr: nat)
      requires SizeOk(bytes) && Tiled(heap) && |heap| <= mem.Length / PAGE
      modifies this`heap
      ensures (heap, addr) == Malloc(old(heap), mem.Length / PAGE, bytes)
    {
      var wants := (bytes + PAGE - 1) / PAGE;
      PagesCover(bytes);
      BlocksBelow(heap, 0);
      var pfree, nfree := FindPages(wants);
      if pfree + nfree != |heap| {
        pfree, nfree := |heap|, 0;
      }
      if nfree < wants {
        if pfree + wants > mem.Length / PAGE {
          return 0;
        }
        heap := heap + seq(pfree + wants - |heap|, _ => 0);
      }
      var p := pfree + 1;
      ghost var grown := heap;
      while p < pfree + wants
        invariant pfree + 1 <= p <= pfree + wants <= |heap| == |grown|
        invariant forall i :: 0 <= i < |heap| ==> heap[i] == if pfree < i < p then 0 - pfree else grown[i]
      {
        heap := heap[p := 0 - pfree];
        p := p + 1;
      }
      heap := heap[pfree := wants];
      assert heap == Placed(old(heap), pfree, wants);
      return pfree * PAGE;
    }

    method Kfree(addr: nat) returns (refused: bool)
      requires addr / PAGE < |heap| && Tiled(heap)
      modifies this`heap
      ensures (heap, refused) == Free(old(heap), addr)
    {
      var page := addr / PAGE;
      if page == 0 {
        return true;
      }
      var size := heap[page];
      if size < 0 {
        return true;
      }
      assert Cell(heap, page);
      ghost var head := page;
      while size > 0
        invariant 0 <= size && page + size == head + old(heap)[head] <= |heap| == |old(heap)| && head <= page
        invariant forall i :: 0 <= i < |heap| ==> heap[i] == if head <= i < page then 0 else old(heap)[i]
      {
        heap := heap[page := 0];
        page, size := page + 1, size - 1;
      }
      assert heap == Cleared(old(heap), head, old(heap)[head]);
      return false;
    }

    // ----- segments -----------------------------------------------------------------------------

    /** None stands for the thrown ENOMEM. The host vector is taken to hold fewer
        than 2^36 segments, what a descriptor can name. */
    method Salloc(size: nat) returns (sid: Option<nat>)
      requires Laid() && Steady(Abs()) && |heap| <= mem.Length / PAGE && SizeOk(size) && |segs| < P36
      modifies this`heap, this`segs
      ensures Laid() && (Abs(), sid) == Kernel.Salloc(old(Abs()), size)
    {
      var base := Kmalloc(size);
      if base == 0 {
        return None;
      }
      segs := segs + [SegRec(0, base, size, 0, 0)];
      return Some(|segs| - 1);
    }

    method Sfree(sid: nat)
      requires Laid() && Steady(Abs()) && sid !in uareas
      modifies this`heap, this`segs, this`loaded
      ensures Laid() && Abs() == Kernel.Sfree(old(Abs()), sid)
    {
      if sid >= |segs| {
        return;
      }
      var s := segs[sid];
      if s.ino != 0 {
        var refs := loaded[s.ino].refs - 1;
        if refs == 0 {
          loaded := loaded - {s.ino};
        } else {
          loaded := loaded[s.ino := loaded[s.ino].(refs := refs)];
        }
      }
      var _ := Kfree(s.base);
      segs := segs[sid := s.(base := 0, size := 0, ino := 0)];
    }

    // ----- the descriptor cache -----------------------------------------------------------------------

    method InvalidateCache()
      requires Laid()
      modifies scache
      ensures Laid() && Abs() == Invalidate(old(Abs()))
    {
      for i := 0 to 16
        invariant forall x :: 0 <= x < 16 ==>
                    scache[x] == if x < i then old(scache[x]).(flags := 0) else old(scache[x])
      {
        scache[i] := scache[i].(flags := 0);
      }
    }

    /** The descriptor of the current table, read from memory. */
    function FetchEntry(segno: nat): (c: CSeg)
      requires Laid() && cur.Some? && segno < SLOTS
      reads this, mem, scache
      ensures SLOTS * cur.value + segno < |Abs().ents|
      ensures c == Fetch(Abs().ents[SLOTS * cur.value + segno], segno)
    {
      TablesAt(mem[..], bases, cur.value, segno);
      var p := segmap + DESC * segno;
      CSeg(segno, GetWord(p + 8), GetLong(p + 4), GetLong(p))
    }

    function EntrySegid(segno: nat): (sid: nat)
      requires Laid() && cur.Some? && segno < SLOTS
      reads this, mem, scache
      ensures SLOTS * cur.value + segno < |Abs().ents|
      ensures sid == Abs().ents[SLOTS * cur.value + segno].segid
    {
      TablesAt(mem[..], bases, cur.value, segno);
      GetLong(segmap + DESC * segno + 12)
    }

    /** CPU::seg. */
    method Seg(segno: nat) returns (found: Found)
      requires Laid() && Shape(Abs())
      modifies scache
      ensures Laid() && (Abs(), found) == Lookup(old(Abs()), segno)
    {
      if segno == FLAT {
        return Found(CSeg(FLAT, VALID + SUPER + READ + WRITE + EXEC, mem.Length, 0));
      }
      var i := segno % 16;
      var s := scache[i];
      if !Bit(s.flags, VALID) || s.seg != segno {
        if segmap == 0 || segno >= segmapLen {
          scache[i] := s.(seg := segno, flags := 0);
          return NoSegment(segno);
        }
        var c := FetchEntry(segno);
        scache[i] := c;
        return Found(c);
      }
      return Found(s);
    }

    // ----- the current table ------------------------------------------------------------------------------

    /** The address of an entry of the current table. */
    function EntryAt(segno: nat): (p: nat)
      reads this
    {
      segmap + DESC * segno
    }

    /** Memory apart from the current table. */
    ghost function Beside(): (r: seq<Byte>)
      reads this, mem
    {
      Masked(mem[..], segmap)
    }

    /** Drop one reference. */
    method Unref(sid: nat)
      requires Laid() && Sane(Abs()) && sid < |segs| && sid !in uareas && segs[sid].refs > 0
      modifies this`heap, this`segs, this`loaded
      ensures Laid() && Abs() == Release(old(Abs()), sid)
    {
      var refs := segs[sid].refs - 1;
      segs := segs[sid := segs[sid].(refs := refs)];
      if refs == 0 {
        Sfree(sid);
      }
    }

    /** Clear size and flags of an entry. */
    method ClearEntry(segno: nat)
      requires Laid() && Spread() && cur.Some? && segno < SLOTS
      modifies mem
      ensures Laid() && OnlyAt(old(mem[..]), mem[..], EntryAt(segno), DESC)
      ensures SLOTS * cur.value + segno < |old(Abs()).ents|
      ensures var k, j := old(Abs()), SLOTS * cur.value + segno;
              Abs() == k.(ents := k.ents[j := k.ents[j].(size := 0, flags := 0)])
    {
      ghost var m := mem[..];
      EmptyDesc(segmap + DESC * segno);
      EntryBecomes(m, mem[..], bases, cur.value, segno);
    }

    /** The four stores of a mapping. */
    method FillEntry(segno: nat, s: SegRec, sid: nat)
      requires Laid() && Spread() && cur.Some? && segno < SLOTS
      requires s.base < P36 && s.size < P36 && sid < P36
      modifies mem
      ensures Laid() && OnlyAt(old(mem[..]), mem[..], EntryAt(segno), DESC)
      ensures SLOTS * cur.value + segno < |old(Abs()).ents|
      ensures var k, j := old(Abs()), SLOTS * cur.value + segno;
              Abs() == k.(ents := k.ents[j := Mapping(s, sid)])
    {
      ghost var m := mem[..];
      var p := segmap + DESC * segno;
      var flags := SetBit(s.flags, VALID);
      assert Desc(s.base % P36, s.size % P36, flags % P18, sid % P36) == Mapping(s, sid);
      PutDesc(p, s.base, s.size, flags, sid);
      EntryBecomes(m, mem[..], bases, cur.value, segno);
    }

    /** Overwrite the flags of an entry. */
    method FlagEntry(segno: nat, flags: nat)
      requires Laid() && Spread() && cur.Some? && segno < SLOTS && flags < P18
      modifies mem
      ensures Laid() && OnlyAt(old(mem[..]), mem[..], EntryAt(segno), DESC)
      ensures SLOTS * cur.value + segno < |old(Abs()).ents|
      ensures var k, j := old(Abs()), SLOTS * cur.value + segno;
              Abs() == k.(ents := k.ents[j := k.ents[j].(flags := flags)])
    {
      FlagsBecome(mem[..], bases, cur.value, segno, flags);
      PutWord(segmap + DESC * segno + 8, flags);
    }

    /** munmap: the entry is emptied and its reference dropped. */
    method Munmap(segno: nat) returns (err: Errno)
      requires Laid() && Spread() && Sane(Abs())
      modifies this`heap, this`segs, this`loaded, mem, scache
      ensures Laid() && (Abs(), err) == Kernel.Munmap(old(Abs()), segno)
      ensures err != Done ==> mem[..] == old(mem[..])
      ensures err == Done ==> OnlyAt(old(mem[..]), mem[..], EntryAt(segno), DESC)
    {
      if segmap == 0 || segno >= segmapLen {
        return ENOMEM;
      }
      var e := FetchEntry(segno);
      if Bit(e.flags, VALID) {
        DropEntry(segno);
      }
      return Done;
    }

    /** munmap of an entry in use. */
    method DropEntry(segno: nat)
      requires Laid() && Spread() && Sane(Abs()) && cur.Some? && segno < segmapLen
      requires Kernel.Valid(Abs().ents[Slot(Abs(), segno)])
      modifies this`heap, this`segs, this`loaded, mem, scache
      ensures Laid() && (Abs(), Done) == Kernel.Munmap(old(Abs()), segno)
      ensures OnlyAt(old(mem[..]), mem[..], EntryAt(segno), DESC)
    {
      ghost var k := Abs();
      var sid := EntrySegid(segno);
      assert LiveName(k, sid);
      Unref(sid);
      MunmapUnfold(k, segno, Abs());
      ClearEntry(segno);
      InvalidateCache();
    }

    /** munmap in a state that satisfies the invariant. */
    method Unmap(segno: nat) returns (err: Errno)
      requires Valid()
      modifies this`heap, this`segs, this`loaded, mem, scache
      ensures Valid() && (Abs(), err) == Kernel.Munmap(old(Abs()), segno)
      ensures err != Done ==> mem[..] == old(mem[..])
      ensures err == Done ==> OnlyAt(old(mem[..]), mem[..], EntryAt(segno), DESC)
      ensures Beside() == old(Beside())
    {
      ghost var k, m := Abs(), mem[..];
      assert Spread() by { AreasApart(k, bases); }
      assert Sane(k) by { InvSane(k); }
      err := Munmap(segno);
      if err == Done {
        EntryMasked(m, mem[..], segmap, segno);
      }
      assert Inv(Abs()) by { MunmapInv(k, segno); }
    }

    /** mmap: the old mapping goes, the new one takes a reference. */
    method Mmap(sid: nat, segno: nat) returns (err: Errno)
      requires Laid() && Spread() && Sane(Abs()) && sid !in uareas
      modifies this`heap, this`segs, this`loaded, mem, scache
      ensures Laid() && (Abs(), err) == Kernel.Mmap(old(Abs()), sid, segno)
      ensures Beside() == old(Beside())
    {
      ghost var k := Abs();
      if segmap == 0 || segno >= segmapLen || sid >= |segs| {
        return ENOMEM;
      }
      var e := FetchEntry(segno);
      if Bit(e.flags, VALID) && segno == 4 {
        return EPERM;
      }
      Vacate(segno, sid);
      MmapUnfold(k, sid, segno, Abs());
      Attach(segno, sid);
      return Done;
    }

    /** mmap over an entry in use unmaps it first. */
    method Vacate(segno: nat, sid: nat)
      requires Laid() && Spread() && Sane(Abs()) && cur.Some? && segno < segmapLen && sid < |segs|
      modifies this`heap, this`segs, this`loaded, mem, scache
      ensures Laid() && Spread()
      ensures var k := old(Abs());
              Abs() == if Kernel.Valid(k.ents[Slot(k, segno)]) then Kernel.Munmap(k, segno).0 else k
      ensures Shape(Abs()) && sid < |segs| && segs[sid].base < P36 && segs[sid].size < P36
      ensures Beside() == old(Beside())
    {
      ghost var k, m := Abs(), mem[..];
      var e := FetchEntry(segno);
      if Bit(e.flags, VALID) {
        DropEntry(segno);
        EntryMasked(m, mem[..], segmap, segno);
        MunmapShrinks(k, segno, sid);
      }
    }

    /** mmap in a state that satisfies the invariant. */
    method Map(sid: nat, segno: nat) returns (err: Errno)
      requires Valid() && sid !in uareas
      modifies this`heap, this`segs, this`loaded, mem, scache
      ensures Valid() && (Abs(), err) == Kernel.Mmap(old(Abs()), sid, segno)
      ensures Beside() == old(Beside())
    {
      ghost var k := Abs();
      assert Spread() by { AreasApart(k, bases); }
      assert Sane(k) by { InvSane(k); }
      err := Mmap(sid, segno);
      assert Inv(Abs()) by { MmapInv(k, sid, segno); }
    }

    /** Point an entry at a segid and count the reference. */
    method Attach(segno: nat, sid: nat)
      requires Laid() && Spread() && Shape(Abs()) && cur.Some? && segno < segmapLen && sid < |segs|
      requires segs[sid].base < P36 && segs[sid].size < P36
      modifies this`segs, mem, scache
      ensures Laid() && Abs() == Install(old(Abs()), sid, segno)
      ensures Beside() == old(Beside())
    {
      ghost var m := mem[..];
      segs := segs[sid := segs[sid].(refs := segs[sid].refs + 1)];
      FillEntry(segno, segs[sid], sid);
      EntryMasked(m, mem[..], segmap, segno);
      InvalidateCache();
    }

    /** freesegs: the loop over the table, sparing slot 4 unless asked not to. */
    method Freesegs(everything: bool)
      requires Valid()
      modifies this`heap, this`segs, this`loaded, mem, scache
      ensures Valid() && Abs() == FreeSegs(old(Abs()), everything, 0)
      ensures Beside() == old(Beside())
    {
      if segmap == 0 {
        return;
      }
      var i := 0;
      while i < segmapLen
        invariant Valid() && i <= segmapLen
        invariant FreeSegs(old(Abs()), everything, 0) == FreeSegs(Abs(), everything, i)
        invariant Beside() == old(Beside())
      {
        if everything || i != 4 {
          var _ := Unmap(i);
        }
        i := i + 1;
      }
    }

    // ----- load -------------------------------------------------------------------------------------

    method CopyRun(p: nat, bytes: seq<Byte>)
      requires p + |bytes| <= mem.Length
      modifies mem
      ensures mem[..] == Splice(old(mem[..]), p, bytes)
    {
      for i := 0 to |bytes|
        invariant forall x :: 0 <= x < mem.Length ==>
                    mem[x] == if p <= x < p + i then bytes[x - p] else old(mem[..])[x]
      {
        mem[p + i] := bytes[i];
      }
    }

    /** The copying loop of load. */
    method CopyData(base: nat, data: seq<(nat, seq<Byte>)>)
      requires RunsFit(data, mem.Length - base)
      modifies mem
      ensures mem[..] == Overlay(old(mem[..]), base, data)
    {
      var i := 0;
      while i < |data|
        invariant i <= |data| && RunsFit(data[i..], mem.Length - base)
        invariant Overlay(old(mem[..]), base, data) == Overlay(mem[..], base, data[i..])
      {
        OverlayNext(mem[..], base, data, i);
        CopyRun(base + data[i].0, data[i].1);
        i := i + 1;
      }
    }

    /** Allocate a segment and copy its data, to wherever its offsets lead. */
    method AllocateFilled(size: nat, data: seq<(nat, seq<Byte>)>) returns (sid: Option<nat>)
      requires Valid() && SizeOk(size) && |segs| < P36
      requires var (k, s) := Kernel.Salloc(Abs(), size);
               s.Some? ==> RunsFit(data, mem.Length - k.segs[s.value].base)
      modifies this`heap, this`segs, mem
      ensures Laid() && (Abs(), sid) == Kernel.Salloc(old(Abs()), size)
      ensures sid.None? ==> mem[..] == old(mem[..])
      ensures sid.Some? ==>
                sid.value < |segs| && var base := segs[sid.value].base;
                RunsFit(data, mem.Length - base) && mem[..] == Overlay(old(mem[..]), base, data)
    {
      ghost var k, m := Abs(), mem[..];
      assert Sane(k) by { InvSane(k); }
      sid := Salloc(size);
      if sid.None? {
        return;
      }
      CopyData(segs[sid.value].base, data);
      OverlayAbove(m, k, size, data, bases);
    }

    /** Allocate, fill and label the segment of one object segment. */
    method LoadOne(ino: nat, o: ObjSeg) returns (err: Errno)
      requires Valid() && ino in loaded && SizeOk(o.size) && CopyInside(Abs(), ino, o) && |segs| < P36
      modifies this`heap, this`segs, this`loaded, mem
      ensures Laid() && (Abs(), err) == LoadSeg(old(Abs()), ino, o)
      ensures err != Done ==> mem[..] == old(mem[..])
      ensures err == Done ==>
                |segs| == |old(segs)| + 1 && var base := segs[|segs| - 1].base;
                RunsFit(o.data, mem.Length - base) && mem[..] == Overlay(old(mem[..]), base, o.data)
    {
      ghost var k := Abs();
      var sid := AllocateFilled(o.size, o.data);
      if sid.None? {
        return ENOMEM;
      }
      ghost var k1 := Abs();
      Label(sid.value, ino, o);
      LoadSegUnfold(k, ino, o, k1, sid.value);
      return Done;
    }

    /** Record that a segment belongs to an object. */
    method Label(sid: nat, ino: nat, o: ObjSeg)
      requires Laid() && ino in loaded && sid < |segs|
      modifies this`segs, this`loaded
      ensures Laid() && |segs| == |old(segs)| && segs[sid].base == old(segs)[sid].base
      ensures Abs() == Labelled(old(Abs()), ino, o, sid)
    {
      var lo := loaded[ino];
      segs := segs[sid := segs[sid].(ino := ino, flags := SetBit(o.flags, VALID))];
      loaded := loaded[ino := Loaded(lo.refs + 1, Emplace(lo.segs, o.segno, sid))];
    }

    /** One round of the allocation loop. */
    method LoadNext(ino: nat, o: ObjSeg) returns (err: Errno)
      requires Valid() && ino in loaded && (o.size > 0 ==> SizeOk(o.size)) && CopyInside(Abs(), ino, o) && |segs| < P36
      modifies this`heap, this`segs, this`loaded, mem
      ensures Valid() && (Abs(), err) == LoadSeg(old(Abs()), ino, o)
      ensures mem[..] == SegBytes(old(mem[..]), old(Abs()), ino, o) && |segs| <= |old(segs)| + 1
    {
      ghost var k := Abs();
      if o.size > 0 {
        err := LoadOne(ino, o);
        assert Abs() == LoadSeg(k, ino, o).0;
        assert Inv(Abs()) by { LoadSegInv(k, ino, o); }
      } else {
        err := Done;
      }
    }

    method LoadLoop(ino: nat, osegs: seq<ObjSeg>) returns (err: Errno)
      requires Valid() && ino in loaded && ObjOk(osegs) && CopiesInside(Abs(), ino, osegs) && |segs| + |osegs| <= P36
      modifies this`heap, this`segs, this`loaded, mem
      ensures Valid() && (Abs(), err) == LoadSegs(old(Abs()), ino, osegs)
      ensures mem[..] == LoadBytes(old(mem[..]), old(Abs()), ino, osegs)
      ensures |segs| <= |old(segs)| + |osegs|
    {
      var i := 0;
      ghost var goal, image := LoadSegs(Abs(), ino, osegs), LoadBytes(mem[..], Abs(), ino, osegs);
      while i < |osegs|
        invariant Valid() && ino in loaded && i <= |osegs| && |segs| <= |old(segs)| + i
        invariant CopiesInside(Abs(), ino, osegs[i..])
        invariant goal == LoadSegs(Abs(), ino, osegs[i..]) && image == LoadBytes(mem[..], Abs(), ino, osegs[i..])
      {
        assert osegs[i..][0] == osegs[i] && osegs[i..][1..] == osegs[i + 1..];
        err := LoadNext(ino, osegs[i]);
        if err != Done {
          return;
        }
        i := i + 1;
      }
      return Done;
    }

    /** load, given the inode and the parsed object. */
    method LoadObject(ino: nat, osegs: seq<ObjSeg>) returns (err: Errno)
      requires Valid() && ino != 0 && ObjOk(osegs) && LoadInside(Abs(), ino, osegs) && |segs| + |osegs| <= P36
      modifies this`heap, this`segs, this`loaded, mem
      ensures Valid() && (Abs(), err) == Load(old(Abs()), ino, osegs)
      ensures mem[..] == LoadMem(old(mem[..]), old(Abs()), ino, osegs)
      ensures |segs| <= |old(segs)| + |osegs|
    {
      ghost var k := Abs();
      if ino in loaded {
        return Done;
      }
      loaded := loaded[ino := Loaded(0, [])];
      assert Inv(Abs()) by { LoadKeepsInv(k, ino, []); }
      err := LoadLoop(ino, osegs);
    }

    // ----- exec ------------------------------------------------------------------------------------------

    /** salloc in a state that satisfies the invariant. */
    method Allocate(size: nat) returns (sid: Option<nat>)
      requires Valid() && SizeOk(size) && |segs| < P36
      modifies this`heap, this`segs
      ensures Valid() && (Abs(), sid) == Kernel.Salloc(old(Abs()), size)
    {
      ghost var k := Abs();
      assert Sane(k) by { InvSane(k); }
      sid := Salloc(size);
      assert Inv(Abs()) by { SallocInv(k, size); }
    }

    /** A fresh stack page in slot 0. */
    method NewStack() returns (err: Errno)
      requires Valid() && cur.Some? && segmapLen >= 5 && |segs| < P36
      modifies this`heap, this`segs, this`loaded, mem, scache
      ensures Valid() && (Abs(), err) == MapStack(old(Abs())) && |segs| <= |old(segs)| + 1
      ensures Beside() == old(Beside())
    {
      ghost var k := Abs();
      var sid := Allocate(PAGE);
      if sid.None? {
        return ENOMEM;
      }
      assert sid.value !in uareas;
      err := Map(sid.value, 0);
      if err == Done {
        UnmarkStack();
        assert Abs() == MapStack(k).0;
        assert Inv(Abs()) by { MapStackInv(k); }
      }
    }

    method UnmarkStack()
      requires Valid() && cur.Some? && segmapLen >= 5
      modifies mem
      ensures Laid() && Beside() == old(Beside())
      ensures var k := old(Abs());
              0 < k.len && Abs() == k.(ents := k.ents[Slot(k, 0) := k.ents[Slot(k, 0)].(flags := READ + WRITE)])
    {
      ghost var m := mem[..];
      assert Spread() by { AreasApart(Abs(), bases); }
      FlagEntry(0, READ + WRITE);
      EntryMasked(m, mem[..], segmap, 0);
    }

    /** exec's last loop: map every segment of the object. */
    method MapObject(ms: seq<(nat, nat)>) returns (err: Errno)
      requires Valid() && forall p :: p in ms ==> p.1 !in uareas
      modifies this`heap, this`segs, this`loaded, mem, scache
      ensures Valid() && (Abs(), err) == MapAll(old(Abs()), ms)
      ensures Beside() == old(Beside())
    {
      var i := 0;
      ghost var goal := MapAll(Abs(), ms);
      while i < |ms|
        invariant Valid() && i <= |ms| && goal == MapAll(Abs(), ms[i..])
        invariant Beside() == old(Beside())
      {
        MapNext(Abs(), ms, i);
        assert ms[i] in ms;
        err := Map(ms[i].1, ms[i].0);
        if err != Done {
          return;
        }
        i := i + 1;
      }
      return Done;
    }

    /** System call 2, up to the setting of the entry point. */
    method Execute(ino: nat, osegs: seq<ObjSeg>) returns (err: Errno)
      requires Valid() && ino != 0 && ObjOk(osegs) && ExecInside(Abs(), ino, osegs) && |segs| + |osegs| < P36
      modifies this`heap, this`segs, this`loaded, mem, scache
      ensures Valid() && (Abs(), err) == Exec(old(Abs()), ino, osegs)
      ensures Beside() == ExecMem(old(mem[..]), old(Abs()), segmap, ino, osegs)
    {
      ghost var k, m := Abs(), mem[..];
      if segmap == 0 || segmapLen < 5 {
        return ENOMEM;
      }
      err := ClearTable();
      if err == Done {
        err := ReplaceTable(ino, osegs, k, m);
      }
    }

    method ReplaceTable(ino: nat, osegs: seq<ObjSeg>, ghost k: Sys, ghost m: seq<Byte>) returns (err: Errno)
      requires Valid() && Inv(k) && k.cur.Some? && k.len >= 5 && (Abs(), Done) == BeforeLoad(k)
      requires |m| == k.memSize && Beside() == Masked(m, segmap)
      requires ino != 0 && ObjOk(osegs) && LoadInside(Abs(), ino, osegs) && |segs| + |osegs| <= P36
      modifies this`heap, this`segs, this`loaded, mem, scache
      ensures Valid() && (Abs(), err) == Exec(k, ino, osegs) && ExecInside(k, ino, osegs)
      ensures Beside() == ExecMem(m, k, segmap, ino, osegs)
    {
      BeforeLoadInv(k);
      ExecIs(k, Abs(), m, mem[..], segmap, ino, osegs);
      err := LoadAndMapObject(ino, osegs);
    }

    /** exec up to the loading of the object. */
    method ClearTable() returns (err: Errno)
      requires Valid() && cur.Some? && segmapLen >= 5 && |segs| < P36
      modifies this`heap, this`segs, this`loaded, mem, scache
      ensures Valid() && (Abs(), err) == BeforeLoad(old(Abs())) && |segs| <= |old(segs)| + 1
      ensures Beside() == old(Beside())
    {
      Freesegs(false);
      err := NewStack();
    }

    method LoadAndMapObject(ino: nat, osegs: seq<ObjSeg>) returns (err: Errno)
      requires Valid() && ino != 0 && ObjOk(osegs) && LoadInside(Abs(), ino, osegs) && |segs| + |osegs| <= P36
      modifies this`heap, this`segs, this`loaded, mem, scache
      ensures Valid() && (Abs(), err) == LoadAndMap(old(Abs()), ino, osegs)
      ensures Beside() == Masked(LoadMem(old(mem[..]), old(Abs()), ino, osegs), segmap)
    {
      err := LoadObject(ino, osegs);
      if err == Done {
        assert forall p :: p in loaded[ino].segs ==> p.1 !in uareas by {
          assert AreaInv(Abs());
        }
        err := MapObject(loaded[ino].segs);
      }
    }

    // ----- fork -----------------------------------------------------------------------------------------------

    /** Adopt the page at segid `useg` as a process area, its table being as memory
        has it. */
    ghost method Adopt(useg: nat)
      requires Laid() && useg < |segs| && segs[useg].base + PAGE <= mem.Length
      modifies this`uareas, this`bases
      ensures Laid()
      ensures var k := old(Abs());
              Abs() == k.(uareas := k.uareas + [useg], ents := k.ents + Table(mem[..], segs[useg].base))
      ensures |uareas| == |old(uareas)| + 1 && bases == old(bases) + [segs[useg].base]
    {
      ghost var b := segs[useg].base;
      uareas, bases := uareas + [useg], bases + [b];
      assert bases[..|bases| - 1] == old(bases);
    }

    /** A page for a new process area. */
    method NewPage() returns (useg: Option<nat>)
      requires Valid() && |segs| < P36
      modifies this`heap, this`segs
      ensures Laid() && (Abs(), useg) == Kernel.Salloc(old(Abs()), PAGE)
      ensures useg.Some? ==> |segs| == useg.value + 1 && PageApart(bases, mem.Length, segs[useg.value].base)
    {
      ghost var k := Abs();
      assert Sane(k) by { InvSane(k); }
      useg := Salloc(PAGE);
      if useg.Some? {
        FreshBlock(k, PAGE, bases);
      }
    }

    /** Write a process area's own entry. */
    method OwnEntry(useg: nat)
      requires Laid() && useg < |segs| && PageApart(bases, mem.Length, segs[useg].base) && useg !in uareas
      modifies mem, this`segs
      ensures Laid() && segs == old(segs)[useg := old(segs)[useg].(refs := 1)]
      ensures Abs() == old(Abs()).(segs := segs)
      ensures OnlyAt(old(mem[..]), mem[..], segs[useg].base, TABLE)
      ensures Masked(mem[..], segs[useg].base) == Masked(old(mem[..]), segs[useg].base)
      ensures var base := segs[useg].base;
              Table(mem[..], base) == Table(old(mem[..]), base)[4 := AreaEntry(base, useg)]
    {
      ghost var m := mem[..];
      var base := segs[useg].base;
      assert Desc(base % P36, PAGE % P36, (SUPER + READ + WRITE) % P18, useg % P36) == AreaEntry(base, useg);
      PutDesc(base + DESC * 4, base, PAGE, SUPER + READ + WRITE, useg);
      EntryOfTable(m, mem[..], base, 4);
      DataApart(m, mem[..], bases, base, PAGE);
      TableMasked(m, mem[..], base);
      segs := segs[useg := segs[useg].(refs := 1)];
    }

    /** Overwrite the flags of entry `i` of the table at `base`. */
    method PutFlags(base: nat, i: nat, flags: nat)
      requires base + TABLE <= mem.Length && i < SLOTS && flags < P18
      modifies mem
      ensures OnlyAt(old(mem[..]), mem[..], base, TABLE)
      ensures var t := Table(old(mem[..]), base); Table(mem[..], base) == t[i := t[i].(flags := flags)]
    {
      SetFlags(mem[..], base + DESC * i, flags);
      PutWord(base + DESC * i + 8, flags);
      EntryOfTable(old(mem[..]), mem[..], base, i);
    }

    /** The loop of fork from the kernel: no other entry keeps its flags. */
    method ZeroFlags(base: nat)
      requires base + TABLE <= mem.Length
      modifies mem
      ensures OnlyAt(old(mem[..]), mem[..], base, TABLE)
      ensures var t := Table(old(mem[..]), base);
              Table(mem[..], base) == seq(SLOTS, i requires 0 <= i < SLOTS => if i == 4 then t[i]
                  else t[i].(flags := 0))
    {
      ghost var t := Table(mem[..], base);
      var i := 0;
      while i < SLOTS
        invariant i <= SLOTS && OnlyAt(old(mem[..]), mem[..], base, TABLE)
        invariant forall x :: 0 <= x < SLOTS ==>
                    Table(mem[..], base)[x] == if x < i && x != 4 then t[x].(flags := 0) else t[x]
      {
        if i != 4 {
          PutFlags(base, i, 0);
        }
        i := i + 1;
      }
    }

    /** fork from the kernel. */
    method ForkKernel() returns (err: Errno, base: nat)
      requires Valid() && |segs| < P36
      modifies this`heap, this`segs, this`uareas, this`bases, mem, scache
      ensures Valid()
      ensures err != Done ==> Kernel.Salloc(old(Abs()), PAGE).1.None? && Abs() == old(Abs())
      ensures err == Done ==>
                base + PAGE <= mem.Length && (Abs(), err) == ForkSuper(old(Abs()), Table(old(mem[..]), base))
      ensures err != Done ==> mem[..] == old(mem[..])
      ensures err == Done ==> Masked(mem[..], base) == Masked(Context.KernelFields(old(mem[..]), base), base)
    {
      ghost var m := mem[..];
      err, base := FirstTable();
      if err == Done {
        ghost var m1 := mem[..];
        ReadyArea(base, |bases| - 1);
        Context.MaskedFields(m1, m, base, 1, 1);
      }
    }

    /** The new process area with its table. */
    method FirstTable() returns (err: Errno, base: nat)
      requires Valid() && |segs| < P36
      modifies this`heap, this`segs, this`uareas, this`bases, mem, scache
      ensures Valid()
      ensures err != Done ==>
                Kernel.Salloc(old(Abs()), PAGE).1.None? && Abs() == old(Abs()) && mem[..] == old(mem[..])
      ensures err == Done ==>
                base + PAGE <= mem.Length && (Abs(), err) == ForkSuper(old(Abs()), Table(old(mem[..]), base))
      ensures err == Done ==>
                Masked(mem[..], base) == Masked(old(mem[..]), base) && |bases| > 0 && base == bases[|bases| - 1]
    {
      ghost var k, m := Abs(), mem[..];
      var useg := NewPage();
      if useg.None? {
        return ENOMEM, 0;
      }
      base := segs[useg.value].base;
      KernelArea(useg.value);
      ForkSuperUnfold(k, Table(m, base), Table(mem[..], base));
      InvalidateCache();
      assert Abs() == ForkSuper(k, Table(m, base)).0;
      assert Inv(Abs()) by { ForkSuperInv(k, Table(m, base)); }
      return Done, base;
    }

    /** The fields of the first process, which fork marks as ready. */
    method ReadyArea(base: nat, ghost j: nat)
      requires Valid() && j < |bases| && base == bases[j]
      modifies mem
      ensures Valid() && Abs() == old(Abs()) && base + PAGE <= mem.Length
      ensures mem[..] == Context.KernelFields(old(mem[..]), base)
    {
      FieldsOfArea(base, j, 1, 1);
      AreaStore(base, j, Context.STATUS, WordBytes(0));
    }

    /** The new page becomes a process area without mappings. */
    method KernelArea(useg: nat)
      requires Laid() && useg < |segs| && PageApart(bases, mem.Length, segs[useg].base) && useg !in uareas
      modifies mem, this`segs, this`uareas, this`bases
      ensures Laid() && |segs| == |old(segs)| && segs[useg].base == old(segs)[useg].base
              && segs[useg].base + PAGE <= mem.Length
      ensures var base := segs[useg].base;
              var k, t, table := old(Abs()), Table(old(mem[..]), base), Table(mem[..], base);
              && Abs() == k.(segs := k.segs[useg := k.segs[useg].(refs := 1)], uareas := k.uareas + [useg],
                 ents := k.ents + table)
              && forall i :: 0 <= i < SLOTS ==> table[i] == if i == 4 then AreaEntry(base, useg) else t[i].(flags := 0)
      ensures Masked(mem[..], segs[useg].base) == Masked(old(mem[..]), segs[useg].base)
    {
      ghost var m := mem[..];
      var base := segs[useg].base;
      OwnEntry(useg);
      ghost var m1, k1 := mem[..], Abs();
      ZeroFlags(base);
      DataApart(m1, mem[..], bases, base, PAGE);
      TableMasked(m1, mem[..], base);
      assert Abs() == k1;
      Adopt(useg);
    }

    /** The loop of fork from a process: every entry but the fourth is copied, a
        writable VALID one as copy-on-write, and every VALID one is counted. */
    method CopyTable(from: nat, to: nat, ghost t: seq<Desc>, ghost c: seq<Desc>)
      requires from + TABLE <= mem.Length && to + TABLE <= mem.Length && Apart(from, to)
      requires t == Table(mem[..], from) && c == Table(mem[..], to)
      requires forall i :: 0 <= i < SLOTS && Kernel.Valid(t[i]) ==> t[i].segid < |segs|
      modifies mem, this`segs
      ensures OnlyAt(old(mem[..]), mem[..], to, TABLE) && Masked(mem[..], to) == Masked(old(mem[..]), to)
      ensures segs == Addrefs(old(segs), t)
      ensures forall s :: 0 <= s < |segs| ==> segs[s] == old(segs)[s].(refs := segs[s].refs)
      ensures forall x :: 0 <= x < SLOTS ==> Table(mem[..], to)[x] == if x == 4 then c[x] else CopyEnt(t[x])
    {
      ghost var m := mem[..];
      AddrefsShape(segs, t);
      CopySlots(from, to, t, c);
      TableMasked(m, mem[..], to);
    }

    method CopySlots(from: nat, to: nat, ghost t: seq<Desc>, ghost c: seq<Desc>)
      requires from + TABLE <= mem.Length && to + TABLE <= mem.Length && Apart(from, to)
      requires t == Table(mem[..], from) && c == Table(mem[..], to)
      requires forall i :: 0 <= i < SLOTS && Kernel.Valid(t[i]) ==> t[i].segid < |segs|
      modifies mem, this`segs
      ensures OnlyAt(old(mem[..]), mem[..], to, TABLE) && Table(mem[..], to) == Copied(t, c, SLOTS)
      ensures segs == Addrefs(old(segs), t)
    {
      ghost var m, segs0 := mem[..], segs;
      var i := 0;
      assert Copied(t, c, i) == c && t[..i] == [];
      while i < SLOTS
        invariant i <= SLOTS && OnlyAt(m, mem[..], to, TABLE) && Table(mem[..], from) == t
        invariant segs == Addrefs(segs0, t[..i]) && Table(mem[..], to) == Copied(t, c, i)
      {
        CopyRound(from, to, i, t, c, segs0);
        i := i + 1;
      }
      assert t[..i] == t;
    }

    method CopyRound(from: nat, to: nat, i: nat, ghost t: seq<Desc>, ghost c: seq<Desc>, ghost segs0: seq<SegRec>)
      requires from + TABLE <= mem.Length && to + TABLE <= mem.Length && Apart(from, to) && i < SLOTS
      requires |t| == SLOTS && |c| == SLOTS && Table(mem[..], from) == t && Table(mem[..], to) == Copied(t, c, i)
      requires segs == Addrefs(segs0, t[..i]) && (Kernel.Valid(t[i]) ==> t[i].segid < |segs|)
      modifies mem, this`segs
      ensures OnlyAt(old(mem[..]), mem[..], to, TABLE) && Table(mem[..], from) == t
      ensures segs == Addrefs(segs0, t[..i + 1]) && Table(mem[..], to) == Copied(t, c, i + 1)
    {
      CopiedStep(t, c, i);
      AddrefsStep(segs0, t, i);
      if i != 4 {
        CopySlot(from, to, i);
      }
    }

    /** One round of the loop. */
    method CopySlot(from: nat, to: nat, i: nat)
      requires from + TABLE <= mem.Length && to + TABLE <= mem.Length && Apart(from, to) && i < SLOTS
      requires Kernel.Valid(Table(mem[..], from)[i]) ==> Table(mem[..], from)[i].segid < |segs|
      modifies mem, this`segs
      ensures OnlyAt(old(mem[..]), mem[..], to, TABLE) && Table(mem[..], from) == Table(old(mem[..]), from)
      ensures var e := Table(old(mem[..]), from)[i];
              && Table(mem[..], to) == Table(old(mem[..]), to)[i := CopyEnt(e)]
              && segs == if Kernel.Valid(e) then
                 old(segs)[e.segid := old(segs)[e.segid].(refs := old(segs)[e.segid].refs + 1)]
                         else old(segs)
    {
      CopyEntry(from, to, i);
      CountEntry(from, i);
    }

    /** Count the reference of a VALID entry. */
    method CountEntry(from: nat, i: nat)
      requires from + TABLE <= mem.Length && i < SLOTS
      requires Kernel.Valid(Table(mem[..], from)[i]) ==> Table(mem[..], from)[i].segid < |segs|
      modifies this`segs
      ensures var e := Table(mem[..], from)[i];
              segs == if Kernel.Valid(e) then
                  old(segs)[e.segid := old(segs)[e.segid].(refs := old(segs)[e.segid].refs + 1)]
                      else old(segs)
    {
      assert Table(mem[..], from)[i] == DescAt(mem[..], from + DESC * i);
      var flags := GetWord(from + DESC * i + 8);
      if Bit(flags, VALID) {
        var sid := GetLong(from + DESC * i + 12);
        segs := segs[sid := segs[sid].(refs := segs[sid].refs + 1)];
      }
    }

    /** Copy one descriptor between tables, with the copy-on-write marking. */
    method CopyEntry(from: nat, to: nat, i: nat)
      requires from + TABLE <= mem.Length && to + TABLE <= mem.Length && Apart(from, to) && i < SLOTS
      modifies mem
      ensures OnlyAt(old(mem[..]), mem[..], to, TABLE) && Table(mem[..], from) == Table(old(mem[..]), from)
      ensures var t, c := Table(old(mem[..]), from), Table(old(mem[..]), to);
              Table(mem[..], to) == c[i := CopyEnt(t[i])]
    {
      ghost var m := mem[..];
      CopyBits(from, to, i);
      ghost var m1 := mem[..];
      var flags := GetWord(from + DESC * i + 8);
      assert flags == Table(m1, from)[i].flags;
      if Bit(flags, VALID) && Bit(flags, WRITE) {
        CowInWord(flags);
        PutFlags(to, i, SetBit(flags - WRITE, COW));
        TableFrame(m1, mem[..], from);
      }
    }

    method CopyBits(from: nat, to: nat, i: nat)
      requires from + TABLE <= mem.Length && to + TABLE <= mem.Length && Apart(from, to) && i < SLOTS
      modifies mem
      ensures OnlyAt(old(mem[..]), mem[..], to, TABLE) && Table(mem[..], from) == Table(old(mem[..]), from)
      ensures Table(mem[..], to) == Table(old(mem[..]), to)[i := Table(old(mem[..]), from)[i]]
    {
      ghost var m := mem[..];
      CopyDesc(from + DESC * i, to + DESC * i);
      EntryOfTable(m, mem[..], to, i);
      TableFrame(m, mem[..], from);
    }

    /** fork from a process: `st` is its registers, `npid` the child's number, and
        `m1` memory just before the context is saved. The context goes where ssp
        points, after one test of the address alone. When its bytes meet a table,
        that table holds register contents; otherwise the outcome is that of
        Kernel.ForkUser. */
    method ForkProcess(st: Cpu.State, npid: nat) returns (err: Errno, ghost m1: seq<Byte>)
      requires Valid() && cur.Some? && |segs| < P36 && Cpu.Wf(st)
      modifies this, mem, scache
      ensures old(segmap) + PAGE <= mem.Length
      ensures var k := old(Abs());
              if Kernel.Salloc(k, PAGE).1.None? then err == ENOMEM && Valid() && Abs() == k && mem[..] == old(mem[..])
              else
                && |bases| > 0 && ForkedMemory(k, old(mem[..]), old(segmap), bases[|bases| - 1], npid, m1)
                && Laid() && ParentSaved(Child(k), st, m1, old(segmap), err, Abs(), mem[..], bases, Valid())
                && AsForkUser(k, st, err, Abs(), Valid())
    {
      ghost var k := Abs();
      AreaBlock(k, cur.value);
      var base;
      err, base := ForkArea(npid);
      m1 := mem[..];
      if err == Done {
        err := SaveParent(st, base);
        ClearFork(k, st, m1, old(segmap), err, Abs(), mem[..], bases, Valid());
      }
    }

    /** Save the parent's context and make the child current. */
    method SaveParent(st: Cpu.State, base: nat) returns (err: Errno)
      requires Valid() && cur.Some? && Cpu.Wf(st) && |bases| > 0 && base == bases[|bases| - 1] > 0
      modifies mem, scache, this`segmap, this`cur
      ensures Laid() && ParentSaved(old(Abs()), st, old(mem[..]), old(segmap), err, Abs(), mem[..], bases, Valid())
    {
      ghost var c := Abs();
      AreaBlock(c, cur.value);
      var place := FindPlace(st.ssp);
      if place.None? {
        return Trapped;
      }
      if place.value + CONTEXT > mem.Length {
        return Stray;
      }
      SaveChecked(place.value, st, base, c);
      return Done;
    }

    method SaveChecked(p: nat, st: Cpu.State, base: nat, ghost c: Sys)
      requires Valid() && cur.Some? && Cpu.Wf(st) && |bases| > 0 && base == bases[|bases| - 1] > 0
      requires p + CONTEXT <= mem.Length && segmap + PAGE <= mem.Length
      requires Shape(c) && Abs() == Lookup(c, st.ssp.seg).0 && ContextPlace(c, st.ssp.seg, st.ssp.addr) == Some(p)
      modifies mem, scache, this`segmap, this`cur
      ensures Laid() && ParentSaved(c, st, old(mem[..]), old(segmap), Done, Abs(), mem[..], bases, Valid())
    {
      ghost var k1, m, parent := Abs(), mem[..], segmap;
      ghost var k2 := SaveAndSwitch(p, st, base);
      SavedWhole(c, k1, k2, st, m, parent, p, Abs(), mem[..], bases, Valid());
    }

    method SaveAndSwitch(p: nat, st: Cpu.State, base: nat) returns (ghost k2: Sys)
      requires Laid() && Cpu.Wf(st) && |bases| > 0 && base == bases[|bases| - 1] > 0
      requires p + CONTEXT <= mem.Length && segmap + PAGE <= mem.Length
      modifies mem, scache, this`segmap, this`cur
      ensures Laid() && SavedIn(old(Abs()), k2, st, old(mem[..]), old(segmap), p, mem[..], bases)
      ensures |k2.uareas| > 0 && |k2.cache| == 16 && Abs() == Invalidate(k2.(cur := Some(|k2.uareas| - 1)))
    {
      SaveContext(p, st);
      k2 := Abs();
      SwitchTo(base);
    }

    /** CPU::mem with supervisor rights. */
    method FindPlace(at: Cpu.AReg) returns (place: Option<nat>)
      requires Valid()
      modifies scache
      ensures Valid() && Abs() == Lookup(old(Abs()), at.seg).0 && place == ContextPlace(old(Abs()), at.seg, at.addr)
    {
      var found := CheckedSeg(at.seg);
      if found.NoSegment? || at.addr > found.desc.len {
        return None;
      }
      return Some(found.desc.base + at.addr);
    }

    /** The new process area of a child, with its table and its fields. */
    method ForkArea(npid: nat) returns (err: Errno, base: nat)
      requires Valid() && cur.Some? && |segs| < P36
      modifies this`heap, this`segs, this`uareas, this`bases, mem
      ensures Valid() && segmap + PAGE <= mem.Length && (err == ENOMEM || err == Done)
      ensures err == ENOMEM ==>
                Kernel.Salloc(old(Abs()), PAGE).1.None? && Abs() == old(Abs()) && mem[..] == old(mem[..])
      ensures err == Done ==>
                && Kernel.Salloc(old(Abs()), PAGE).1.Some? && Abs() == Child(old(Abs()))
                && |bases| > 0 && base == bases[|bases| - 1] > 0
                && ForkedMemory(old(Abs()), old(mem[..]), segmap, base, npid, mem[..])
    {
      ghost var k, m := Abs(), mem[..];
      AreaBlock(k, cur.value);
      var parent := segmap;
      var ppid := GetWord(parent + Context.PID);
      assert ppid == Uw(m, parent + Context.PID);
      var useg := ForkTable();
      if useg.None? {
        return ENOMEM, 0;
      }
      ghost var c, m0 := Abs(), mem[..];
      assert Inv(c) by { ChildOfUser(k); }
      base := segs[useg.value].base;
      FieldsOfArea(base, |bases| - 1, npid, ppid);
      FieldsMade(k, c, m, m0, mem[..], bases, base, parent, npid, ppid);
      return Done, base;
    }

    /** A store into the area at `base`, beyond its table. */
    method AreaStore(base: nat, ghost j: nat, o: nat, bytes: seq<Byte>)
      requires Valid() && j < |bases| && base == bases[j] && TABLE <= o && o + |bytes| <= PAGE
      modifies mem
      ensures Valid() && Abs() == old(Abs()) && base + PAGE <= mem.Length
      ensures mem[..] == Splice(old(mem[..]), base + o, bytes)
    {
      AreasApart(Abs(), bases);
      WriteData(base + o, bytes);
    }

    method FieldsOfArea(base: nat, ghost j: nat, pid: nat, ppid: nat)
      requires Valid() && j < |bases| && base == bases[j]
      modifies mem
      ensures Valid() && Abs() == old(Abs()) && base + PAGE <= mem.Length
      ensures mem[..] == Context.Fields(old(mem[..]), base, pid, ppid)
    {
      ghost var m := mem[..];
      AreaStore(base, j, Context.SSP, Cpu.PointerBytes(Context.FirstSsp()));
      ghost var m1 := mem[..];
      NumberFields(base, j, pid, ppid);
      Context.FieldsAre(m, m1, mem[..], base, pid, ppid);
    }

    method NumberFields(base: nat, ghost j: nat, pid: nat, ppid: nat)
      requires Valid() && j < |bases| && base == bases[j]
      modifies mem
      ensures Valid() && Abs() == old(Abs()) && base + PAGE <= mem.Length
      ensures mem[..] == Context.Numbers(old(mem[..]), base, pid, ppid)
    {
      AreaStore(base, j, Context.PPID, WordBytes(ppid));
      AreaStore(base, j, Context.PID, WordBytes(pid));
    }

    /** savectx: the frame at `p`, then the moved ssp in the current area. */
    method SaveContext(p: nat, st: Cpu.State)
      requires Laid() && Cpu.Wf(st) && p + CONTEXT <= mem.Length && segmap + PAGE <= mem.Length
      modifies mem
      ensures Laid() && mem[..] == Context.Saved(old(mem[..]), p, segmap, st)
    {
      Context.ContextStored(mem[..], p, st);
      PutFrame(p, st);
      PutRegs(p, st);
      PutPointer(segmap + Context.SSP, Cpu.Moved(st.ssp, Context.CONTEXT_STEP));
    }

    method PutPointer(p: nat, ar: Cpu.AReg)
      requires p + 6 <= mem.Length
      modifies mem
      ensures mem[..] == Splice(old(mem[..]), p, Cpu.PointerBytes(ar))
    {
      PutWord(p, ar.seg);
      PutLong(p + 2, ar.addr);
    }

    method PutFrame(p: nat, st: Cpu.State)
      requires Cpu.Wf(st) && p + Stack.FRAME <= mem.Length
      modifies mem
      ensures mem[..] == Splice(old(mem[..]), p, Context.Head(st))
    {
      ghost var m := mem[..];
      PutWord(p, st.ccr);
      PutWord(p + 2, st.ir);
      Extend(m, p, WordBytes(st.ccr), WordBytes(st.ir));
      PutWord(p + 4, st.smr);
      ghost var b := WordBytes(st.ccr) + WordBytes(st.ir);
      Extend(m, p, b, WordBytes(st.smr));
      b := b + WordBytes(st.smr);
      PutPointer(p + 6, Cpu.AReg(0, 0));
      Extend(m, p, b, Cpu.PointerBytes(Cpu.AReg(0, 0)));
      b := b + Cpu.PointerBytes(Cpu.AReg(0, 0));
      PutPointer(p + 12, st.a[7]);
      Extend(m, p, b, Cpu.PointerBytes(st.a[7]));
      PutPointer(p + 18, st.pc);
      Extend(m, p, b + Cpu.PointerBytes(st.a[7]), Cpu.PointerBytes(st.pc));
    }

    /** The two register loops. */
    method PutRegs(p: nat, st: Cpu.State)
      requires Cpu.Wf(st) && p + CONTEXT <= mem.Length
      modifies mem
      ensures mem[..] == Context.WithRegs(old(mem[..]), p, st, 15)
    {
      ghost var m := mem[..];
      var at := p + Stack.FRAME;
      Context.RegsStart(m, p, st);
      for i := 0 to 8
        invariant at == p + Stack.FRAME + Context.UpTo(i) && mem[..] == Context.WithRegs(m, p, st, i)
      {
        PutReg(p, st, i, at, m);
        at := at + 4;
      }
      for i := 0 to 7
        invariant at == p + Stack.FRAME + Context.UpTo(8 + i) && mem[..] == Context.WithRegs(m, p, st, 8 + i)
      {
        PutReg(p, st, 8 + i, at, m);
        at := at + 6;
      }
    }

    method PutReg(p: nat, st: Cpu.State, i: nat, at: nat, ghost m: seq<Byte>)
      requires Cpu.Wf(st) && p + CONTEXT <= mem.Length == |m| && i < 15
      requires at == p + Stack.FRAME + Context.UpTo(i) && mem[..] == Context.WithRegs(m, p, st, i)
      modifies mem
      ensures mem[..] == Context.WithRegs(m, p, st, i + 1)
    {
      Context.RegsNext(m, p, st, i);
      if i < 8 {
        PutLong(at, st.d[i]);
      } else {
        PutPointer(at, st.a[i - 8]);
      }
    }

    /** Make the newest process area current. */
    method SwitchTo(base: nat)
      requires Laid() && |bases| > 0 && base == bases[|bases| - 1] > 0
      modifies this`segmap, this`cur, scache
      ensures Laid() && mem[..] == old(mem[..])
      ensures var k := old(Abs());
              |k.uareas| > 0 && |k.cache| == 16 && Abs() == Invalidate(k.(cur := Some(|k.uareas| - 1)))
    {
      segmap := base;
      cur := Some(|bases| - 1);
      InvalidateCache();
    }

    /** The child's process area and table. */
    method ForkTable() returns (useg: Option<nat>)
      requires Valid() && cur.Some? && |segs| < P36
      modifies this`heap, this`segs, this`uareas, this`bases, mem
      ensures Laid() && useg == Kernel.Salloc(old(Abs()), PAGE).1
      ensures useg.None? ==> Abs() == old(Abs())
      ensures useg.Some? ==>
                && Abs() == Child(old(Abs()))
                && useg.value < |segs| && |bases| == |old(bases)| + 1
                && bases[|bases| - 1] == segs[useg.value].base > 0
      ensures if useg.None? then mem[..] == old(mem[..])
              else |bases| > 0 && Masked(mem[..], bases[|bases| - 1]) == Masked(old(mem[..]), bases[|bases| - 1])
    {
      ghost var k, m := Abs(), mem[..];
      useg := NewPage();
      if useg.Some? {
        ParentTable(k, m, bases);
        FillChild(useg.value);
        ForkUserUnfold(k, Table(mem[..], segs[useg.value].base));
      }
    }

    /** Turn a fresh page into the area of a child of the current process. */
    method FillChild(useg: nat)
      requires Laid() && cur.Some? && useg < |segs| && useg !in uareas && PageApart(bases, mem.Length, segs[useg].base)
      requires forall i :: 0 <= i < SLOTS && Kernel.Valid(Table(mem[..], segmap)[i]) ==>
                 Table(mem[..], segmap)[i].segid < |segs|
      modifies this`segs, this`uareas, this`bases, mem
      ensures Laid() && |bases| == |old(bases)| + 1 && useg < |segs| && bases[|bases| - 1] == segs[useg].base > 0
      ensures segs[useg].base + TABLE <= mem.Length && segs[useg].base == old(segs[useg].base)
      ensures var k, t := old(Abs()), Table(old(mem[..]), segmap);
              var table := Table(mem[..], segs[useg].base);
              && Abs() == k.(segs := Addrefs(k.segs[useg := k.segs[useg].(refs := 1)], t),
                             uareas := k.uareas + [useg], ents := k.ents + table)
              && forall i :: 0 <= i < SLOTS ==>
                   table[i] == if i == 4 then AreaEntry(segs[useg].base, useg) else CopyEnt(t[i])
      ensures Masked(mem[..], segs[useg].base) == Masked(old(mem[..]), segs[useg].base)
    {
      ghost var m := mem[..];
      var base := segs[useg].base;
      OwnEntry(useg);
      TableFrame(m, mem[..], segmap);
      CopyParent(base);
      Adopt(useg);
    }

    /** Copy the current table into the page at `base`, which no process area meets. */
    method CopyParent(base: nat)
      requires Laid() && cur.Some? && PageApart(bases, mem.Length, base)
      requires forall i :: 0 <= i < SLOTS && Kernel.Valid(Table(mem[..], segmap)[i]) ==>
                 Table(mem[..], segmap)[i].segid < |segs|
      modifies this`segs, mem
      ensures Laid() && Masked(mem[..], base) == Masked(old(mem[..]), base)
      ensures |segs| == |old(segs)| && forall s :: 0 <= s < |segs| ==> segs[s].base == old(segs)[s].base
      ensures var k, t, c := old(Abs()), Table(old(mem[..]), segmap), Table(old(mem[..]), base);
              && Abs() == k.(segs := Addrefs(k.segs, t))
              && forall i :: 0 <= i < SLOTS ==> Table(mem[..], base)[i] == if i == 4 then c[i] else CopyEnt(t[i])
    {
      ghost var m, k := mem[..], Abs();
      CopyTable(segmap, base, Table(m, segmap), Table(m, base));
      DataApart(m, mem[..], bases, base, PAGE);
      assert Abs() == k.(segs := segs);
    }

    // ----- access -------------------------------------------------------------------------------------------------

    /** A user-mode store of `bytes` at `segno`:`addr`: CPU::addr, Addr::access, and
        the writing. No instruction writes more bytes at a time than follow a table
        in its page. Whatever the address and the outcome, nothing but the cache
        changes in the memory manager: no store can reach a table. An empty segment
        lets a store that wraps through, and it lands before all memory. */
    method UserStore(segno: nat, addr: nat, bytes: seq<Byte>) returns (r: Stored)
      requires Valid() && 0 < |bytes| <= PAGE - TABLE && addr < P64
      modifies mem, scache
      ensures Valid() && Abs() == Lookup(old(Abs()), segno).0
      ensures StoreEnds(Direct(old(Abs()), segno), addr, bytes, r, old(mem[..]), mem[..])
      ensures r == Stored.Stored && addr + |bytes| < P64 ==>
                var k := old(Abs()); k.cur.Some? && InOwnSegment(k, SLOTS * k.cur.value + segno, addr, |bytes|)
    {
      ghost var k := Abs();
      var c;
      r, c := CheckStore(segno, addr, |bytes|);
      if r == Stored.Stored {
        StoreAllowed(k, segno, addr, |bytes|, c, bases);
        r := StoreAt(Phys(c, addr, |bytes|), bytes);
      }
    }

    /** The writing. */
    method StoreAt(p: int, bytes: seq<Byte>) returns (r: Stored)
      requires Valid() && p + |bytes| <= mem.Length
      requires forall j :: 0 <= j < |bases| ==> p + |bytes| <= bases[j] || bases[j] + TABLE <= p
      modifies mem
      ensures Valid() && Abs() == old(Abs())
      ensures if p < 0 then r == BeforeMemory && mem[..] == old(mem[..])
              else r == Stored.Stored && mem[..] == Splice(old(mem[..]), p, bytes)
    {
      if p < 0 {
        return BeforeMemory;
      }
      WriteData(p, bytes);
      return Stored.Stored;
    }

    /** Write bytes off every table. */
    method WriteData(p: nat, bytes: seq<Byte>)
      requires Laid() && p + |bytes| <= mem.Length
      requires forall j :: 0 <= j < |bases| ==> p + |bytes| <= bases[j] || bases[j] + TABLE <= p
      modifies mem
      ensures Laid() && Abs() == old(Abs()) && mem[..] == Splice(old(mem[..]), p, bytes)
      ensures old(Valid()) ==> Valid()
    {
      CopyRun(p, bytes);
      DataApart(old(mem[..]), mem[..], bases, p, |bytes|);
    }

    /** The tests a user-mode store has to pass. */
    method CheckStore(segno: nat, addr: nat, n: nat) returns (r: Stored, c: CSeg)
      requires Valid()
      modifies scache
      ensures Valid() && Abs() == Lookup(old(Abs()), segno).0 && mem[..] == old(mem[..])
      ensures r == StoreTest(Direct(old(Abs()), segno), addr, n)
      ensures r == Stored.Stored ==> Direct(old(Abs()), segno) == Found(c)
    {
      c := CSeg(0, 0, 0, 0);
      var found := CheckedSeg(segno);
      if found.NoSegment? {
        return FaultSegment, c;
      }
      c := found.desc;
      if addr > c.len {
        return FaultSegment, c;
      }
      if Bit(c.flags, SUPER) {
        return FaultPerm, c;
      }
      if (addr + n) % P64 > c.len {
        return FaultSegment, c;
      }
      if !Bit(c.flags, WRITE) {
        return FaultAccess, c;
      }
      return Stored.Stored, c;
    }

    /** CPU::seg in a state that satisfies the invariant. */
    method CheckedSeg(segno: nat) returns (found: Found)
      requires Valid()
      modifies scache
      ensures Valid() && (Abs(), found) == Lookup(old(Abs()), segno) && found == Direct(old(Abs()), segno)
    {
      ghost var k := Abs();
      found := Seg(segno);
      assert Inv(Abs()) by { LookupInv(k, segno); }
      LookupIsDirect(k, segno);
    }
  }

  // ----- the search of kmalloc ---------------------------------------------------------------

  /** No hole of `wants` pages ends at or before page `p`. */
  ghost predicate NoHole(h: seq<int>, p: nat, wants: nat) {
    forall a :: 1 <= a && a + wants <= p ==> !FreeRun(h, a, wants)
  }

  lemma {:induction false} BackPointer(h: seq<int>, q: nat)
    requires Tiled(h) && q < |h| && h[q] < 0
    ensures q >= 2 && h[q - 1] != 0
    ensures 0 < -h[q] < q && h[-h[q]] > 0 && q < -h[q] + h[-h[q]]
  {
    assert Cell(h, q) && Cell(h, 0 - h[q]);
  }

  lemma {:induction false} NotNegative(h: seq<int>, p: nat)
    requires Tiled(h) && 1 <= p < |h| && h[p] != 0 && h[p - 1] == 0
    ensures h[p] > 0
  {
    if h[p] < 0 {
      BackPointer(h, p);
    }
  }

  lemma {:induction false} EndOfBlock(h: seq<int>, p: nat)
    requires Tiled(h) && p < |h| && h[p] > 0
    ensures p + h[p] <= |h| && h[p + h[p] - 1] != 0
    ensures p + h[p] < |h| ==> h[p + h[p]] >= 0
  {
    assert Cell(h, p);
    var q := p + h[p];
    if q < |h| && h[q] < 0 {
      BackPointer(h, q);
      var head := -h[q];
      if head < p {
        BlocksDisjoint(h, head, p);
      }
    }
  }

  lemma {:induction false} NoHoleOver(h: seq<int>, p: nat, wants: nat)
    requires Tiled(h) && p < |h| && h[p] > 0 && wants >= 1 && NoHole(h, p, wants)
    ensures NoHole(h, p + h[p], wants)
  {
    assert Cell(h, p);
    forall a | 1 <= a && a + wants <= p + h[p]
      ensures !FreeRun(h, a, wants)
    {
      if a + wants > p {
        var k := if a <= p then p else a;
        assert h[k] != 0;
      }
    }
  }

  lemma {:induction false} NoHoleRun(h: seq<int>, a: nat, n: nat, wants: nat)
    requires 1 <= a && FreeRun(h, a, n) && h[a - 1] != 0 && NoHole(h, a, wants)
    ensures n < wants ==> NoHole(h, a + n, wants)
  {
    if n < wants {
      forall b | 1 <= b && b + wants <= a + n
        ensures !FreeRun(h, b, wants)
      {
        if b + wants > a {
          assert h[a - 1] != 0 && b <= a - 1;
        }
      }
    }
  }

  /** Where the search stops is where the new block goes. */
  lemma {:induction false} Settles(h: seq<int>, wants: nat, pfree: nat, nfree: nat, p: nat)
    requires Tiled(h) && wants >= 1 && 1 <= p <= |h| && (p == |h| || nfree >= wants)
    requires nfree == 0 ==> h[p - 1] != 0 && pfree < p
    requires nfree > 0 ==> 1 <= pfree && pfree + nfree == p && FreeRun(h, pfree, nfree) && h[pfree - 1] != 0
    requires nfree > 0 ==> p == |h| || h[p] > 0
    requires NoHole(h, if nfree < wants then p else pfree, wants)
    ensures Place(h, wants) == if pfree + nfree == |h| then pfree else |h|
    ensures nfree > 0 && pfree + nfree == |h| ==> pfree == LiveEnd(h)
  {
    if nfree > 0 && p == |h| {
      EndIs(h, pfree);
    } else if nfree == 0 {
      EndIs(h, |h|);
    } else {
      assert FreeRun(h, pfree, wants);
      assert LiveEnd(h) > p;
      assert InteriorHole(h, wants);
    }
  }

  lemma {:induction false} EndIs(h: seq<int>, e: nat)
    requires 1 <= e <= |h| && h[e - 1] != 0 && forall k :: e <= k < |h| ==> h[k] == 0
    ensures LiveEnd(h) == e
  {
  }

  // ----- tables in memory ----------------------------------------------------------------------

  /** Process areas are disjoint pages inside memory. */
  lemma {:induction false} AreasApart(k: Sys, bases: seq<nat>)
    requires Inv(k) && |bases| == |k.uareas|
    requires forall j :: 0 <= j < |bases| ==> k.uareas[j] < |k.segs| && k.segs[k.uareas[j]].base == bases[j]
    ensures SpreadIn(bases, k.memSize) && forall j :: 0 <= j < |bases| ==> bases[j] > 0
  {
    forall j | 0 <= j < |bases|
      ensures bases[j] + PAGE <= k.memSize && bases[j] > 0
    {
      AreaBlock(k, j);
    }
    forall i, j | 0 <= i < j < |bases|
      ensures bases[i] + PAGE <= bases[j] || bases[j] + PAGE <= bases[i]
    {
      AreaBlock(k, i);
      AreaBlock(k, j);
      assert k.uareas[i] != k.uareas[j];
      SegmentsApart(k, k.uareas[i], k.uareas[j]);
    }
  }

  /** What the methods rely on: the heap tiles, carried inodes are loaded, and
      VALID entries name counted segids that are not process areas. */
  ghost predicate Sane(k: Sys) {
    && Steady(k)
    && (k.memSize <= P36 ==> forall s :: 0 <= s < |k.segs| ==> k.segs[s].base < P36 && k.segs[s].size < P36)
    && (forall j :: 0 <= j < |k.ents| && Valid(k.ents[j]) ==> LiveName(k, k.ents[j].segid))
  }

  ghost predicate Steady(k: Sys) {
    && Shape(k) && Tiled(k.heap)
    && forall s :: 0 <= s < |k.segs| && k.segs[s].ino != 0 ==>
         k.segs[s].ino in k.loaded && k.loaded[k.segs[s].ino].refs > 0
  }

  predicate LiveName(k: Sys, sid: nat) {
    sid < |k.segs| && sid !in k.uareas && k.segs[sid].refs >= 1
  }

  lemma {:induction false} InvSane(k: Sys)
    requires Inv(k)
    ensures Sane(k)
  {
    forall j | 0 <= j < |k.ents| && Valid(k.ents[j])
      ensures LiveName(k, k.ents[j].segid)
    {
      assert EntOk(k.segs, k.ents[j]) && PrivateOk(k.uareas, k.ents[j]);
      CountPositive(k.ents, j, k.ents[j].segid);
      assert RefOk(k, k.ents[j].segid);
    }
    forall s | 0 <= s < |k.segs|
      ensures k.segs[s].base + k.segs[s].size <= k.memSize && (k.segs[s].size > 0 ==> k.segs[s].base > 0)
    {
      SegmentInside(k, s);
    }
    forall s | 0 <= s < |k.segs| && k.segs[s].ino != 0
      ensures k.segs[s].ino in k.loaded && k.loaded[k.segs[s].ino].refs > 0
    {
      CountInoPositive(k.segs, s, k.segs[s].ino);
    }
  }

  /** After any stores confined to one entry of a table, only that entry of all
      the tables has changed. */
  lemma {:induction false} OneEntry(m: seq<Byte>, m': seq<Byte>, bases: seq<nat>, j: nat, i: nat)
    requires j < |bases| && i < SLOTS
    requires SpreadIn(bases, |m|)
    requires OnlyAt(m, m', bases[j] + DESC * i, DESC)
    ensures Inside(bases, |m|)
    ensures Tables(m', bases) == Tables(m, bases)[SLOTS * j + i := DescAt(m', bases[j] + DESC * i)]
  {
    var p := bases[j] + DESC * i;
    Respliced(m, m', p, DESC);
    TablesUpdate(m, m'[p..p + DESC], bases, j, i);
  }

  ghost predicate SpreadIn(bases: seq<nat>, len: nat) {
    && (forall j :: 0 <= j < |bases| ==> bases[j] + PAGE <= len)
    && (forall i, j :: 0 <= i < j < |bases| ==> bases[i] + PAGE <= bases[j] || bases[j] + PAGE <= bases[i])
  }

  /** The tables after one descriptor was rewritten. */
  lemma {:induction false} EntryBecomes(m: seq<Byte>, m': seq<Byte>, bases: seq<nat>, j: nat, i: nat)
    requires SpreadIn(bases, |m|) && j < |bases| && i < SLOTS
    requires OnlyAt(m, m', bases[j] + DESC * i, DESC)
    ensures Inside(bases, |m|) && SLOTS * j + i < SLOTS * |bases|
    ensures Tables(m, bases)[SLOTS * j + i] == DescAt(m, bases[j] + DESC * i)
    ensures Tables(m', bases) == Tables(m, bases)[SLOTS * j + i := DescAt(m', bases[j] + DESC * i)]
  {
    TablesAt(m, bases, j, i);
    OneEntry(m, m', bases, j, i);
  }

  lemma {:induction false} FlagsBecome(m: seq<Byte>, bases: seq<nat>, j: nat, i: nat, flags: nat)
    requires SpreadIn(bases, |m|) && j < |bases| && i < SLOTS && flags < P18 && bases[j] + TABLE <= |m|
    ensures var p := bases[j] + DESC * i;
            var m' := Splice(m, p + 8, WordBytes(flags));
            && OnlyAt(m, m', p, DESC)
            && Inside(bases, |m|) && SLOTS * j + i < SLOTS * |bases|
            && Tables(m', bases) == Tables(m, bases)[SLOTS * j + i := Tables(m, bases)[SLOTS * j + i].(flags := flags)]
  {
    var p := bases[j] + DESC * i;
    FlagsOnly(m, p, flags);
    EntryBecomes(m, Splice(m, p + 8, WordBytes(flags)), bases, j, i);
  }

  lemma {:induction false} FlagsOnly(m: seq<Byte>, p: nat, flags: nat)
    requires p + DESC <= |m| && flags < P18
    ensures var m' := Splice(m, p + 8, WordBytes(flags));
            OnlyAt(m, m', p, DESC) && DescAt(m', p) == DescAt(m, p).(flags := flags)
  {
    SetFlags(m, p, flags);
  }

  lemma {:induction false} MunmapUnfold(k: Sys, segno: nat, k1: Sys)
    requires Shape(k) && k.cur.Some? && segno < k.len
    requires var e := k.ents[Slot(k, segno)]; Valid(e) && e.segid < |k.segs| && k1 == Release(k, e.segid)
    ensures var j := Slot(k, segno);
            Munmap(k, segno) == (Invalidate(k1.(ents := k1.ents[j := k1.ents[j].(size := 0, flags := 0)])), Done)
  {
  }

  lemma {:induction false} MunmapShrinks(k: Sys, segno: nat, sid: nat)
    requires Shape(k) && sid < |k.segs|
    ensures var s, s' := k.segs[sid], Munmap(k, segno).0.segs[sid]; s'.base <= s.base && s'.size <= s.size
  {
  }

  lemma {:induction false} MmapUnfold(k: Sys, sid: nat, segno: nat, k1: Sys)
    requires Shape(k) && k.cur.Some? && segno < k.len && sid < |k.segs|
    requires var was := k.ents[Slot(k, segno)];
             (Valid(was) ==> segno != 4) && k1 == if Valid(was) then Munmap(k, segno).0 else k
    ensures Mmap(k, sid, segno) == (Install(k1, sid, segno), Done)
  {
  }

  lemma {:induction false} ExecIs(k: Sys, k1: Sys, m: seq<Byte>, m1: seq<Byte>, p: nat, ino: nat, osegs: seq<ObjSeg>)
    requires Inv(k) && k.cur.Some? && k.len >= 5 && BeforeLoad(k) == (k1, Done) && ObjOk(osegs)
             && LoadInside(k1, ino, osegs)
    requires |m| == |m1| == k.memSize && Masked(m1, p) == Masked(m, p)
    ensures k1.memSize == k.memSize && Exec(k, ino, osegs) == LoadAndMap(k1, ino, osegs)
    ensures ExecMem(m, k, p, ino, osegs) == Masked(LoadMem(m1, k1, ino, osegs), p)
  {
    BeforeLoadInv(k);
    MaskedLoad(m, m1, k1, ino, osegs, p);
  }

  /** Copying into and beyond a fresh segment leaves the tables alone. */
  lemma {:induction false} OverlayAbove(m: seq<Byte>, k: Sys, size: nat, data: seq<(nat, seq<Byte>)>, bases: seq<nat>)
    requires Inv(k) && SizeOk(size) && Salloc(k, size).1.Some? && |bases| == |k.uareas| && |m| == k.memSize
    requires forall j :: 0 <= j < |bases| ==> k.uareas[j] < |k.segs| && k.segs[k.uareas[j]].base == bases[j]
    requires RunsFit(data, |m| - Salloc(k, size).0.segs[|k.segs|].base)
    ensures Inside(bases, |m|)
    ensures Tables(Overlay(m, Salloc(k, size).0.segs[|k.segs|].base, data), bases) == Tables(m, bases)
  {
    var base := Salloc(k, size).0.segs[|k.segs|].base;
    var n := |m| - base;
    OverlayFrame(m, base, data, n);
    MallocAddsBlock(k.heap, k.memSize / PAGE, size);
    forall j | 0 <= j < |bases|
      ensures bases[j] + TABLE <= |m| && bases[j] + TABLE <= base
    {
      AreaBlock(k, j);
    }
    DataApart(m, Overlay(m, base, data), bases, base, n);
  }

  /** A fresh segment lies inside memory and off every process area. */
  lemma {:induction false} FreshBlock(k: Sys, size: nat, bases: seq<nat>)
    requires Inv(k) && SizeOk(size) && Salloc(k, size).1.Some? && |bases| == |k.uareas|
    requires forall j :: 0 <= j < |bases| ==> k.uareas[j] < |k.segs| && k.segs[k.uareas[j]].base == bases[j]
    ensures var b := Salloc(k, size).0.segs[|k.segs|].base;
            && b + size <= k.memSize && b > 0
            && forall j :: 0 <= j < |bases| ==>
                 bases[j] + PAGE <= k.memSize && (b + size <= bases[j] || bases[j] + PAGE <= b)
  {
    SallocInv(k, size);
    var k1 := Salloc(k, size).0;
    SegmentInside(k1, |k.segs|);
    forall j | 0 <= j < |bases|
      ensures var b := k1.segs[|k.segs|].base;
              bases[j] + PAGE <= k.memSize && (b + size <= bases[j] || bases[j] + PAGE <= b)
    {
      AreaBlock(k1, j);
      assert SegOk(k1.heap, k1.segs[|k.segs|]);
      PagesCover(size);
      SegmentsApart(k1, |k.segs|, k1.uareas[j]);
    }
  }

  /** Bytes written off the tables leave them alone. */
  lemma {:induction false} DataApart(m: seq<Byte>, m': seq<Byte>, bases: seq<nat>, b: nat, n: nat)
    requires OnlyAt(m, m', b, n)
    requires forall j :: 0 <= j < |bases| ==> bases[j] + TABLE <= |m| && (b + n <= bases[j] || bases[j] + TABLE <= b)
    ensures Inside(bases, |m|) && Tables(m, bases) == Tables(m', bases)
  {
    forall j | 0 <= j < |bases|
      ensures SameOn(m, m', bases[j])
    {
    }
    TablesFrame(m, m', bases);
  }

  ghost predicate PageApart(bases: seq<nat>, len: nat, b: nat) {
    && b > 0 && b + PAGE <= len
    && forall j :: 0 <= j < |bases| ==> bases[j] + PAGE <= len && (b + PAGE <= bases[j] || bases[j] + PAGE <= b)
  }

  /** Stores confined to one descriptor change one entry of its table. */
  lemma {:induction false} EntryOfTable(m: seq<Byte>, m': seq<Byte>, base: nat, i: nat)
    requires base + TABLE <= |m| && i < SLOTS && OnlyAt(m, m', base + DESC * i, DESC)
    ensures OnlyAt(m, m', base, TABLE)
    ensures Table(m', base) == Table(m, base)[i := DescAt(m', base + DESC * i)]
  {
    var p := base + DESC * i;
    Respliced(m, m', p, DESC);
    TableUpdate(m, m'[p..p + DESC], base, i);
  }

  /** The child's table after `i` rounds of the copy loop. */
  function Copied(t: seq<Desc>, c: seq<Desc>, i: nat): (r: seq<Desc>)
    requires |t| == SLOTS && |c| == SLOTS
    ensures |r| == SLOTS && forall x :: 0 <= x < SLOTS ==> r[x] == if x < i && x != 4 then CopyEnt(t[x]) else c[x]
  {
    seq(SLOTS, x requires 0 <= x < SLOTS => if x < i && x != 4 then CopyEnt(t[x]) else c[x])
  }

  lemma {:induction false} CopiedStep(t: seq<Desc>, c: seq<Desc>, i: nat)
    requires |t| == SLOTS && |c| == SLOTS && i < SLOTS
    ensures Copied(t, c, i + 1) == if i == 4 then Copied(t, c, i) else Copied(t, c, i)[i := CopyEnt(t[i])]
  {
  }

  lemma {:induction false} AddrefsStep(segs: seq<SegRec>, t: seq<Desc>, i: nat)
    requires i < |t|
    ensures var r := Addrefs(segs, t[..i]);
            Addrefs(segs, t[..i + 1])
            == if i != 4 && Valid(t[i]) && t[i].segid < |r| then
                r[t[i].segid := r[t[i].segid].(refs := r[t[i].segid].refs + 1)] else r
  {
    assert t[..i + 1][..i] == t[..i] && t[..i + 1][i] == t[i];
  }

  lemma {:induction false} ForkSuperUnfold(k: Sys, stale: seq<Desc>, table: seq<Desc>)
    requires Shape(k) && |stale| == SLOTS && Salloc(k, PAGE).1.Some? && |table| == SLOTS
    requires var own := AreaEntry(Salloc(k, PAGE).0.segs[|k.segs|].base, |k.segs|);
             forall i :: 0 <= i < SLOTS ==> table[i] == if i == 4 then own else stale[i].(flags := 0)
    ensures var k1 := Salloc(k, PAGE).0;
            var n := |k.segs|;
            var k2 := k1.(segs := k1.segs[n := k1.segs[n].(refs := 1)], uareas := k1.uareas + [n],
                ents := k1.ents + table);
            ForkSuper(k, stale) == (Invalidate(k2), Done)
  {
    var own := AreaEntry(Salloc(k, PAGE).0.segs[|k.segs|].base, |k.segs|);
    assert seq(SLOTS, i requires 0 <= i < SLOTS => stale[i].(flags := 0))[4 := own] == table;
  }

  lemma {:induction false} CowInWord(f: nat)
    requires f < P18 && Bit(f, WRITE)
    ensures SetBit(f - WRITE, COW) < P18
  {
    var q, r := (f - WRITE) / 0x20, (f - WRITE) % 0x20;
    assert f - WRITE == q * 0x20 + r;
    FlagBits(f - WRITE, q, r);
  }

  /** The parent's table is where segmap says. */
  lemma {:induction false} ParentTable(k: Sys, m: seq<Byte>, bases: seq<nat>)
    requires Inv(k) && k.cur.Some? && k.cur.value < |bases| && Inside(bases, |m|) && k.ents == Tables(m, bases)
    ensures Table(m, bases[k.cur.value]) == CurTable(k)
    ensures forall i :: 0 <= i < SLOTS && Valid(CurTable(k)[i]) ==> CurTable(k)[i].segid < |k.segs|
  {
    TablesAt(m, bases, k.cur.value, 0);
    forall i | 0 <= i < SLOTS
      ensures EntOk(k.segs, CurTable(k)[i])
    {
      assert CurTable(k)[i] == k.ents[SLOTS * k.cur.value + i];
    }
  }

  lemma {:induction false} ForkUserUnfold(k: Sys, table: seq<Desc>)
    requires Shape(k) && k.cur.Some? && Salloc(k, PAGE).1.Some? && |table| == SLOTS
    requires var own := AreaEntry(Salloc(k, PAGE).0.segs[|k.segs|].base, |k.segs|);
             forall i :: 0 <= i < SLOTS ==> table[i] == if i == 4 then own else CopyEnt(CurTable(k)[i])
    ensures var k1 := Salloc(k, PAGE).0;
            var n := |k.segs|;
            Child(k) == k1.(segs := Addrefs(k1.segs[n := k1.segs[n].(refs := 1)], CurTable(k)),
                            uareas := k1.uareas + [n], ents := k1.ents + table)
  {
    var own := AreaEntry(Salloc(k, PAGE).0.segs[|k.segs|].base, |k.segs|);
    var t := CurTable(k);
    assert seq(SLOTS, i requires 0 <= i < SLOTS => CopyEnt(t[i]))[4 := own] == table;
  }

  /** Memory after the child's area is made at `base`: its table as Child has it, its
      fields, and everything else as in `m`; `parent` is the parent's area. */
  ghost predicate ForkedMemory(k: Sys, m: seq<Byte>, parent: nat, base: nat, npid: nat, m1: seq<Byte>)
    requires Shape(k)
  {
    && k.cur.Some? && Salloc(k, PAGE).1.Some? && |m1| == |m| && parent + PAGE <= |m| && base + PAGE <= |m|
    && Table(m1, base) == Child(k).ents[|k.ents|..]
    && Masked(m1, base) == Masked(Context.Fields(m, base, npid, Uw(m, parent + Context.PID)), base)
  }

  /** The new table is the last. */
  lemma {:induction false} ChildTable(k: Sys, m: seq<Byte>, bases: seq<nat>)
    requires Shape(k) && k.cur.Some? && Salloc(k, PAGE).1.Some? && |bases| == |k.uareas| + 1
    requires Inside(bases, |m|) && Tables(m, bases) == Child(k).ents
    ensures Table(m, bases[|k.uareas|]) == Child(k).ents[|k.ents|..]
  {
    TablesAt(m, bases, |k.uareas|, 0);
  }

  lemma {:induction false} FieldsMade(k: Sys, c: Sys, m: seq<Byte>, m0: seq<Byte>, m1: seq<Byte>, bases: seq<nat>,
                                      base: nat, parent: nat, npid: nat, ppid: nat)
    requires Shape(k) && k.cur.Some? && Salloc(k, PAGE).1.Some? && c == Child(k) && |m1| == |m|
    requires |bases| == |k.uareas| + 1 && base == bases[|k.uareas|] && Inside(bases, |m|) && Tables(m1, bases) == c.ents
    requires |m1| == |m0| == |m| && parent + PAGE <= |m| && ppid == Uw(m, parent + Context.PID)
    requires base + PAGE <= |m| && Masked(m0, base) == Masked(m, base) && m1 == Context.Fields(m0, base, npid, ppid)
    ensures ForkedMemory(k, m, parent, base, npid, m1)
  {
    Context.MaskedFields(m0, m, base, npid, ppid);
    ChildTable(k, m1, bases);
  }

  /** The state after a fork whose context is saved: the newest table is current. */
  ghost function Switched(c: Sys, sspSeg: nat): (r: Sys)
    requires Shape(c) && |c.uareas| > 0
  {
    Invalidate(Lookup(c, sspSeg).0.(cur := Some(|c.uareas| - 1)))
  }

  /** The end of a fork in which `c` is the state with the child's table and `m`
      memory: the parent's context is saved if its segment can be found and the
      address is not beyond its end; it leaves the tables alone if it meets none. */
  ghost predicate ParentSaved(c: Sys, st: Cpu.State, m: seq<Byte>, parent: nat, err: Errno, c': Sys, m': seq<Byte>,
                              bases: seq<nat>, valid: bool)
    requires Shape(c) && Cpu.Wf(st) && Inside(bases, |m'|)
  {
    && parent + PAGE <= |m| && |c.uareas| > 0
    && match ContextPlace(c, st.ssp.seg, st.ssp.addr)
       case None => err == Trapped && valid && c' == Lookup(c, st.ssp.seg).0 && m' == m
       case Some(p) =>
         if p + CONTEXT > |m| then err == Stray
         else
           && err == Done && m' == Context.Saved(m, p, parent, st)
           && c' == Switched(c, st.ssp.seg).(ents := Tables(m', bases))
           && (FrameClear(c, p) ==> valid && c' == Switched(c, st.ssp.seg))
  }

  /** A context saved at `p`, with what that does to the tables, from `k1` to `k2`. */
  ghost predicate SavedIn(k1: Sys, k2: Sys, st: Cpu.State, m: seq<Byte>, parent: nat, p: nat, m': seq<Byte>,
                          bases: seq<nat>)
    requires Cpu.Wf(st) && Inside(bases, |m'|)
  {
    && p + CONTEXT <= |m| && parent + PAGE <= |m| && m' == Context.Saved(m, p, parent, st)
    && k2 == k1.(ents := Tables(m', bases))
  }

  lemma {:induction false} SavedWhole(c: Sys, k1: Sys, k2: Sys, st: Cpu.State, m: seq<Byte>, parent: nat, p: nat,
                                      c': Sys, m': seq<Byte>, bases: seq<nat>, valid: bool)
    requires Shape(c) && Cpu.Wf(st) && Inside(bases, |m'|) && SavedIn(k1, k2, st, m, parent, p, m', bases)
    requires AtTable(k1, m, bases, parent) && k1 == Lookup(c, st.ssp.seg).0 && (Inv(c') ==> valid)
    requires ContextPlace(c, st.ssp.seg, st.ssp.addr) == Some(p)
    requires |k2.cache| == 16 && |k2.uareas| > 0 && c' == Invalidate(k2.(cur := Some(|k2.uareas| - 1)))
    ensures ParentSaved(c, st, m, parent, Done, c', m', bases, valid)
  {
    if FrameClear(k1, p) {
      SavedOffTables(k1, bases, m, p, k1.cur.value, st);
      NewTableInv(k1, |k1.uareas| - 1);
    }
  }

  /** Tables and current table as memory has them. */
  ghost predicate AtTable(k: Sys, m: seq<Byte>, bases: seq<nat>, table: nat) {
    && Inv(k) && |bases| == |k.uareas| && |m| == k.memSize && Inside(bases, |m|) && k.ents == Tables(m, bases)
    && (forall x :: 0 <= x < |bases| ==> k.uareas[x] < |k.segs| && k.segs[k.uareas[x]].base == bases[x])
    && k.cur.Some? && k.cur.value < |bases| && table == bases[k.cur.value]
  }

  lemma {:induction false} ForkUserIs(k: Sys, sspSeg: nat, sspAddr: nat)
    requires Shape(k) && k.cur.Some?
    ensures ForkUser(k, sspSeg, sspAddr) ==
            if Salloc(k, PAGE).1.None? then (k, ENOMEM)
            else if SavePlace(k, sspSeg, sspAddr).None? then (Lookup(Child(k), sspSeg).0, Trapped)
            else (Switched(Child(k), sspSeg), Done)
  {
  }

  lemma {:induction false} ChildSize(k: Sys)
    requires Shape(k) && k.cur.Some? && Salloc(k, PAGE).1.Some?
    ensures Child(k).memSize == k.memSize
  {
  }

  lemma {:induction false} OverlayNext(m: seq<Byte>, base: nat, data: seq<(nat, seq<Byte>)>, i: nat)
    requires i < |data| && base <= |m| && RunsFit(data[i..], |m| - base)
    ensures RunsFit(data[i + 1..], |m| - base) && base + data[i].0 + |data[i].1| <= |m|
    ensures Overlay(m, base, data[i..]) == Overlay(Splice(m, base + data[i].0, data[i].1), base, data[i + 1..])
  {
    assert data[i..][0] == data[i] && data[i..][1..] == data[i + 1..];
  }

  lemma {:induction false} MapNext(k: Sys, ms: seq<(nat, nat)>, i: nat)
    requires Shape(k) && i < |ms|
    ensures var (k1, err) := Mmap(k, ms[i].1, ms[i].0);
            MapAll(k, ms[i..]) == if err != Done then (k1, err) else MapAll(k1, ms[i + 1..])
  {
    assert ms[i..][0] == ms[i] && ms[i..][1..] == ms[i + 1..];
  }

  /** If the context is saved clear of every table, the fork is Kernel.ForkUser. */
  ghost predicate AsForkUser(k: Sys, st: Cpu.State, err: Errno, c': Sys, valid: bool)
    requires Shape(k) && k.cur.Some?
  {
    ContextClear(k, st.ssp.seg, st.ssp.addr) ==> valid && (c', err) == ForkUser(k, st.ssp.seg, st.ssp.addr)
  }

  lemma {:induction false} ClearFork(k: Sys, st: Cpu.State, m: seq<Byte>, parent: nat, err: Errno, c': Sys,
                                     m': seq<Byte>, bases: seq<nat>, valid: bool)
    requires Shape(k) && k.cur.Some? && Salloc(k, PAGE).1.Some? && Cpu.Wf(st) && Inside(bases, |m'|)
    requires |m| == k.memSize && ParentSaved(Child(k), st, m, parent, err, c', m', bases, valid)
    ensures AsForkUser(k, st, err, c', valid)
  {
    ForkUserIs(k, st.ssp.seg, st.ssp.addr);
    ChildSize(k);
  }

  /** A context saved clear of every table leaves them as they were. */
  lemma {:induction false} SavedOffTables(k: Sys, bases: seq<nat>, m: seq<Byte>, p: nat, j: nat, st: Cpu.State)
    requires Inv(k) && |bases| == |k.uareas| && |m| == k.memSize && j < |bases| && Cpu.Wf(st) && FrameClear(k, p)
    requires forall x :: 0 <= x < |bases| ==> k.uareas[x] < |k.segs| && k.segs[k.uareas[x]].base == bases[x]
    ensures bases[j] + PAGE <= |m| && Inside(bases, |m|)
    ensures Tables(Context.Saved(m, p, bases[j], st), bases) == Tables(m, bases)
  {
    AreasApart(k, bases);
    var m1 := Splice(m, p, Context.ContextBytes(st));
    forall x | 0 <= x < |bases|
      ensures p + CONTEXT <= bases[x] || bases[x] + TABLE <= p
    {
      assert k.uareas[x] in k.uareas;
    }
    Context.SpliceOffTables(m, p, Context.ContextBytes(st), bases);
    Context.SpliceOffTables(m1, bases[j] + Context.SSP, Cpu.PointerBytes(Cpu.Moved(st.ssp, Context.CONTEXT_STEP)),
        bases);
  }

  /** The access lies in the segment the entry names, not a process area. */
  predicate InOwnSegment(k: Sys, j: nat, addr: nat, n: nat) {
    && j < |k.ents|
    && var e := k.ents[j];
       && e.segid < |k.segs| && e.base == k.segs[e.segid].base && e.segid !in k.uareas
       && addr + n <= k.segs[e.segid].size && e.base + addr + n <= k.memSize
  }

  /** What a store that passed the tests may assume. */
  lemma {:induction false} StoreAllowed(k: Sys, segno: nat, addr: nat, n: nat, c: CSeg, bases: seq<nat>)
    requires Inv(k) && 0 < n <= PAGE - TABLE && addr < P64 && |bases| == |k.uareas|
    requires forall x :: 0 <= x < |bases| ==> k.uareas[x] < |k.segs| && k.segs[k.uareas[x]].base == bases[x]
    requires Direct(k, segno) == Found(c) && StoreTest(Found(c), addr, n) == Stored.Stored
    ensures k.cur.Some? && segno < k.len
    ensures addr + n < P64 ==> InOwnSegment(k, SLOTS * k.cur.value + segno, addr, n) && Phys(c, addr, n) >= 0
    ensures var p := Phys(c, addr, n);
            p + n <= k.memSize && forall x :: 0 <= x < |bases| ==> p + n <= bases[x] || bases[x] + TABLE <= p
  {
    var j := Slot(k, segno);
    AccessInOwnBlock(k, j, segno, addr, n, WRITE);
    assert EntOk(k.segs, k.ents[j]) && PrivateOk(k.uareas, k.ents[j]);
    if addr + n < P64 {
      assert (addr + n) % P64 == addr + n;
    }
    forall x | 0 <= x < |bases|
      ensures var p := Phys(c, addr, n); p + n <= bases[x] || bases[x] + TABLE <= p
    {
      UserNeverReachesTables(k, j, addr, n, WRITE, x);
    }
  }
}
