/** Relative branches: the encoding of nas/nas.cc, its choice of length, and the
    reading of both by cpu.cc. */
module Branch {
  import opened Codec
  import opened Kernel

  // ----- displacements --------------------------------------------------------------------

  /** A number as 64 bits hold it. */
  function Wrapped(n: int): (r: int)
    ensures 0 - P64 / 2 <= r < P64 / 2 && r % P64 == n % P64
  {
    var r := n % P64;
    WrappedBack(r);
    if r < P64 / 2 then r else r - P64
  }

  lemma {:induction false} WrappedBack(r: nat)
    requires r < P64
    ensures (r - P64) % P64 == r && r % P64 == r
  {
    DivUnique(r - P64, P64, -1, r);
  }

  /** ... and as the host's int holds it. */
  function Narrowed(n: int): int {
    var r := n % P32;
    if r < P32 / 2 then r else r - P32
  }

  /** abs on that int, which the least one overflows. */
  function Distance(n: int): int {
    if n >= 0 || n == 0 - P32 / 2 then n else -n
  }

  /** i_REL's tests of distance, by abs of an int. */
  predicate Near(disp: int) {
    Distance(Narrowed(disp)) <= 0xFF
  }

  /** From the end of a branch of `ilen` bytes at `addr`, in 64 bits. */
  function Displacement(addr: nat, ilen: nat, target: nat): int {
    Wrapped(target - (addr + ilen))
  }

  /** i_REL's second pass for such a branch. */
  function Encode(op: nat, addr: nat, ilen: nat, target: nat): Option<seq<nat>>
    requires op < 14
  {
    var disp := Displacement(addr, ilen, target);
    var bits := op * 0x200;
    if ilen == 2 then
      if !Near(disp) then None else Some([bits + NasSigned(9, disp)])
    else if Overflow(27, disp) then None
    else
      var pattern := NasSigned(27, disp);
      Some([bits + 0x2000 + pattern % 0x200, pattern / 0x200 % P18])
  }

  /** What pass 1 can make of a length: 2 and 4 by its choice and by the prefixes
      < and >, the others by a size suffix. */
  predicate IsLength(ilen: nat) {
    ilen == 2 || ilen == 3 || ilen == 4 || ilen == 5 || ilen == 7 || ilen == 9
  }

  predicate IsBranch(opcode: nat) {
    opcode / 0x4000 == 0
  }

  function Code(opcode: nat): nat {
    opcode / 0x200 % 16
  }

  /** The destination, `words` being the instruction's words at `addr`. */
  function Destination(words: seq<nat>, addr: nat): nat
    requires |words| >= 1 && (Bit(words[0], 0x2000) ==> |words| >= 2)
  {
    if Bit(words[0], 0x2000) then
      (addr + 4 + Sex(27, words[1] * 0x200 + words[0] % 0x200)) % P64
    else
      (addr + 2 + Sex(9, words[0] % 0x200)) % P64
  }

  /** Which branches are accepted, and which of those lead to their target. A long
      branch does always; a short one does when it is truly near: the test, on an int,
      also accepts targets about a multiple of 2^32 further on. */
  lemma {:induction false} RoundTrip(op: nat, addr: nat, ilen: nat, target: nat)
    requires op < 14 && (ilen == 2 || ilen == 4) && addr < P64 && target < P64
    ensures var e, disp := Encode(op, addr, ilen, target), Displacement(addr, ilen, target);
            && (e.Some? <==> if ilen == 2 then Near(disp) else -0x400_0000 < disp < 0x400_0000)
            && (e.Some? ==>
                  && 2 * |e.value| == ilen && (forall i :: 0 <= i < |e.value| ==> e.value[i] < P18)
                  && IsBranch(e.value[0]) && Code(e.value[0]) == op
                  && (Bit(e.value[0], 0x2000) <==> ilen == 4)
                  && (Destination(e.value, addr) == target <==> ilen == 2 ==> -256 < disp < 256))
  {
    if ilen == 2 {
      ShortBranch(op, addr, target);
    } else {
      LongBranch(op, addr, target);
    }
  }

  /** Two numbers of one 64-bit pattern. */
  lemma {:induction false} WrappedUnique(n: int, s: int)
    requires n % P64 == s % P64 && 0 - P64 / 2 <= s < P64 / 2
    ensures Wrapped(n) == s
  {
    DivUnique(s, P64, if s < 0 then -1 else 0, if s < 0 then s + P64 else s);
  }

  lemma {:induction false} SamePattern(a: int, n: int, m: int)
    requires n % P64 == m % P64
    ensures (a + n) % P64 == (a + m) % P64
  {
    var k := n / P64 - m / P64;
    assert a + n == a + m + k * P64;
    var q, r := (a + m) / P64, (a + m) % P64;
    assert a + n == (q + k) * P64 + r;
    DivUnique(a + n, P64, q + k, r);
  }

  /** The displacement leads from the branch's end to its target. */
  lemma {:induction false} LeadsBack(addr: nat, ilen: nat, target: nat)
    requires target < P64
    ensures (addr + ilen + Displacement(addr, ilen, target)) % P64 == target
  {
    SamePattern(addr + ilen, Displacement(addr, ilen, target), target - (addr + ilen));
    WrappedBack(target);
  }

  /** ... and nothing else as small does. */
  lemma {:induction false} OnlyLeads(addr: nat, ilen: nat, target: nat, s: int)
    requires target < P64 && 0 - P64 / 2 <= s < P64 / 2
    ensures (addr + ilen + s) % P64 == target <==> s == Displacement(addr, ilen, target)
  {
    LeadsBack(addr, ilen, target);
    if (addr + ilen + s) % P64 == target {
      WrappedBack(target);
      SamePattern(-(addr + ilen), addr + ilen + s, target);
      WrappedUnique(target - (addr + ilen), s);
    }
  }

  lemma {:induction false} ShortBranch(op: nat, addr: nat, target: nat)
    requires op < 14 && addr < P64 && target < P64
    ensures var e, disp := Encode(op, addr, 2, target), Displacement(addr, 2, target);
            && (e.Some? <==> Near(disp))
            && (e.Some? ==>
                  && |e.value| == 1 && e.value[0] < P18 && IsBranch(e.value[0]) && Code(e.value[0]) == op
                  && !Bit(e.value[0], 0x2000) && (Destination(e.value, addr) == target <==> -256 < disp < 256))
  {
    Widths();
    var disp := Displacement(addr, 2, target);
    var low := NasSigned(9, disp);
    NasSignedInRange(9, disp);
    SexNarrow(9, low);
    ShortForm(op, low);
    OnlyLeads(addr, 2, target, Sex(9, low));
  }

  lemma {:induction false} LongBranch(op: nat, addr: nat, target: nat)
    requires op < 14 && addr < P64 && target < P64
    ensures var e, disp := Encode(op, addr, 4, target), Displacement(addr, 4, target);
            && (e.Some? <==> -0x400_0000 < disp < 0x400_0000)
            && (e.Some? ==>
                  && |e.value| == 2 && e.value[0] < P18 && e.value[1] < P18 && IsBranch(e.value[0])
                     && Code(e.value[0]) == op
                  && Bit(e.value[0], 0x2000) && Destination(e.value, addr) == target)
  {
    Widths();
    var disp := Displacement(addr, 4, target);
    NasSignedInRange(27, disp);
    LongForm(op, NasSigned(27, disp));
    LeadsBack(addr, 4, target);
  }

  lemma {:induction false} ShortForm(op: nat, low: nat)
    requires op < 14 && low < 0x200
    ensures var w := op * 0x200 + low;
            w < 0x2000 && w % 0x200 == low && Code(w) == op && IsBranch(w) && !Bit(w, 0x2000)
  {
  }

  lemma {:induction false} LongForm(op: nat, pattern: nat)
    requires op < 14 && pattern < 0x800_0000
    ensures var w := op * 0x200 + 0x2000 + pattern % 0x200;
            && w < 0x4000 && w % 0x200 == pattern % 0x200 && Code(w) == op && IsBranch(w) && Bit(w, 0x2000)
            && pattern / 0x200 % P18 == pattern / 0x200
            && pattern / 0x200 % P18 * 0x200 + w % 0x200 == pattern
  {
    var w := op * 0x200 + 0x2000 + pattern % 0x200;
    assert w / 0x200 == op + 16;
  }

  lemma {:induction false} NarrowedIs(n: int, k: int, s: int)
    requires n == k * P32 + s && 0 - P32 / 2 <= s < P32 / 2
    ensures Narrowed(n) == s
  {
    DivUnique(n, P32, if s < 0 then k - 1 else k, if s < 0 then s + P32 else s);
  }

  /** A short branch to an address 2^32 beyond its end is accepted, and leads to its
      end. */
  lemma {:induction false} FarShort(op: nat, addr: nat)
    requires op < 14 && addr + 2 + P32 < P64
    ensures var e := Encode(op, addr, 2, addr + 2 + P32); e.Some? && Destination(e.value, addr) == addr + 2
  {
    Widths();
    WrappedUnique(P32, P32);
    NarrowedIs(P32, 1, 0);
    NasSignedZero();
    ShortForm(op, 0);
    WrappedBack(addr + 2);
  }

  lemma {:induction false} NasSignedZero()
    ensures NasSigned(9, P32) == 0 && Sex(9, 0) == 0
  {
    Widths();
    DivUnique(P32, 0x100, P32 / 0x100, 0);
  }

  // ----- the choice of length in pass 1 -------------------------------------------------

  /** i_REL's first pass: the length of a branch whose statement is reached at
      `before`, not yet aligned. A written size decides; else a target that is known and
      far makes it long. */
  function ChosenLength(size: Option<nat>, before: nat, seen: Option<nat>): nat {
    match size
    case Some(osz) => 1 + osz
    case None => if seen.Some? && !Near(before + 2 - seen.value) then 4 else 2
  }

  /** The branch is accepted and leads to its target. */
  predicate Leads(op: nat, addr: nat, ilen: nat, target: nat)
    requires op < 14
  {
    var e := Encode(op, addr, ilen, target);
    && e.Some? && |e.value| >= 1 && (Bit(e.value[0], 0x2000) ==> |e.value| >= 2)
    && Destination(e.value, addr) == target
  }

  predicate InShortRange(addr: nat, target: nat) {
    -256 < Displacement(addr, 2, target) < 256
  }

  predicate InLongRange(addr: nat, target: nat) {
    -0x400_0000 < Displacement(addr, 4, target) < 0x400_0000
  }

  /** Where the guess works: the long form reaches the target, and it is not that
      alignment has moved the branch off an odd address with the target 253 bytes
      below. */
  predicate GuessReaches(before: nat, target: nat) {
    InLongRange(before + before % 2, target) && !(before % 2 == 1 && Displacement(before, 2, target) == -0xFF)
  }

  /** With a target known in pass 1, pass 2 makes a branch to it, in the length
      guessed, exactly there. */
  lemma {:induction false} GuessInRange(op: nat, before: nat, target: nat)
    requires op < 14 && before + 1 < P64 && target < P64
    ensures Leads(op, before + before % 2, ChosenLength(None, before, Some(target)), target)
            <==> GuessReaches(before, target)
  {
    var addr := before + before % 2;
    GuessChosen(before, target);
    LeadsIff(op, addr, 2, target);
    LeadsIff(op, addr, 4, target);
    GuessCases(before, target);
  }

  lemma {:induction false} GuessChosen(before: nat, target: nat)
    ensures ChosenLength(None, before, Some(target)) == if Near(Displacement(before, 2, target)) then 2 else 4
  {
    GuessNear(before, target);
  }

  lemma {:induction false} LeadsIff(op: nat, addr: nat, ilen: nat, target: nat)
    requires op < 14 && (ilen == 2 || ilen == 4) && addr < P64 && target < P64
    ensures Leads(op, addr, ilen, target)
            <==> if ilen == 2 then InShortRange(addr, target) else InLongRange(addr, target)
  {
    RoundTrip(op, addr, ilen, target);
    if ilen == 2 && InShortRange(addr, target) {
      SmallNear(Displacement(addr, 2, target));
    }
  }

  lemma {:induction false} GuessCases(before: nat, target: nat)
    ensures var addr := before + before % 2;
            if Near(Displacement(before, 2, target)) then InShortRange(addr, target) <==> GuessReaches(before, target)
            else InLongRange(addr, target) <==> GuessReaches(before, target)
  {
    var x, addr := before % 2, before + before % 2;
    var d, short, long := Displacement(before, 2, target), Displacement(addr, 2, target),
                          Displacement(addr, 4, target);
    if -0x1000_0000 < d < 0x1000_0000 {
      SmallNear(d);
    }
    if -0x1000_0000 < short < 0x1000_0000 {
      SmallNear(short);
      Further(addr, 2, before, 2, target, x);
      Further(addr, 2, addr, 4, target, -2);
    }
    if InLongRange(addr, target) {
      Further(addr, 4, addr, 2, target, 2);
      Further(addr, 4, before, 2, target, 2 + x);
    }
  }

  /** A target as seen from the ends of two branches. */
  lemma {:induction false} Further(a: nat, i: nat, b: nat, j: nat, target: nat, k: int)
    requires a + i == b + j + k && -0x2000_0000 < Displacement(a, i, target) < 0x2000_0000 && -4 < k < 4
    ensures Displacement(b, j, target) == Displacement(a, i, target) + k
  {
    var d := Displacement(a, i, target);
    SamePattern(k, d, target - (a + i));
    WrappedUnique(target - (b + j), d + k);
  }

  /** Both passes measure one distance. */
  lemma {:induction false} GuessNear(before: nat, target: nat)
    ensures Near(before + 2 - target) <==> Near(Displacement(before, 2, target))
  {
    var m, d := before + 2 - target, Displacement(before, 2, target);
    var j := (m + d) / P64;
    assert m + d == j * P64 by {
      SamePattern(m, d, -m);
      DivUnique(m + d, P64, j, 0);
    }
    var k, s := DivNarrow(d);
    var h := j * P32 - k;
    assert j * P64 == j * P32 * P32;
    if s == 0 - P32 / 2 {
      assert m == (h + 1) * P32 + s;
      NarrowedIs(m, h + 1, s);
    } else {
      assert m == h * P32 - s;
      NarrowedIs(m, h, -s);
    }
    NarrowedIs(d, k, s);
  }

  lemma {:induction false} DivNarrow(d: int) returns (k: int, s: int)
    ensures d == k * P32 + s && 0 - P32 / 2 <= s < P32 / 2
  {
    k, s := d / P32, d % P32;
    if s >= P32 / 2 {
      k, s := k + 1, s - P32;
    }
  }

  lemma {:induction false} SmallNear(d: int)
    requires 0 - P32 / 2 < d < P32 / 2
    ensures Near(d) <==> -256 < d < 256
  {
    NarrowedIs(d, 0, d);
  }

  /** The one near distance that fails, and the prefix > that helps. */
  lemma {:induction false} GuessTooShort(op: nat, before: nat)
    requires op < 14 && before % 2 == 1 && 253 <= before && before + 1 < P64
    ensures ChosenLength(None, before, Some(before - 253)) == 2
    ensures Encode(op, before + 1, 2, before - 253).None?
    ensures Leads(op, before + 1, ChosenLength(Some(3), before, Some(before - 253)), before - 253)
  {
    SmallNear(255);
    WrappedUnique(-256, -256);
    SmallNear(-256);
    WrappedUnique(-258, -258);
    RoundTrip(op, before + 1, 4, before - 253);
  }
}
