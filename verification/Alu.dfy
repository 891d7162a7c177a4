/** Condition codes and arithmetic of cpu.cc: signed-magnitude ADD, the comparison
    and the branches that read it, and chains of ADC and SBC. */
module Alu {
  import opened Codec

  datatype Flags = Flags(z: bool, c: bool, v: bool, n: bool)

  predicate Carry(bits: nat, v: int) {
    v < 0 || v >= Pow2(bits)
  }

  /** utest: flags of an unsigned result. */
  function Utest(bits: nat, v: int): Flags
    requires bits >= 1
  {
    Flags(v == 0, Carry(bits, v), v == SignBit(bits), Bit(v, SignBit(bits)))
  }

  /** stest: flags of a signed result. */
  function Stest(bits: nat, v: int): Flags
    requires bits >= 1
  {
    Flags(v == 0, Carry(bits, v), Overflow(bits, v), v < 0)
  }

  /** The two stores into a data register. */
  function Uwrite(n: int): (nat, Flags) {
    (Unsigned(36, n), Utest(36, n))
  }

  function Swrite(n: int): (nat, Flags) {
    (Signed(36, n), Stest(36, n))
  }

  // ----- ADD -----------------------------------------------------------------------

  /** ADD on register data `x` and argument `y`. */
  function Add(x: nat, y: nat): (nat, Flags) {
    Swrite(Sex(36, x) + Sex(36, y))
  }

  /** SUB, whose flags but for N are then those of CMP. */
  function Sub(x: nat, y: nat): (nat, Flags) {
    var (r, f) := Swrite(Sex(36, x) - Sex(36, y));
    (r, Cmp(x, y, f.n))
  }

  /** ADD stores the exact sum precisely when V is clear, and V is set precisely
      when the sum is out of range; the stored pattern is never negative zero
      then. */
  lemma {:induction false} AddExact(x: nat, y: nat)
    requires x < P36 && y < P36
    ensures var (r, f) := Add(x, y);
            var sum := Sex(36, x) + Sex(36, y);
            && (f.v <==> !(-0x8_0000_0000 < sum < 0x8_0000_0000)) && (f.c <==> sum < 0)
            && (Sex(36, r) == sum <==> !f.v)
            && (!f.v ==> r < P36 && r != 0x8_0000_0000 && (f.n <==> sum < 0) && (f.z <==> sum == 0))
  {
    Widths();
    var sum := Sex(36, x) + Sex(36, y);
    SexNarrow(36, x);
    SexNarrow(36, y);
    SexSignedExact(36, sum);
    SexSigned(36, sum);
    if sum < 0 {
      TopBit(0x8_0000_0000, -sum);
    }
  }

  /** SUB stores the exact difference precisely when it is in range, though no flag says
      so; N tells its sign in any case. */
  lemma {:induction false} SubExact(x: nat, y: nat)
    requires x < P36 && y < P36
    ensures var (r, f) := Sub(x, y);
            var diff := Sex(36, x) - Sex(36, y);
            && (Sex(36, r) == diff <==> -0x8_0000_0000 < diff < 0x8_0000_0000)
            && (-0x8_0000_0000 < diff < 0x8_0000_0000 ==> r < P36 && r != 0x8_0000_0000)
            && (f.n <==> diff < 0)
  {
    Widths();
    var diff := Sex(36, x) - Sex(36, y);
    SexNarrow(36, x);
    SexNarrow(36, y);
    SexSignedExact(36, diff);
    SexSigned(36, diff);
    if diff < 0 {
      TopBit(0x8_0000_0000, -diff);
    }
  }

  /** A branch after SUB decides the order of its operands, neither being negative zero;
      BMI, and not BLT alone, then means less. */
  lemma {:induction false} SubDecides(x: nat, y: nat, b: Condition)
    requires x < P36 && y < P36 && x != NEGZERO && y != NEGZERO
    ensures Taken(b, Sub(x, y).1) <==> Means(b, x, y, Sex(36, x) < Sex(36, y))
  {
    CompareDecides(x, y, Sex(36, x) < Sex(36, y), b);
    SubExact(x, y);
  }

  // ----- CMP and the branches ---------------------------------------------------------

  /** CMP of register pattern `x` with argument `y`; N is not touched. */
  function Cmp(x: nat, y: nat, n: bool): Flags {
    var sx, sy := Sex(36, x), Sex(36, y);
    Flags(if x == sx then x == y else sx == sy, y > x, sy > sx, n)
  }

  datatype Condition = BEQ | BNE | BLO | BHS | BLS | BHI | BMI | BPL | BLT | BGE | BLE | BGT

  predicate Taken(b: Condition, f: Flags) {
    match b
    case BEQ => f.z
    case BNE => !f.z
    case BLO => f.c
    case BHS => !f.c
    case BLS => f.z || f.c
    case BHI => !f.z && !f.c
    case BMI => f.n
    case BPL => !f.n
    case BLT => f.v
    case BGE => !f.v
    case BLE => f.v || f.z
    case BGT => !f.v && !f.z
  }

  /** The order a branch stands for, between the numbers the patterns denote. */
  predicate Means(b: Condition, x: nat, y: nat, n: bool) {
    var sx, sy := Sex(36, x), Sex(36, y);
    match b
    case BEQ => sx == sy
    case BNE => sx != sy
    case BLO => x < y
    case BHS => x >= y
    case BLS => x <= y
    case BHI => x > y
    case BMI => n
    case BPL => !n
    case BLT => sx < sy
    case BGE => sx >= sy
    case BLE => sx <= sy
    case BGT => sx > sy
  }

  const NEGZERO: nat := 0x8_0000_0000

  /** CMP followed by any branch decides the order of its operands, signed and
      unsigned, whenever neither is negative zero. */
  lemma {:induction false} CompareDecides(x: nat, y: nat, n: bool, b: Condition)
    requires x < P36 && y < P36 && x != NEGZERO && y != NEGZERO
    ensures Taken(b, Cmp(x, y, n)) <==> Means(b, x, y, n)
  {
    Widths();
    SexNarrow(36, x);
    SexNarrow(36, y);
  }

  /** With negative zero admitted, Z still tells whether the two numbers are equal
      except in one case: zero compared with negative zero. The comparison is not
      symmetric. */
  lemma {:induction false} EqualityExactly(x: nat, y: nat, n: bool)
    requires x < P36 && y < P36
    ensures (Cmp(x, y, n).z <==> Sex(36, x) == Sex(36, y)) <==> !(x == 0 && y == NEGZERO)
  {
    Widths();
    SexNarrow(36, x);
    SexNarrow(36, y);
  }

  // ----- flags of a pattern -----------------------------------------------------------

  /** The flags of an unsigned result: C if it does not fit 36 bits, and then it is
      stored without what is above them; else Z, N and V tell whether the pattern is
      zero, has its sign bit, and is negative zero. */
  lemma {:induction false} PatternFlags(n: int)
    ensures var (r, f) := Uwrite(n);
            && (f.c <==> !(0 <= n < P36)) && r == n % P36
            && (!f.c ==> r == n && (f.z <==> r == 0) && (f.n <==> r >= NEGZERO) && (f.v <==> r == NEGZERO))
  {
    Widths();
    if 0 <= n < P36 {
      TopBit(NEGZERO, n);
    }
  }

  // ----- multiple precision --------------------------------------------------------------

  /** ADC and SBC on 36-bit patterns: result and flags. */
  function Adc(x: nat, y: nat, c: bool): (nat, Flags) {
    Uwrite(x + y + if c then 1 else 0)
  }

  function Sbc(x: nat, y: nat, c: bool): (nat, Flags) {
    Uwrite(x - y - if c then 1 else 0)
  }

  /** Longs, least significant first. */
  predicate Longs(xs: seq<nat>) {
    forall i :: 0 <= i < |xs| ==> xs[i] < P36
  }

  function Value(xs: seq<nat>): nat {
    if |xs| == 0 then 0 else xs[0] + P36 * Value(xs[1..])
  }

  function Radix(k: nat): (r: nat)
    ensures r >= 1
  {
    if k == 0 then 1 else P36 * Radix(k - 1)
  }

  /** A chain of ADC (or SBC) instructions over |xs| longs. */
  function Chain(xs: seq<nat>, ys: seq<nat>, c: bool, sub: bool): (seq<nat>, bool)
    requires |xs| == |ys|
  {
    if |xs| == 0 then ([], c)
    else
      var (r, f) := if sub then Sbc(xs[0], ys[0], c) else Adc(xs[0], ys[0], c);
      var (rest, c') := Chain(xs[1..], ys[1..], f.c, sub);
      ([r] + rest, c')
  }

  function AsInt(c: bool): int {
    if c then 1 else 0
  }

  /** Keeping 36 bits of a number just outside the range. */
  lemma {:induction false} Wrap(n: int)
    requires 0 - P36 <= n < 2 * P36
    ensures Unsigned(36, n) == if n < 0 then n + P36 else if n < P36 then n else n - P36
    ensures Carry(36, n) <==> n < 0 || n >= P36
  {
    Widths();
    DivUnique(n, P36, if n < 0 then -1 else if n < P36 then 0 else 1,
              if n < 0 then n + P36 else if n < P36 then n else n - P36);
  }

  lemma {:induction false} Step(x: nat, y: nat, c: bool)
    requires x < P36 && y < P36
    ensures var (r, f) := Adc(x, y, c); r < P36 && r + P36 * AsInt(f.c) == x + y + AsInt(c)
    ensures var (r, f) := Sbc(x, y, c); r < P36 && r - P36 * AsInt(f.c) == x - y - AsInt(c)
  {
    Wrap(x + y + AsInt(c));
    Wrap(x - y - AsInt(c));
  }

  /** What one more long adds to both sides. */
  lemma {:induction false} Digit(r: nat, rest: seq<nat>, x: nat, xs: seq<nat>, k: nat, c: bool)
    ensures Value([r] + rest) == r + P36 * Value(rest) && Value([x] + xs) == x + P36 * Value(xs)
    ensures Radix(k + 1) * AsInt(c) == P36 * (Radix(k) * AsInt(c))
  {
    assert ([r] + rest)[1..] == rest && ([x] + xs)[1..] == xs;
  }

  lemma {:induction false} SumChain(xs: seq<nat>, ys: seq<nat>, c: bool)
    requires |xs| == |ys| && Longs(xs) && Longs(ys)
    ensures var (rs, c') := Chain(xs, ys, c, false);
            && |rs| == |xs| && Longs(rs)
            && Value(rs) + Radix(|xs|) * AsInt(c') == Value(xs) + Value(ys) + AsInt(c)
    decreases |xs|
  {
    if |xs| > 0 {
      Step(xs[0], ys[0], c);
      var (r, f) := Adc(xs[0], ys[0], c);
      var (rest, c') := Chain(xs[1..], ys[1..], f.c, false);
      SumChain(xs[1..], ys[1..], f.c);
      Digit(r, rest, xs[0], xs[1..], |xs| - 1, c');
    }
  }

  lemma {:induction false} DifferenceChain(xs: seq<nat>, ys: seq<nat>, c: bool)
    requires |xs| == |ys| && Longs(xs) && Longs(ys)
    ensures var (rs, c') := Chain(xs, ys, c, true);
            && |rs| == |xs| && Longs(rs)
            && Value(rs) - Radix(|xs|) * AsInt(c') == Value(xs) - Value(ys) - AsInt(c)
    decreases |xs|
  {
    if |xs| > 0 {
      Step(xs[0], ys[0], c);
      var (r, f) := Sbc(xs[0], ys[0], c);
      var (rest, c') := Chain(xs[1..], ys[1..], f.c, true);
      DifferenceChain(xs[1..], ys[1..], f.c);
      Digit(r, rest, xs[0], xs[1..], |xs| - 1, c');
    }
  }

  lemma {:induction false} ValueBound(xs: seq<nat>)
    requires Longs(xs)
    ensures Value(xs) < Radix(|xs|)
    decreases |xs|
  {
    if |xs| > 0 {
      ValueBound(xs[1..]);
    }
  }

  /** A chain over k longs computes the exact sum or difference modulo 2^(36k), and
      its last carry is the carry or borrow out. */
  lemma {:induction false} ChainExact(xs: seq<nat>, ys: seq<nat>, c: bool)
    requires |xs| == |ys| && Longs(xs) && Longs(ys)
    ensures var (rs, c') := Chain(xs, ys, c, false);
            var sum := Value(xs) + Value(ys) + AsInt(c);
            Value(rs) == sum % Radix(|xs|) && AsInt(c') == sum / Radix(|xs|)
    ensures var (rs, c') := Chain(xs, ys, c, true);
            var diff := Value(xs) - Value(ys) - AsInt(c);
            Value(rs) == diff % Radix(|xs|) && (c' <==> diff < 0)
  {
    AddChain(xs, ys, c);
    SubChain(xs, ys, c);
  }

  lemma {:induction false} AddChain(xs: seq<nat>, ys: seq<nat>, c: bool)
    requires |xs| == |ys| && Longs(xs) && Longs(ys)
    ensures var (rs, c') := Chain(xs, ys, c, false);
            var sum := Value(xs) + Value(ys) + AsInt(c);
            Value(rs) == sum % Radix(|xs|) && AsInt(c') == sum / Radix(|xs|)
  {
    var (rs, c') := Chain(xs, ys, c, false);
    SumChain(xs, ys, c);
    ValueBound(rs);
    var r := Radix(|xs|);
    assert r * AsInt(c') == AsInt(c') * r;
    DivUnique(Value(xs) + Value(ys) + AsInt(c), r, AsInt(c'), Value(rs));
  }

  lemma {:induction false} SubChain(xs: seq<nat>, ys: seq<nat>, c: bool)
    requires |xs| == |ys| && Longs(xs) && Longs(ys)
    ensures var (rs, c') := Chain(xs, ys, c, true);
            var diff := Value(xs) - Value(ys) - AsInt(c);
            Value(rs) == diff % Radix(|xs|) && (c' <==> diff < 0)
  {
    var (rs, b) := Chain(xs, ys, c, true);
    DifferenceChain(xs, ys, c);
    ValueBound(rs);
    Borrow(Value(xs) - Value(ys) - AsInt(c), Value(rs), Radix(|xs|), b);
  }

  /** A remainder reached by adding the modulus at most once. */
  lemma {:induction false} Borrow(diff: int, v: nat, r: nat, b: bool)
    requires v < r && v - r * AsInt(b) == diff
    ensures v == diff % r && (b <==> diff < 0)
  {
    if b {
      DivUnique(diff, r, -1, v);
    } else {
      DivUnique(diff, r, 0, v);
    }
  }
}
