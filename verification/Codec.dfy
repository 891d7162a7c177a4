/** The number formats of machine.hh: signed-magnitude integers of any width,
    9-bit bytes, big-endian 18-bit words and 36-bit longs whose two words are
    stored low word first. */
module Codec {

  function Pow2(n: nat): (p: nat)
    ensures p >= 1
  {
    if n == 0 then 1 else 2 * Pow2(n - 1)
  }

  /** The sign bit of a `bits`-wide pattern. */
  function SignBit(bits: nat): (s: nat)
    requires bits >= 1
    ensures 1 <= s && Pow2(bits) == 2 * s
  {
    Pow2(bits - 1)
  }

  const P9: nat := 0x200
  const P18: nat := 0x4_0000
  const P36: nat := 0x10_0000_0000
  const P32: nat := 0x1_0000_0000
  const P64: nat := 0x1_0000_0000_0000_0000

  lemma {:induction false} Widths()
    ensures Pow2(5) == 0x20 && Pow2(6) == 0x40 && Pow2(8) == 0x100 && Pow2(9) == P9
    ensures Pow2(17) == 0x2_0000 && Pow2(18) == P18
    ensures Pow2(26) == 0x400_0000 && Pow2(27) == 0x800_0000
    ensures Pow2(35) == 0x8_0000_0000 && Pow2(36) == P36
  {
    assert Pow2(10) == 0x400;
    assert Pow2(20) == 0x10_0000;
    assert Pow2(30) == 0x4000_0000;
  }

  // ----- bits ---------------------------------------------------------------

  /** Bitwise or. */
  function Or(a: nat, b: nat): (r: nat) {
    if a == 0 then b
    else if b == 0 then a
    else 2 * Or(a / 2, b / 2) + if a % 2 == 1 || b % 2 == 1 then 1 else 0
  }

  /** Where one number has no bits the other shows, below and above. */
  lemma {:induction false} OrBelow(a: nat, b: nat, k: nat)
    requires a % Pow2(k) == 0
    ensures Or(a, b) % Pow2(k) == b % Pow2(k)
    decreases k
  {
    if k > 0 && a > 0 && b > 0 {
      var m := Pow2(k - 1);
      HalfMultiple(a, m);
      OrBelow(a / 2, b / 2, k - 1);
      HalfMod(Or(a, b), m);
      HalfMod(b, m);
    }
  }

  lemma {:induction false} HalfMultiple(a: nat, m: nat)
    requires m > 0 && a % (2 * m) == 0
    ensures a % 2 == 0 && a / 2 % m == 0
  {
    var q := a / (2 * m);
    assert a == 2 * (q * m);
    DivUnique(a / 2, m, q, 0);
  }

  lemma {:induction false} HalfMod(n: nat, m: nat)
    requires m > 0
    ensures n % (2 * m) == 2 * (n / 2 % m) + n % 2
  {
    var q, r := n / 2 / m, n / 2 % m;
    assert n / 2 == q * m + r;
    assert n == q * (2 * m) + (2 * r + n % 2);
    DivUnique(n, 2 * m, q, 2 * r + n % 2);
  }

  lemma {:induction false} OrAbove(a: nat, b: nat, k: nat)
    requires b < Pow2(k)
    ensures Or(a, b) / Pow2(k) == a / Pow2(k)
    decreases k
  {
    if k == 0 {
      assert b == 0;
    } else if b == 0 {
    } else if a == 0 {
      DivUnique(b, Pow2(k), 0, b);
    } else {
      var m := Pow2(k - 1);
      OrAbove(a / 2, b / 2, k - 1);
      OrHalf(a, b);
      HalfDiv(Or(a, b), m);
      HalfDiv(a, m);
    }
  }

  lemma {:induction false} OrHalf(a: nat, b: nat)
    requires a > 0 && b > 0
    ensures Or(a, b) / 2 == Or(a / 2, b / 2)
  {
  }

  lemma {:induction false} HalfDiv(n: nat, m: nat)
    requires m > 0
    ensures n / (2 * m) == n / 2 / m
  {
    var q, r := n / 2 / m, n / 2 % m;
    assert n / 2 == q * m + r;
    assert n == q * (2 * m) + (2 * r + n % 2);
    DivUnique(n, 2 * m, q, 2 * r + n % 2);
  }

  // ----- signed magnitude -------------------------------------------------

  predicate Overflow(bits: nat, n: int)
    requires bits >= 1
  {
    n <= 0 - SignBit(bits) || n >= SignBit(bits)
  }

  /** Bits of a non-negative integer, `b` being a power of two. */
  predicate Bit(n: int, b: int)
    requires b > 0
  {
    (n / b) % 2 == 1
  }

  function SetBit(n: int, b: int): int
    requires b > 0
  {
    if Bit(n, b) then n else n + b
  }

  /** The machine's encoder. The test of a negative `n` against the unsigned
      sign bit never succeeds, so only positive overflow saturates. */
  function Signed(bits: nat, n: int): (r: nat)
    requires bits >= 1
  {
    var sign := SignBit(bits);
    if n < 0 then SetBit(-n, sign)
    else if n >= sign then sign
    else n
  }

  /** The assembler's own encoder, which masks the magnitude instead. */
  function NasSigned(bits: nat, n: int): (r: nat)
    requires bits >= 1
  {
    var sign := SignBit(bits);
    if n < 0 then (-n) % sign + sign else n % sign
  }

  function Unsigned(bits: nat, n: int): (r: nat)
    ensures r < Pow2(bits)
  {
    n % Pow2(bits)
  }

  function Sex(bits: nat, n: nat): (r: int)
    requires bits >= 1
  {
    var sign := SignBit(bits);
    if Bit(n, sign) then -(n - sign) else n
  }

  lemma {:induction false} TopBit(sign: nat, n: nat)
    requires 0 < sign && n < 2 * sign
    ensures Bit(n, sign) <==> n >= sign
  {
    if n < sign {
      assert n / sign == 0;
    } else {
      DivUnique(n, sign, 1, n - sign);
    }
  }

  lemma {:induction false} MulGap(a: int, b: int, d: nat)
    requires a < b
    ensures a * d + d <= b * d
    decreases b - a
  {
    assert (b - 1) * d + d == b * d;
    if a < b - 1 {
      MulGap(a, b - 1, d);
    }
  }

  lemma {:induction false} DivUnique(n: int, d: nat, q: int, r: nat)
    requires r < d && n == q * d + r
    ensures n / d == q && n % d == r
  {
    var q', r' := n / d, n % d;
    assert n == q' * d + r' && 0 <= r' < d;
    if q' > q {
      MulGap(q, q', d);
    } else if q' < q {
      MulGap(q', q, d);
    }
  }

  lemma {:induction false} SexNarrow(bits: nat, n: nat)
    requires bits >= 1 && n < Pow2(bits)
    ensures Sex(bits, n) == if n >= SignBit(bits) then SignBit(bits) - n else n
  {
    TopBit(SignBit(bits), n);
  }

  /** Every integer strictly inside the range of a width survives encoding,
      and so does a negative zero's only alternative spelling. */
  lemma {:induction false} SexSigned(bits: nat, n: int)
    requires bits >= 1
    ensures !Overflow(bits, n) ==> Signed(bits, n) < Pow2(bits) && Sex(bits, Signed(bits, n)) == n
  {
    var sign := SignBit(bits);
    if !Overflow(bits, n) {
      if n < 0 {
        TopBit(sign, -n);
        TopBit(sign, -n + sign);
      } else {
        TopBit(sign, n);
      }
    }
  }

  /** A pattern survives decoding exactly when it is not negative zero. */
  lemma {:induction false} SignedSex(bits: nat, p: nat)
    requires bits >= 1 && p < Pow2(bits)
    ensures !Overflow(bits, Sex(bits, p))
    ensures Signed(bits, Sex(bits, p)) == p <==> p != SignBit(bits)
  {
    var sign := SignBit(bits);
    SexNarrow(bits, p);
    if p > sign {
      TopBit(sign, p - sign);
    }
  }

  /** What a number out of range turns into: a large positive one saturates to
      negative zero, so it never reads back; a negative one keeps all its
      magnitude bits above the field. Reading back is exact precisely in range
      or when the sign bit happens to be absent from the magnitude. */
  lemma {:induction false} SexSignedExact(bits: nat, n: int)
    requires bits >= 1
    ensures Sex(bits, Signed(bits, n)) == n <==> (n < SignBit(bits) && (n < 0 ==> !Bit(-n, SignBit(bits))))
  {
    var sign := SignBit(bits);
    if n >= sign {
      TopBit(sign, sign);
    } else if n >= 0 {
      TopBit(sign, n);
    } else if !Bit(-n, sign) {
      BitFlip(-n, sign);
    }
  }

  lemma {:induction false} BitFlip(n: nat, b: nat)
    requires 0 < b && !Bit(n, b)
    ensures Bit(n + b, b)
  {
    var q, r := n / b, n % b;
    assert n + b == (q + 1) * b + r;
    DivUnique(n + b, b, q + 1, r);
  }

  /** Multiples of 2b above do not show in bit b. */
  lemma {:induction false} BitAbove(q: nat, b: nat, e: nat)
    requires b > 0
    ensures Bit(q * (2 * b) + e, b) == Bit(e, b)
  {
    var h, r := e / b, e % b;
    assert q * (2 * b) == (2 * q) * b;
    assert q * (2 * b) + e == (2 * q + h) * b + r;
    DivUnique(q * (2 * b) + e, b, 2 * q + h, r);
  }

  /** The assembler's encoder always fits its field, and reads back exactly in
      range. */
  lemma {:induction false} NasSignedInRange(bits: nat, n: int)
    requires bits >= 1
    ensures NasSigned(bits, n) < Pow2(bits)
    ensures Sex(bits, NasSigned(bits, n)) == n <==> !Overflow(bits, n)
  {
    var sign := SignBit(bits);
    var m := if n < 0 then -n else n;
    var r := m % sign;
    assert 0 <= r < sign;
    SexNarrow(bits, if n < 0 then r + sign else r);
    if m < sign {
      DivUnique(m, sign, 0, m);
    }
  }

  // ----- bytes, words and longs ------------------------------------------

  type Byte = b: int | 0 <= b < P9

  function Uw(b: seq<Byte>, p: nat): (r: nat)
    requires p + 2 <= |b|
    ensures r < P18
  {
    b[p] * P9 + b[p + 1]
  }

  function Ul(b: seq<Byte>, p: nat): (r: nat)
    requires p + 4 <= |b|
    ensures r < P36
  {
    Uw(b, p) + Uw(b, p + 2) * P18
  }

  function WordBytes(n: int): (w: seq<Byte>)
    ensures |w| == 2
  {
    [(n / P9) % P9, n % P9]
  }

  function LongBytes(n: int): (w: seq<Byte>)
    ensures |w| == 4
  {
    WordBytes(n) + WordBytes(n / P18)
  }

  /** A word store and load agree modulo 2^18, a long store and load modulo
      2^36, wherever the bytes are placed. */
  lemma {:induction false} WordRoundTrip(n: int, pre: seq<Byte>, post: seq<Byte>)
    ensures Uw(pre + WordBytes(n) + post, |pre|) == n % P18
  {
    var b := pre + WordBytes(n) + post;
    assert b[|pre|] == (n / P9) % P9 && b[|pre| + 1] == n % P9;
  }

  lemma {:induction false} LongRoundTrip(n: int, pre: seq<Byte>, post: seq<Byte>)
    ensures Ul(pre + LongBytes(n) + post, |pre|) == n % P36
  {
    var b := pre + LongBytes(n) + post;
    assert b == pre + WordBytes(n) + (WordBytes(n / P18) + post);
    WordRoundTrip(n, pre, WordBytes(n / P18) + post);
    assert b == (pre + WordBytes(n)) + WordBytes(n / P18) + post;
    WordRoundTrip(n / P18, pre + WordBytes(n), post);
    assert Ul(b, |pre|) == n % P18 + (n / P18) % P18 * P18;
  }
}
