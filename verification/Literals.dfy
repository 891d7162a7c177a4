/** Data directives of nas/nas.cc and the machine's readers of what they emit. */
module Literals {
  import opened Codec

  /** DW, DL and DA, one operand each: a word, a long as two words, and a segment
      number followed by a long. */
  function DwBytes(v: int): (b: seq<Byte>)
    ensures |b| == 2
  {
    WordBytes(NasSigned(18, v))
  }

  function DlBytes(v: int): (b: seq<Byte>)
    ensures |b| == 4
  {
    var n := NasSigned(36, v);
    WordBytes(n) + WordBytes(n / P18)
  }

  function DaBytes(segno: nat, v: int): (b: seq<Byte>)
    ensures |b| == 6
  {
    WordBytes(segno) + WordBytes(v) + WordBytes(v / P18)
  }

  /** One number of DB: a sign bit is added to the magnitude, of which nine bits
      are kept, a positive number keeps eight. */
  function DbByte(v: int): Byte {
    if v < 0 then SetBit(-v, 0x100) % P9 else v % 0x100
  }

  function Words(vs: seq<int>): (b: seq<Byte>)
    ensures |b| == 2 * |vs|
  {
    if |vs| == 0 then [] else DwBytes(vs[0]) + Words(vs[1..])
  }

  function Longs(vs: seq<int>): (b: seq<Byte>)
    ensures |b| == 4 * |vs|
  {
    if |vs| == 0 then [] else DlBytes(vs[0]) + Longs(vs[1..])
  }

  function Addresses(vs: seq<(nat, int)>): (b: seq<Byte>)
    ensures |b| == 6 * |vs|
  {
    if |vs| == 0 then [] else DaBytes(vs[0].0, vs[0].1) + Addresses(vs[1..])
  }

  function Numbers(vs: seq<int>): (b: seq<Byte>)
    ensures |b| == |vs|
  {
    seq(|vs|, i requires 0 <= i < |vs| => DbByte(vs[i]))
  }

  lemma {:induction false} Nested(pre: seq<Byte>, a: seq<Byte>, b: seq<Byte>, post: seq<Byte>)
    ensures pre + (a + b) + post == (pre + a) + b + post == pre + a + (b + post)
  {
  }

  lemma {:induction false} WordAt(vs: seq<int>, i: nat, pre: seq<Byte>, post: seq<Byte>)
    requires i < |vs|
    ensures Uw(pre + Words(vs) + post, |pre| + 2 * i) == NasSigned(18, vs[i])
    decreases i
  {
    var first, rest := DwBytes(vs[0]), Words(vs[1..]);
    Nested(pre, first, rest, post);
    if i == 0 {
      Widths();
      NasSignedInRange(18, vs[0]);
      WordRoundTrip(NasSigned(18, vs[0]), pre, rest + post);
    } else {
      WordAt(vs[1..], i - 1, pre + first, post);
    }
  }

  lemma {:induction false} OneLong(v: int, pre: seq<Byte>, post: seq<Byte>)
    ensures Ul(pre + DlBytes(v) + post, |pre|) == NasSigned(36, v)
  {
    var n := NasSigned(36, v);
    NasSignedInRange(36, v);
    Widths();
    LongRoundTrip(n, pre, post);
    assert DlBytes(v) == LongBytes(n);
  }

  lemma {:induction false} LongAt(vs: seq<int>, i: nat, pre: seq<Byte>, post: seq<Byte>)
    requires i < |vs|
    ensures Ul(pre + Longs(vs) + post, |pre| + 4 * i) == NasSigned(36, vs[i])
    decreases i
  {
    var first, rest := DlBytes(vs[0]), Longs(vs[1..]);
    Nested(pre, first, rest, post);
    if i == 0 {
      OneLong(vs[0], pre, rest + post);
    } else {
      LongAt(vs[1..], i - 1, pre + first, post);
    }
  }

  /** Words of DW, wherever they are placed, read back as the numbers written
      exactly when these are in range. */
  lemma {:induction false} WordsReadBack(vs: seq<int>, i: nat, pre: seq<Byte>, post: seq<Byte>)
    requires i < |vs|
    ensures Sex(18, Uw(pre + Words(vs) + post, |pre| + 2 * i)) == vs[i] <==> !Overflow(18, vs[i])
  {
    WordAt(vs, i, pre, post);
    NasSignedInRange(18, vs[i]);
  }

  /** Longs of DL read back exactly in range, although their words are stored low
      word first and the bytes of a word high byte first. */
  lemma {:induction false} LongsReadBack(vs: seq<int>, i: nat, pre: seq<Byte>, post: seq<Byte>)
    requires i < |vs|
    ensures Sex(36, Ul(pre + Longs(vs) + post, |pre| + 4 * i)) == vs[i] <==> !Overflow(36, vs[i])
  {
    LongAt(vs, i, pre, post);
    NasSignedInRange(36, vs[i]);
  }

  /** DA as the segment-address reader finds it: the word first, then the long. */
  lemma {:induction false} AddressesReadBack(vs: seq<(nat, int)>, i: nat, pre: seq<Byte>, post: seq<Byte>)
    requires i < |vs|
    ensures var b, p := pre + Addresses(vs) + post, |pre| + 6 * i;
            && Uw(b, p) == vs[i].0 % P18 && Ul(b, p + 2) == vs[i].1 % P36
            && (0 <= vs[i].1 < P36 <==> Ul(b, p + 2) == vs[i].1)
    decreases i
  {
    var first, rest := DaBytes(vs[0].0, vs[0].1), Addresses(vs[1..]);
    Nested(pre, first, rest, post);
    if i == 0 {
      var w, l := WordBytes(vs[0].0), LongBytes(vs[0].1);
      assert first == w + l;
      Nested(pre, w, l, rest + post);
      WordRoundTrip(vs[0].0, pre, l + (rest + post));
      LongRoundTrip(vs[0].1, pre + w, rest + post);
    } else {
      AddressesReadBack(vs[1..], i - 1, pre + first, post);
    }
  }

  /** Bytes of DB keep their sign and eight bits of magnitude. */
  lemma {:induction false} NumbersReadBack(vs: seq<int>, i: nat)
    requires i < |vs|
    ensures Sex(9, Numbers(vs)[i]) == vs[i] <==> !Overflow(9, vs[i])
  {
    Widths();
    var v := vs[i];
    var m := if v < 0 then -v else v;
    SexNarrow(9, DbByte(v));
    var q, r := m / 0x100, m % 0x100;
    assert m == q * 0x100 + r;
    if v < 0 {
      ByteSign(m);
    }
  }

  lemma {:induction false} ByteSign(m: nat)
    ensures SetBit(m, 0x100) % P9 == m % 0x100 + 0x100
  {
    var q, r := m / P9, m % P9;
    assert m == q * P9 + r;
    TopBit(0x100, r);
    if r >= 0x100 {
      DivUnique(m, 0x100, 2 * q + 1, r - 0x100);
    } else {
      DivUnique(m, 0x100, 2 * q, r);
      DivUnique(m + 0x100, P9, q, r + 0x100);
    }
  }
}
