/** Octal numerals as the formatter of nas/nas.cc writes them, and the input
    streams object.cc reads them back with. */
module Octal {
  import opened Kernel

  predicate IsDigit(c: char) {
    '0' <= c <= '7'
  }

  predicate AllDigits(s: string) {
    forall i :: 0 <= i < |s| ==> IsDigit(s[i])
  }

  function Digits(n: nat): (s: string)
    ensures |s| > 0 && AllDigits(s)
  {
    if n < 8 then ['0' + n as char] else Digits(n / 8) + ['0' + (n % 8) as char]
  }

  function Number(s: string): nat
    requires AllDigits(s)
  {
    if |s| == 0 then 0 else 8 * Number(s[..|s| - 1]) + (s[|s| - 1] - '0') as nat
  }

  function Fill(c: char, k: nat): (s: string)
    ensures |s| == k && forall i :: 0 <= i < k ==> s[i] == c
  {
    seq(k, i => c)
  }

  function Padding(w: nat, s: string): nat {
    if |s| < w then w - |s| else 0
  }

  /** The formats `{:0wo}` and `{:wo}`. */
  function Zeros(w: nat, n: nat): (s: string)
    ensures |s| > 0 && AllDigits(s)
  {
    Fill('0', Padding(w, Digits(n))) + Digits(n)
  }

  function Blanks(w: nat, n: nat): string {
    Fill(' ', Padding(w, Digits(n))) + Digits(n)
  }

  lemma {:induction false} NumberDigits(n: nat)
    ensures Number(Digits(n)) == n
  {
    if n >= 8 {
      NumberDigits(n / 8);
      assert Digits(n)[..|Digits(n)| - 1] == Digits(n / 8);
    }
  }

  lemma {:induction false} NumberPadded(z: string, s: string)
    requires AllDigits(s) && forall i :: 0 <= i < |z| ==> z[i] == '0'
    ensures AllDigits(z + s) && Number(z + s) == Number(s)
    decreases |z| + |s|
  {
    if |s| > 0 {
      NumberPadded(z, s[..|s| - 1]);
      assert (z + s)[..|z + s| - 1] == z + s[..|s| - 1];
    } else if |z| > 0 {
      NumberPadded(z[..|z| - 1], s);
      assert (z + s)[..|z + s| - 1] == z[..|z| - 1] + s;
    }
  }

  lemma {:induction false} NumberZeros(w: nat, n: nat)
    ensures Number(Zeros(w, n)) == n
  {
    NumberDigits(n);
    NumberPadded(Fill('0', Padding(w, Digits(n))), Digits(n));
  }

  // ----- reading ---------------------------------------------------------------------

  /** An input stream: the characters left and its two failure bits. */
  datatype Stream = Stream(rest: string, eof: bool, fail: bool)

  function On(s: string): Stream {
    Stream(s, false, false)
  }

  predicate Good(st: Stream) {
    !st.eof && !st.fail
  }

  predicate Space(c: char) {
    c == ' ' || '\t' <= c <= '\r'
  }

  function Skip(s: string): (t: string)
    ensures |t| <= |s|
    ensures |t| > 0 ==> !Space(t[0])
  {
    if |s| > 0 && Space(s[0]) then Skip(s[1..]) else s
  }

  /** The length of the leading run of octal digits, or of non-blanks. */
  function DigitSpan(s: string): (k: nat)
    ensures k <= |s| && AllDigits(s[..k])
  {
    if |s| > 0 && IsDigit(s[0]) then
      var k := 1 + DigitSpan(s[1..]);
      assert s[..k] == [s[0]] + s[1..][..k - 1];
      k
    else 0
  }

  function WordSpan(s: string): (k: nat)
    ensures k <= |s|
  {
    if |s| > 0 && !Space(s[0]) then 1 + WordSpan(s[1..]) else 0
  }

  /** Extraction of an octal number into a variable holding `was`, of a type that
      goes up to `limit`: nothing left leaves it alone, no digit makes it 0, too
      large a number makes it the largest. */
  function ReadNumber(st: Stream, was: nat, limit: nat): (r: (nat, Stream))
    requires limit > 0
    ensures Good(r.1) ==> |r.1.rest| < |st.rest|
  {
    if Good(st) then Extract(Skip(st.rest), was, limit) else (was, st.(fail := true))
  }

  function Extract(t: string, was: nat, limit: nat): (r: (nat, Stream))
    requires limit > 0
    ensures Good(r.1) ==> |r.1.rest| < |t|
  {
    var k := DigitSpan(t);
    if |t| == 0 then (was, Stream("", true, true))
    else if k == 0 then (0, Stream(t, false, true))
    else
      var n := Number(t[..k]);
      (if n < limit then n else limit - 1, Stream(t[k..], k == |t|, n >= limit))
  }

  function ReadChar(st: Stream): (Option<char>, Stream) {
    if !Good(st) then (None, st.(fail := true))
    else
      var t := Skip(st.rest);
      if |t| == 0 then (None, Stream("", true, true)) else (Some(t[0]), On(t[1..]))
  }

  function ReadWord(st: Stream): (string, Stream) {
    if !Good(st) then ("", st.(fail := true))
    else
      var t := Skip(st.rest);
      var k := WordSpan(t);
      if |t| == 0 then ("", Stream("", true, true)) else (t[..k], Stream(t[k..], k == |t|, false))
  }

  predicate Blank(s: string) {
    forall i :: 0 <= i < |s| ==> s[i] == ' '
  }

  lemma {:induction false} SkipBlanks(lead: string, s: string)
    requires Blank(lead) && (|s| > 0 ==> !Space(s[0]))
    ensures Skip(lead + s) == s
    decreases |lead|
  {
    if |lead| == 0 {
      assert lead + s == s;
    } else {
      assert (lead + s)[1..] == lead[1..] + s;
      SkipBlanks(lead[1..], s);
    }
  }

  lemma {:induction false} SpanDigits(ds: string, tail: string)
    requires AllDigits(ds) && (|tail| > 0 ==> !IsDigit(tail[0]))
    ensures DigitSpan(ds + tail) == |ds|
    decreases |ds|
  {
    if |ds| == 0 {
      assert ds + tail == tail;
    } else {
      assert (ds + tail)[1..] == ds[1..] + tail;
      SpanDigits(ds[1..], tail);
    }
  }

  lemma {:induction false} SpanWord(w: string)
    requires forall i :: 0 <= i < |w| ==> !Space(w[i])
    ensures WordSpan(w) == |w|
    decreases |w|
  {
    if |w| > 0 {
      SpanWord(w[1..]);
    }
  }

  lemma {:induction false} ExtractNumeral(ds: string, tail: string, was: nat, limit: nat)
    requires AllDigits(ds) && |ds| > 0 && (|tail| > 0 ==> !IsDigit(tail[0])) && Number(ds) < limit
    ensures Extract(ds + tail, was, limit) == (Number(ds), Stream(tail, |tail| == 0, false))
  {
    SpanDigits(ds, tail);
    assert (ds + tail)[..|ds|] == ds && (ds + tail)[|ds|..] == tail;
  }

  lemma {:induction false} Regroup<T>(a: seq<T>, b: seq<T>, c: seq<T>)
    ensures a + b + c == a + (b + c)
  {
  }

  lemma {:induction false} ReadNumeral(lead: string, ds: string, tail: string, was: nat, limit: nat)
    requires Blank(lead) && AllDigits(ds) && |ds| > 0 && (|tail| > 0 ==> !IsDigit(tail[0]))
    requires Number(ds) < limit
    ensures ReadNumber(On(lead + ds + tail), was, limit) == (Number(ds), Stream(tail, |tail| == 0, false))
  {
    Regroup(lead, ds, tail);
    ExtractNumeral(ds, tail, was, limit);
    SkipBlanks(lead, ds + tail);
  }

  /** Both formats read back, whatever blanks come before and whatever but a digit
      comes after. */
  lemma {:induction false} ReadZeros(lead: string, w: nat, n: nat, tail: string, was: nat, limit: nat)
    requires Blank(lead) && (|tail| > 0 ==> !IsDigit(tail[0])) && n < limit
    ensures ReadNumber(On(lead + Zeros(w, n) + tail), was, limit) == (n, Stream(tail, |tail| == 0, false))
  {
    NumberZeros(w, n);
    ReadNumeral(lead, Zeros(w, n), tail, was, limit);
  }

  lemma {:induction false} ReadBlanks(w: nat, n: nat, tail: string, was: nat, limit: nat)
    requires (|tail| > 0 ==> !IsDigit(tail[0])) && n < limit
    ensures ReadNumber(On(Blanks(w, n) + tail), was, limit) == (n, Stream(tail, |tail| == 0, false))
  {
    NumberDigits(n);
    ReadNumeral(Fill(' ', Padding(w, Digits(n))), Digits(n), tail, was, limit);
  }

  lemma {:induction false} ReadName(w: string)
    requires forall i :: 0 <= i < |w| ==> !Space(w[i])
    ensures ReadWord(On(" " + w)).0 == w
  {
    SkipBlanks(" ", w);
    SpanWord(w);
    assert w[..|w|] == w;
  }
}
