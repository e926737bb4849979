/** The driver's UTF-8 decoder and encoder, and how they relate to RFC 3629. */
module Utf8 {
  import opened UnicodeTables

  type Byte = b: int | 0 <= b < 0x100

  datatype Unit = Bad | Char(uc: int, size: nat)

  datatype Decoded = Malformed | Text(chars: seq<int>)

  predicate Tail(b: Byte) { 0x80 <= b < 0xC0 }

  // Masks and shifts, written on non-negative integers.

  function Low6(n: nat): (r: nat) ensures r < 0x40 { n % 0x40 }

  function Low5(n: nat): (r: nat) ensures r < 0x20 { n % 0x20 }

  function Low4(n: nat): (r: nat) ensures r < 0x10 { n % 0x10 }

  function Low3(n: nat): (r: nat) ensures r < 0x08 { n % 0x08 }

  function Shr6(n: nat): (r: nat) ensures r * 0x40 <= n < r * 0x40 + 0x40 { n / 0x40 }

  function Shr12(n: nat): (r: nat) ensures r * 0x1000 <= n < r * 0x1000 + 0x1000 { n / 0x1000 }

  function Shr18(n: nat): (r: nat) ensures r * 0x40000 <= n < r * 0x40000 + 0x40000 { n / 0x40000 }

  /** The first character of a non-empty buffer. Overlong forms and surrogates are accepted. */
  function DecodeUnit(b: seq<Byte>): (u: Unit)
    requires b != []
    ensures u.Char? ==> 0 < u.size <= |b| && CodePoint(u.uc)
  {
    var c := b[0];
    if c < 0x80 then Char(c, 1)
    else if c < 0xC0 then Bad
    else if c < 0xE0 then
      if 1 < |b| && Tail(b[1]) then Char(Low5(c) * 0x40 + Low6(b[1]), 2) else Bad
    else if c < 0xF0 then
      if 2 < |b| && Tail(b[1]) && Tail(b[2]) then
        Char(Low4(c) * 0x1000 + Low6(b[1]) * 0x40 + Low6(b[2]), 3)
      else Bad
    else if c < 0xF8 then
      if 3 < |b| && Tail(b[1]) && Tail(b[2]) && Tail(b[3]) then
        var uc := Low3(c) * 0x40000 + Low6(b[1]) * 0x1000 + Low6(b[2]) * 0x40 + Low6(b[3]);
        if uc > MAX_CODE_POINT then Bad else Char(uc, 4)
      else Bad
    else Bad
  }

  function Decode(b: seq<Byte>): (d: Decoded)
    decreases |b|
  {
    if b == [] then Text([])
    else
      match DecodeUnit(b)
      case Bad => Malformed
      case Char(uc, n) =>
        match Decode(b[n..])
        case Malformed => Malformed
        case Text(chars) => Text([uc] + chars)
  }

  /** The bytes of one character; beyond 0x1FFFFF the encoder writes nothing. */
  function EncodeChar(c: nat): (b: seq<Byte>) {
    if c <= 0x7F then [c]
    else if c <= 0x7FF then [Shr6(c) + 0xC0, Low6(c) + 0x80]
    else if c <= 0xFFFF then [Shr12(c) + 0xE0, Low6(Shr6(c)) + 0x80, Low6(c) + 0x80]
    else if c <= 0x1FFFFF then
      [Shr18(c) + 0xF0, Low6(Shr12(c)) + 0x80, Low6(Shr6(c)) + 0x80, Low6(c) + 0x80]
    else []
  }

  function Encode(s: seq<int>): (b: seq<Byte>)
    requires CodePoints(s)
  {
    if s == [] then [] else EncodeChar(s[0]) + Encode(s[1..])
  }

  lemma {:induction false} EncodeSnoc(s: seq<int>, c: int)
    requires CodePoints(s) && CodePoint(c)
    ensures CodePoints(s + [c]) && Encode(s + [c]) == Encode(s) + EncodeChar(c)
    decreases |s|
  {
    if s == [] {
      assert [c][1..] == [] && s + [c] == [c];
    } else {
      hide EncodeChar;
      EncodeSnoc(s[1..], c);
      assert (s + [c])[1..] == s[1..] + [c];
      assert Encode(s + [c]) == EncodeChar(s[0]) + Encode(s[1..] + [c]);
    }
  }

  // ---------------------------------------------------------------------------
  // Round trips.
  // ---------------------------------------------------------------------------

  /** Base-64 digits determine a number and are determined by it. */
  lemma {:induction false} Digits(c: nat, d3: nat, d2: nat, d1: nat, d0: nat)
    requires d2 < 0x40 && d1 < 0x40 && d0 < 0x40
    ensures c == d3 * 0x40000 + d2 * 0x1000 + d1 * 0x40 + d0 <==>
      Shr18(c) == d3 && Low6(Shr12(c)) == d2 && Low6(Shr6(c)) == d1 && Low6(c) == d0
    ensures c < 0x40000 ==> Low6(Shr12(c)) == Shr12(c)
    ensures c < 0x1000 ==> Low6(Shr6(c)) == Shr6(c)
  {
    assert c / 0x1000 == c / 0x40 / 0x40 && c / 0x40000 == c / 0x40 / 0x40 / 0x40;
  }

  /** The tag bits of a byte and its payload come apart again. */
  lemma {:induction false} Tags(d: nat)
    ensures d < 0x40 ==> Low6(d + 0x80) == d
    ensures d < 0x20 ==> Low5(d + 0xC0) == d
    ensures d < 0x10 ==> Low4(d + 0xE0) == d
    ensures d < 0x08 ==> Low3(d + 0xF0) == d
  {
  }

  /** And the payload determines the byte, given its tag. */
  lemma {:induction false} Untag(b: Byte)
    ensures 0x80 <= b < 0xC0 ==> b == Low6(b) + 0x80
    ensures 0xC0 <= b < 0xE0 ==> b == Low5(b) + 0xC0
    ensures 0xE0 <= b < 0xF0 ==> b == Low4(b) + 0xE0
    ensures 0xF0 <= b < 0xF8 ==> b == Low3(b) + 0xF0
  {
  }

  lemma {:induction false} RoundTrip2(c: int, rest: seq<Byte>)
    requires 0x80 <= c <= 0x7FF
    ensures DecodeUnit(EncodeChar(c) + rest) == Char(c, 2)
  {
    hide Low6, Low5, Low4, Low3, Shr6, Shr12, Shr18;
    Digits(c, 0, 0, Shr6(c), Low6(c));
    Tags(Low6(c));
    Tags(Shr6(c));
  }

  lemma {:induction false} RoundTrip3(c: int, rest: seq<Byte>)
    requires 0x800 <= c <= 0xFFFF
    ensures DecodeUnit(EncodeChar(c) + rest) == Char(c, 3)
  {
    hide Low6, Low5, Low4, Low3, Shr6, Shr12, Shr18;
    Digits(c, 0, Shr12(c), Low6(Shr6(c)), Low6(c));
    Tags(Low6(c));
    Tags(Low6(Shr6(c)));
    Tags(Shr12(c));
  }

  lemma {:induction false} RoundTrip4(c: int, rest: seq<Byte>)
    requires 0x10000 <= c <= MAX_CODE_POINT
    ensures DecodeUnit(EncodeChar(c) + rest) == Char(c, 4)
  {
    hide Low6, Low5, Low4, Low3, Shr6, Shr12, Shr18;
    Digits(c, Shr18(c), Low6(Shr12(c)), Low6(Shr6(c)), Low6(c));
    Tags(Low6(c));
    Tags(Low6(Shr6(c)));
    Tags(Low6(Shr12(c)));
    Tags(Shr18(c));
  }

  lemma {:induction false} UnitRoundTrip(c: int, rest: seq<Byte>)
    requires CodePoint(c)
    ensures EncodeChar(c) != []
    ensures DecodeUnit(EncodeChar(c) + rest) == Char(c, |EncodeChar(c)|)
  {
    if c <= 0x7F {
    } else if c <= 0x7FF {
      RoundTrip2(c, rest);
    } else if c <= 0xFFFF {
      RoundTrip3(c, rest);
    } else {
      RoundTrip4(c, rest);
    }
  }

  lemma {:induction false} EncodeThenDecode(s: seq<int>)
    requires CodePoints(s)
    ensures Decode(Encode(s)) == Text(s)
    decreases |s|
  {
    if s != [] {
      var one, rest := EncodeChar(s[0]), Encode(s[1..]);
      UnitRoundTrip(s[0], rest);
      assert (one + rest)[|one|..] == rest;
      EncodeThenDecode(s[1..]);
    }
  }

  /** Re-encoding an accepted character never takes more bytes, and takes the same bytes
      exactly when they are its shortest form. */
  ghost predicate Reencodes(b: seq<Byte>)
    requires b != [] && DecodeUnit(b).Char?
  {
    var u := DecodeUnit(b);
    if WellFormedUnit(b, true) == u.size then EncodeChar(u.uc) == b[..u.size] else |EncodeChar(u.uc)| < u.size
  }

  lemma {:induction false} Reencode2(b: seq<Byte>)
    requires b != [] && DecodeUnit(b).Char? && DecodeUnit(b).size == 2
    ensures Reencodes(b)
  {
    hide Low6, Low5, Low4, Low3, Shr6, Shr12, Shr18;
    Untag(b[0]);
    Untag(b[1]);
    Digits(DecodeUnit(b).uc, 0, 0, Low5(b[0]), Low6(b[1]));
  }

  lemma {:induction false} Reencode3(b: seq<Byte>)
    requires b != [] && DecodeUnit(b).Char? && DecodeUnit(b).size == 3
    ensures Reencodes(b)
  {
    hide Low6, Low5, Low4, Low3, Shr6, Shr12, Shr18;
    Untag(b[0]);
    Untag(b[1]);
    Untag(b[2]);
    Digits(DecodeUnit(b).uc, 0, Low4(b[0]), Low6(b[1]), Low6(b[2]));
  }

  lemma {:induction false} Reencode4(b: seq<Byte>)
    requires b != [] && DecodeUnit(b).Char? && DecodeUnit(b).size == 4
    ensures Reencodes(b)
  {
    hide Low6, Low5, Low4, Low3, Shr6, Shr12, Shr18;
    Untag(b[0]);
    Untag(b[1]);
    Untag(b[2]);
    Untag(b[3]);
    Digits(DecodeUnit(b).uc, Low3(b[0]), Low6(b[1]), Low6(b[2]), Low6(b[3]));
  }

  lemma {:induction false} UnitReencode(b: seq<Byte>)
    requires b != [] && DecodeUnit(b).Char?
    ensures Reencodes(b)
  {
    var n := DecodeUnit(b).size;
    if n == 2 { Reencode2(b); } else if n == 3 { Reencode3(b); } else if n == 4 { Reencode4(b); }
  }

  lemma {:induction false} PartsAgree(x: seq<Byte>, y: seq<Byte>, b: seq<Byte>, n: nat)
    requires n <= |b| && |x| <= n && |y| <= |b| - n
    ensures x + y == b <==> x == b[..n] && y == b[n..]
  {
    if x + y == b { assert (x + y)[..n] == x && (x + y)[n..] == y; }
  }

  lemma {:induction false} DecodeThenEncode(b: seq<Byte>)
    requires Decode(b).Text?
    ensures CodePoints(Decode(b).chars)
    ensures |Encode(Decode(b).chars)| <= |b|
    ensures Encode(Decode(b).chars) == b <==> WellFormed(b, true)
    decreases |b|
  {
    if b != [] {
      hide EncodeChar, DecodeUnit, WellFormedUnit;
      var u := DecodeUnit(b);
      var rest, tail := b[u.size..], Decode(b[u.size..]).chars;
      DecodeThenEncode(rest);
      UnitReencode(b);
      UnitOfRfc(b);
      assert ([u.uc] + tail)[1..] == tail;
      assert Encode(Decode(b).chars) == EncodeChar(u.uc) + Encode(tail);
      PartsAgree(EncodeChar(u.uc), Encode(tail), b, u.size);
    }
  }

  // ---------------------------------------------------------------------------
  // What is accepted: a lead byte, as many tails as it announces, and a value in range.
  // ---------------------------------------------------------------------------

  /** `u` is one character: its lead byte tells how many bytes 80..BF follow, and their payloads
      are the base-64 digits of its value. */
  predicate IsUnit(u: seq<Byte>, c: int) {
    && 0 <= c <= 0x10FFFF
    && (|| (|u| == 1 && u[0] <= 0x7F && c == u[0])
        || (|u| == 2 && 0xC0 <= u[0] <= 0xDF && Tail(u[1]) && c == (u[0] as int - 0xC0) * 0x40 + (u[1] as int - 0x80))
        || (|u| == 3 && 0xE0 <= u[0] <= 0xEF && Tail(u[1]) && Tail(u[2])
            && c == (u[0] as int - 0xE0) * 0x1000 + (u[1] as int - 0x80) * 0x40 + (u[2] as int - 0x80))
        || (|u| == 4 && 0xF0 <= u[0] <= 0xF7 && Tail(u[1]) && Tail(u[2]) && Tail(u[3])
            && c == (u[0] as int - 0xF0) * 0x40000 + (u[1] as int - 0x80) * 0x1000
                    + (u[2] as int - 0x80) * 0x40 + (u[3] as int - 0x80)))
  }

  /** `b` is a string of such units, one for each character of `s`. */
  ghost predicate Spells(b: seq<Byte>, s: seq<int>)
    decreases |s|
  {
    if s == [] then b == []
    else exists n :: 0 < n <= |b| && IsUnit(b[..n], s[0]) && Spells(b[n..], s[1..])
  }

  lemma {:induction false} UnitExactly(b: seq<Byte>, n: nat, c: int)
    requires b != []
    ensures DecodeUnit(b) == Char(c, n) <==> 0 < n <= |b| && IsUnit(b[..n], c)
  {
    hide Low6, Low5, Low4, Low3;
    forall i | 0 <= i < |b| { Untag(b[i]); }
  }

  /** A buffer is decoded as `s` exactly when it spells `s`, and rejected exactly when it spells nothing. */
  lemma {:induction false} DecodeExactly(b: seq<Byte>, s: seq<int>)
    ensures Decode(b) == Text(s) <==> Spells(b, s)
    decreases |b|
  {
    if b != [] {
      hide DecodeUnit, IsUnit;
      var u := DecodeUnit(b);
      if u.Char? {
        UnitExactly(b, u.size, u.uc);
        if s != [] { DecodeExactly(b[u.size..], s[1..]); }
        if Decode(b) == Text(s) {
          assert ([u.uc] + Decode(b[u.size..]).chars)[1..] == s[1..];
        }
      }
      if s != [] {
        forall n | 0 < n <= |b| && IsUnit(b[..n], s[0])
          ensures u == Char(s[0], n)
        {
          UnitExactly(b, n, s[0]);
        }
        if Spells(b, s) { assert s == [s[0]] + s[1..]; }
      }
    }
  }

  lemma {:induction false} MalformedExactly(b: seq<Byte>)
    ensures Decode(b).Malformed? <==> forall s :: !Spells(b, s)
  {
    if Decode(b).Text? { DecodeExactly(b, Decode(b).chars); }
    forall s | Spells(b, s) ensures Decode(b).Text? { DecodeExactly(b, s); }
  }

  /** Bytes that start no unit: a stray tail, a lead from F8 up, or a unit cut short or interrupted. */
  predicate StartsBadly(b: seq<Byte>) {
    b != [] &&
    var c := b[0];
    || 0x80 <= c <= 0xBF || c >= 0xF8
    || (0xC0 <= c <= 0xDF && (|b| < 2 || !Tail(b[1])))
    || (0xE0 <= c <= 0xEF && (|b| < 3 || !Tail(b[1]) || !Tail(b[2])))
    || (0xF0 <= c <= 0xF7 && (|b| < 4 || !Tail(b[1]) || !Tail(b[2]) || !Tail(b[3])))
  }

  /** Whatever accepted text comes before them, such bytes make the whole input malformed. */
  lemma {:induction false} BadStartRejected(a: seq<Byte>, b: seq<Byte>)
    requires Decode(a).Text? && StartsBadly(b)
    ensures Decode(a + b).Malformed?
    decreases |a|
  {
    if a == [] {
      assert a + b == b;
      assert DecodeUnit(b).Bad?;
    } else {
      hide StartsBadly, IsUnit;
      var u := DecodeUnit(a);
      UnitExactly(a, u.size, u.uc);
      assert (a + b)[..u.size] == a[..u.size] && (a + b)[u.size..] == a[u.size..] + b;
      UnitExactly(a + b, u.size, u.uc);
      hide DecodeUnit;
      BadStartRejected(a[u.size..], b);
    }
  }

  // ---------------------------------------------------------------------------
  // RFC 3629, section 4. With `surrogates` the range ED A0..BF is admitted too.
  // ---------------------------------------------------------------------------

  /** The length of the well-formed sequence `b` starts with, 0 when there is none. */
  function WellFormedUnit(b: seq<Byte>, surrogates: bool): (n: nat)
    requires b != []
    ensures n <= |b|
  {
    var c := b[0];
    if c <= 0x7F then 1
    else if 0xC2 <= c <= 0xDF && 1 < |b| && Tail(b[1]) then 2
    else if 2 < |b| && Tail(b[2]) &&
      (|| (c == 0xE0 && 0xA0 <= b[1] <= 0xBF)
       || (0xE1 <= c <= 0xEC && Tail(b[1]))
       || (c == 0xED && 0x80 <= b[1] <= if surrogates then 0xBF else 0x9F)
       || (0xEE <= c <= 0xEF && Tail(b[1]))) then 3
    else if 3 < |b| && Tail(b[2]) && Tail(b[3]) &&
      (|| (c == 0xF0 && 0x90 <= b[1] <= 0xBF)
       || (0xF1 <= c <= 0xF3 && Tail(b[1]))
       || (c == 0xF4 && 0x80 <= b[1] <= 0x8F)) then 4
    else 0
  }

  predicate WellFormed(b: seq<Byte>, surrogates: bool)
    decreases |b|
  {
    b == [] ||
    var n := WellFormedUnit(b, surrogates);
    n > 0 && WellFormed(b[n..], surrogates)
  }

  predicate NoSurrogates(s: seq<int>) {
    forall i :: 0 <= i < |s| ==> !(0xD800 <= s[i] <= 0xDFFF)
  }

  lemma {:induction false} UnitOfRfc(b: seq<Byte>)
    requires b != []
    ensures WellFormedUnit(b, true) > 0 ==> DecodeUnit(b).Char? && DecodeUnit(b).size == WellFormedUnit(b, true)
    ensures WellFormedUnit(b, false) ==
      if WellFormedUnit(b, true) > 0 && !(0xD800 <= DecodeUnit(b).uc <= 0xDFFF) then WellFormedUnit(b, true) else 0
  {
    hide Low6, Low5, Low4, Low3;
    forall i | 0 <= i < |b| { Untag(b[i]); }
  }

  lemma {:induction false} NoSurrogatesCons(c: int, s: seq<int>)
    ensures NoSurrogates([c] + s) <==> NoSurrogates(s) && !(0xD800 <= c <= 0xDFFF)
  {
    assert ([c] + s)[0] == c;
    assert forall i :: 0 <= i < |s| ==> s[i] == ([c] + s)[i + 1];
  }

  /** The strings of RFC 3629 are exactly the accepted ones that re-encode to themselves
      and hold no surrogate. */
  lemma {:induction false} Rfc3629Exactly(b: seq<Byte>)
    ensures WellFormed(b, true) ==> Decode(b).Text?
    ensures WellFormed(b, false) <==>
      && Decode(b).Text? && NoSurrogates(Decode(b).chars)
      && CodePoints(Decode(b).chars) && Encode(Decode(b).chars) == b
  {
    hide Decode, Encode, WellFormed;
    AcceptedRfc(b);
    if Decode(b).Text? { DecodeThenEncode(b); }
  }

  lemma {:induction false} AcceptedRfc(b: seq<Byte>)
    ensures WellFormed(b, true) ==> Decode(b).Text?
    ensures WellFormed(b, false) <==> WellFormed(b, true) && NoSurrogates(Decode(b).chars)
    decreases |b|
  {
    if b != [] {
      UnitOfRfc(b);
      var n := WellFormedUnit(b, true);
      if n > 0 {
        AcceptedRfc(b[n..]);
        if WellFormed(b, true) {
          var tail := Decode(b[n..]).chars;
          assert Decode(b).chars == [DecodeUnit(b).uc] + tail;
          NoSurrogatesCons(DecodeUnit(b).uc, tail);
        }
      }
    }
  }
}
