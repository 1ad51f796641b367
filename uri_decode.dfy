/**
 * The JavaScript built-in `decodeURIComponent`, as the "Decode" abstract
 * operation of ECMA-262 (section 19.2.6.1 of ECMAScript 2023) defines it for
 * an empty set of reserved characters, together with the UTF-8 decoding it
 * performs.
 *
 * Every failure of the built-in is a thrown URIError; here it is None.
 */
module UriDecode {
  import opened Js

  type byte = x: int | 0 <= x < 256

  predicate IsHexDigit(c: char)
  {
    '0' <= c <= '9' || 'a' <= c <= 'f' || 'A' <= c <= 'F'
  }

  function HexValue(c: char): (v: nat)
    requires IsHexDigit(c)
    ensures v < 16
  {
    if c <= '9' then c as int - '0' as int
    else if c >= 'a' then c as int - 'a' as int + 10
    else c as int - 'A' as int + 10
  }

  /** The byte written by two hex digits. */
  function HexByte(hi: char, lo: char): byte
    requires IsHexDigit(hi) && IsHexDigit(lo)
  {
    HexValue(hi) * 16 + HexValue(lo)
  }

  /** The lower-case hex digit of a value below 16. */
  function HexDigit(v: nat): (c: char)
    requires v < 16
    ensures IsHexDigit(c) && HexValue(c) == v
  {
    "0123456789abcdef"[v]
  }

  /** The number of leading one bits of a byte, where 5 stands for "five or more". */
  function LeadingOnes(b: byte): nat
  {
    if b < 0x80 then 0
    else if b < 0xC0 then 1
    else if b < 0xE0 then 2
    else if b < 0xF0 then 3
    else if b < 0xF8 then 4
    else 5
  }

  predicate IsContinuation(b: byte)
  {
    0x80 <= b < 0xC0
  }

  /** The code point carried by the payload bits of a 2-, 3- or 4-byte sequence. */
  function CodePoint(octets: seq<byte>): int
    requires 2 <= |octets| <= 4
  {
    var b0, b1: int := octets[0], octets[1];
    if |octets| == 2 then (b0 % 32) * 64 + b1 % 64
    else
      var b2: int := octets[2];
      if |octets| == 3 then (b0 % 16) * 4096 + (b1 % 64) * 64 + b2 % 64
      else
        var b3: int := octets[3];
        (b0 % 8) * 262144 + (b1 % 64) * 4096 + (b2 % 64) * 64 + b3 % 64
  }

  /** The least code point that needs a sequence of n bytes (smaller ones are overlong). */
  function MinCodePoint(n: nat): int
  {
    if n == 2 then 0x80 else if n == 3 then 0x800 else 0x10000
  }

  /**
   * One multi-byte sequence: every byte after the lead is a continuation
   * byte, and the code point is not overlong, not a surrogate and at most
   * U+10FFFF.
   */
  function DecodeSequence(octets: seq<byte>): (r: Option<char>)
    requires 2 <= |octets| <= 4
    ensures r.Some? ==> forall j :: 1 <= j < |octets| ==> IsContinuation(octets[j])
    ensures r.Some? ==> r.value as int == CodePoint(octets) >= MinCodePoint(|octets|)
  {
    if exists j :: 1 <= j < |octets| && !IsContinuation(octets[j]) then None
    else
      var v := CodePoint(octets);
      if v < MinCodePoint(|octets|) || 0xD800 <= v <= 0xDFFF || v > 0x10FFFF then None
      else Some(v as char)
  }

  function Prepend(c: char, r: Option<string>): Option<string>
  {
    match r
    case None => None
    case Some(s) => Some([c] + s)
  }

  /** Strict UTF-8 decoding of a byte string, with the validity rules of the built-in. */
  function Utf8Decode(bytes: seq<byte>): (r: Option<string>)
    ensures r.Some? ==> |r.value| <= |bytes|
    ensures (forall i :: 0 <= i < |bytes| ==> bytes[i] < 0x80) ==>
              r.Some? && |r.value| == |bytes| && forall i :: 0 <= i < |bytes| ==> r.value[i] as int == bytes[i]
  {
    if bytes == [] then Some([])
    else
      var n := LeadingOnes(bytes[0]);
      if n == 0 then
        var r := Prepend(bytes[0] as char, Utf8Decode(bytes[1..]));
        assert r.Some? ==> forall i :: 1 <= i < |r.value| ==> r.value[i] == r.value[1..][i - 1];
        r
      else if n == 1 || n > 4 || |bytes| < n then None
      else match DecodeSequence(bytes[..n])
        case None => None
        case Some(c) => Prepend(c, Utf8Decode(bytes[n..]))
  }

  /** The escapes `%XY%XY...` that continue a multi-byte sequence. */
  function Continuations(t: string): (r: Option<seq<byte>>)
    ensures r.Some? ==> 3 * |r.value| == |t|
  {
    if t == [] then Some([])
    else if |t| < 3 || t[0] != '%' || !IsHexDigit(t[1]) || !IsHexDigit(t[2]) then None
    else match Continuations(t[3..])
      case None => None
      case Some(bs) => Some([HexByte(t[1], t[2])] + bs)
  }

  /**
   * `decodeURIComponent(s)`: characters other than `%` are copied; `%XY`
   * with hex digits X, Y is a byte; a byte with no leading one bit is a
   * character of its own, a byte with two to four leading one bits opens a
   * multi-byte sequence whose remaining bytes must be escapes as well; every
   * other shape throws.
   */
  function Decode(s: string): (r: Option<string>)
    ensures r.Some? ==> |r.value| <= |s|
    ensures '%' !in s ==> r == Some(s)
    decreases |s|
  {
    if s == [] then Some([])
    else if s[0] != '%' then
      assert '%' !in s ==> '%' !in s[1..] && s == [s[0]] + s[1..];
      Prepend(s[0], Decode(s[1..]))
    else if |s| < 3 || !IsHexDigit(s[1]) || !IsHexDigit(s[2]) then None
    else
      var b := HexByte(s[1], s[2]);
      var n := LeadingOnes(b);
      if n == 0 then Prepend(b as char, Decode(s[3..]))
      else if n == 1 || n > 4 || |s| < 3 * n then None
      else match Continuations(s[3..3 * n])
        case None => None
        case Some(rest) =>
          match DecodeSequence([b] + rest)
          case None => None
          case Some(c) => Prepend(c, Decode(s[3 * n..]))
  }

  // ---------------------------------------------------------------------
  // Strings made of escapes only

  /** An even number of hex digits: a sequence of whole bytes. */
  predicate WellFormedHex(g: string)
  {
    |g| % 2 == 0 && forall i :: 0 <= i < |g| ==> IsHexDigit(g[i])
  }

  /** The bytes written by a well-formed hex string, two digits each. */
  function HexBytes(g: string): (bs: seq<byte>)
    requires WellFormedHex(g)
    ensures |bs| * 2 == |g|
  {
    if g == [] then [] else [HexByte(g[0], g[1])] + HexBytes(g[2..])
  }

  /** Each pair of a well-formed hex string written as an escape `%XY`. */
  function Escaped(g: string): (s: string)
    requires WellFormedHex(g)
    ensures |s| * 2 == |g| * 3
  {
    if g == [] then [] else ['%', g[0], g[1]] + Escaped(g[2..])
  }

  /** A string that starts with `%` but not with a complete escape `%XY`. */
  predicate BadEscape(t: string)
  {
    |t| >= 1 && t[0] == '%' && (|t| < 3 || !IsHexDigit(t[1]) || !IsHexDigit(t[2]))
  }

  /** Cutting a well-formed hex string at an even position cuts its escapes and its bytes there too. */
  lemma SplitHex(g: string, k: nat)
    requires WellFormedHex(g) && 2 * k <= |g|
    ensures WellFormedHex(g[..2 * k]) && WellFormedHex(g[2 * k..])
    ensures Escaped(g) == Escaped(g[..2 * k]) + Escaped(g[2 * k..])
    ensures HexBytes(g) == HexBytes(g[..2 * k]) + HexBytes(g[2 * k..])
  {
    WellFormedHexSlices(g, 2 * k);
    SplitEscaped(g, k);
    SplitHexBytes(g, k);
  }

  lemma {:induction false} SplitEscaped(g: string, k: nat)
    requires WellFormedHex(g) && 2 * k <= |g|
    requires WellFormedHex(g[..2 * k]) && WellFormedHex(g[2 * k..])
    ensures Escaped(g) == Escaped(g[..2 * k]) + Escaped(g[2 * k..])
  {
    if k > 0 {
      var t, a, b := g[2..], g[..2 * k], g[2 * k..];
      WellFormedHexSlices(g, 2);
      WellFormedHexSlices(a, 2);
      assert t[..2 * (k - 1)] == a[2..];
      assert t[2 * (k - 1)..] == b;
      SplitEscaped(t, k - 1);
      var head := ['%', g[0], g[1]];
      assert Escaped(g) == head + Escaped(t);
      assert Escaped(t) == Escaped(a[2..]) + Escaped(b);
      assert a[0] == g[0] && a[1] == g[1];
      assert Escaped(a) == head + Escaped(a[2..]);
    }
  }

  lemma {:induction false} SplitHexBytes(g: string, k: nat)
    requires WellFormedHex(g) && 2 * k <= |g|
    requires WellFormedHex(g[..2 * k]) && WellFormedHex(g[2 * k..])
    ensures HexBytes(g) == HexBytes(g[..2 * k]) + HexBytes(g[2 * k..])
  {
    if k > 0 {
      var t, a, b := g[2..], g[..2 * k], g[2 * k..];
      WellFormedHexSlices(g, 2);
      WellFormedHexSlices(a, 2);
      assert t[..2 * (k - 1)] == a[2..];
      assert t[2 * (k - 1)..] == b;
      SplitHexBytes(t, k - 1);
      assert a[0] == g[0] && a[1] == g[1];
      assert HexBytes(a) == [HexByte(g[0], g[1])] + HexBytes(a[2..]);
    }
  }

  /** Cutting a well-formed hex string at an even position leaves two well-formed halves. */
  lemma WellFormedHexSlices(g: string, m: nat)
    requires WellFormedHex(g) && m <= |g| && m % 2 == 0
    ensures WellFormedHex(g[..m]) && WellFormedHex(g[m..])
  {
    forall i | 0 <= i < |g| - m ensures IsHexDigit(g[m..][i]) {
      assert g[m..][i] == g[i + m];
    }
  }

  /** The escapes of a well-formed hex string read back as its bytes. */
  lemma {:induction false} ContinuationsOfEscaped(g: string)
    requires WellFormedHex(g)
    ensures Continuations(Escaped(g)) == Some(HexBytes(g))
  {
    if g != [] {
      assert WellFormedHex(g[2..]);
      var s := Escaped(g);
      assert s[3..] == Escaped(g[2..]);
      ContinuationsOfEscaped(g[2..]);
    }
  }

  /** Escapes followed by a broken escape cannot be read as continuations. */
  lemma {:induction false} ContinuationsBadTail(g: string, u: string)
    requires WellFormedHex(g)
    requires |u| >= 3 && (u[0] != '%' || !IsHexDigit(u[1]) || !IsHexDigit(u[2]))
    ensures Continuations(Escaped(g) + u) == None
  {
    if g != [] {
      assert WellFormedHex(g[2..]);
      var s := Escaped(g) + u;
      assert s[3..] == Escaped(g[2..]) + u;
      ContinuationsBadTail(g[2..], u);
    }
  }

  /**
   * Decoding the escapes of a well-formed hex string is UTF-8 decoding of
   * the bytes it writes.
   */
  lemma {:induction false} DecodeEscaped(g: string)
    requires WellFormedHex(g)
    ensures Decode(Escaped(g)) == Utf8Decode(HexBytes(g))
    decreases |g|
  {
    if g == [] {
      return;
    }
    var s := Escaped(g);
    var bytes := HexBytes(g);
    var b := HexByte(g[0], g[1]);
    assert s[..3] == ['%', g[0], g[1]] && bytes[0] == b;
    var n := LeadingOnes(b);
    if n == 0 {
      SplitHex(g, 1);
      assert s[3..] == Escaped(g[2..]) && bytes[1..] == HexBytes(g[2..]);
      DecodeEscaped(g[2..]);
    } else if n == 1 || n > 4 || |bytes| < n {
    } else {
      DecodeEscapedSequence(g, n);
    }
  }

  /** DecodeEscaped when the first byte opens a multi-byte sequence that the bytes complete. */
  lemma {:induction false} DecodeEscapedSequence(g: string, n: nat)
    requires WellFormedHex(g) && g != []
    requires n == LeadingOnes(HexByte(g[0], g[1])) && 2 <= n <= 4 && 2 * n <= |g|
    ensures Decode(Escaped(g)) == Utf8Decode(HexBytes(g))
    decreases |g|, 0
  {
    SplitHex(g, n);
    var g1, g2 := g[..2 * n], g[2 * n..];
    var e1, e2 := Escaped(g1), Escaped(g2);
    var s := e1 + e2;
    var bytes := HexBytes(g1) + HexBytes(g2);
    assert e1[..3] == ['%', g[0], g[1]];
    assert s[3 * n..] == e2 && bytes[n..] == HexBytes(g2);
    assert WellFormedHex(g1[2..]);
    assert s[3..3 * n] == e1[3..];
    assert e1[3..] == Escaped(g1[2..]);
    ContinuationsOfEscaped(g1[2..]);
    assert HexBytes(g1) == [HexByte(g[0], g[1])] + HexBytes(g1[2..]);
    assert bytes[..n] == HexBytes(g1);
    DecodeEscaped(g2);
  }

  /**
   * Whatever complete escapes come first, a broken escape after them makes
   * the whole decoding throw.
   */
  lemma {:induction false} DecodeBadTail(g: string, t: string)
    requires WellFormedHex(g) && BadEscape(t)
    ensures Decode(Escaped(g) + t) == None
    decreases |g|
  {
    var s := Escaped(g) + t;
    if g == [] {
      assert s == t;
      return;
    }
    var b := HexByte(g[0], g[1]);
    assert s[..3] == ['%', g[0], g[1]];
    var n := LeadingOnes(b);
    if n == 0 {
      SplitHex(g, 1);
      assert s[3..] == Escaped(g[2..]) + t;
      DecodeBadTail(g[2..], t);
    } else if n == 1 || n > 4 || |s| < 3 * n {
    } else if |g| / 2 >= n {
      DecodeBadTailAfterSequence(g, t, n);
    } else {
      DecodeBadTailInSequence(g, t, n);
    }
  }

  /**
   * An escape that opens a multi-byte sequence makes decoding throw when the
   * escapes that should continue it are broken, or when what follows the
   * sequence does not decode.
   */
  lemma DecodeMultiFails(s: string, n: nat)
    requires |s| >= 3 && s[0] == '%' && IsHexDigit(s[1]) && IsHexDigit(s[2])
    requires n == LeadingOnes(HexByte(s[1], s[2])) && 2 <= n <= 4 && |s| >= 3 * n
    requires Continuations(s[3..3 * n]).None? || Decode(s[3 * n..]).None?
    ensures Decode(s).None?
  {
  }

  /** The broken escape comes after the first multi-byte sequence. */
  lemma {:induction false} DecodeBadTailAfterSequence(g: string, t: string, n: nat)
    requires WellFormedHex(g) && BadEscape(t) && g != []
    requires n == LeadingOnes(HexByte(g[0], g[1])) && 2 <= n <= 4 && 2 * n <= |g|
    ensures Decode(Escaped(g) + t) == None
    decreases |g|, 0
  {
    SplitHex(g, n);
    var e1, e2 := Escaped(g[..2 * n]), Escaped(g[2 * n..]);
    var s := e1 + (e2 + t);
    assert Escaped(g) + t == s;
    assert e1[..3] == ['%', g[0], g[1]];
    assert s[3 * n..] == e2 + t;
    DecodeBadTail(g[2 * n..], t);
    DecodeMultiFails(s, n);
  }

  /** The broken escape falls inside the first multi-byte sequence. */
  lemma {:induction false} DecodeBadTailInSequence(g: string, t: string, n: nat)
    requires WellFormedHex(g) && BadEscape(t) && g != []
    requires n == LeadingOnes(HexByte(g[0], g[1])) && 2 <= n <= 4 && |g| < 2 * n
    requires |Escaped(g) + t| >= 3 * n
    ensures Decode(Escaped(g) + t) == None
  {
    assert WellFormedHex(g[2..]);
    var e := Escaped(g[2..]);
    var s := ['%', g[0], g[1]] + (e + t);
    assert Escaped(g) + t == s;
    var u := t[..3 * n - 3 - |e|];
    assert s[3..3 * n] == (e + t)[..3 * n - 3];
    assert (e + t)[..3 * n - 3] == e + u;
    ContinuationsBadTail(g[2..], u);
    DecodeMultiFails(s, n);
  }

  // ---------------------------------------------------------------------
  // UTF-8 encoding, the inverse of Utf8Decode

  /** The UTF-8 bytes of one character (a Unicode scalar value). */
  function EncodeChar(c: char): (bs: seq<byte>)
    ensures 1 <= |bs| <= 4
  {
    var cp := c as int;
    if cp < 0x80 then [cp]
    else if cp < 0x800 then [0xC0 + cp / 64, 0x80 + cp % 64]
    else if cp < 0x10000 then [0xE0 + cp / 4096, 0x80 + (cp / 64) % 64, 0x80 + cp % 64]
    else [0xF0 + cp / 262144, 0x80 + (cp / 4096) % 64, 0x80 + (cp / 64) % 64, 0x80 + cp % 64]
  }

  function Utf8Encode(s: string): seq<byte>
  {
    if s == [] then [] else EncodeChar(s[0]) + Utf8Encode(s[1..])
  }

  lemma TwoBytes(cp: int)
    requires 0x80 <= cp < 0x800
    ensures var b0, b1 := 0xC0 + cp / 64, 0x80 + cp % 64;
      0xC2 <= b0 < 0xE0 && 0x80 <= b1 < 0xC0 && (b0 % 32) * 64 + b1 % 64 == cp
  {
    var q, r := cp / 64, cp % 64;
    assert cp == 64 * q + r;
    assert (0xC0 + q) % 32 == q;
    assert (0x80 + r) % 64 == r;
  }

  lemma ThreeBytes(cp: int)
    requires 0x800 <= cp < 0x10000
    ensures var b0, b1, b2 := 0xE0 + cp / 4096, 0x80 + (cp / 64) % 64, 0x80 + cp % 64;
      && 0xE0 <= b0 < 0xF0 && 0x80 <= b1 < 0xC0 && 0x80 <= b2 < 0xC0
      && (b0 % 16) * 4096 + (b1 % 64) * 64 + b2 % 64 == cp
  {
    var q, r := cp / 64, cp % 64;
    assert cp == 64 * q + r;
    var q2, r2 := q / 64, q % 64;
    assert q == 64 * q2 + r2;
    assert cp / 4096 == q2;
    assert (0xE0 + q2) % 16 == q2;
    assert (0x80 + r2) % 64 == r2;
    assert (0x80 + r) % 64 == r;
  }

  lemma FourBytes(cp: int)
    requires 0x10000 <= cp <= 0x10FFFF
    ensures var b0, b1, b2, b3 := 0xF0 + cp / 262144, 0x80 + (cp / 4096) % 64, 0x80 + (cp / 64) % 64, 0x80 + cp % 64;
      && 0xF0 <= b0 < 0xF8 && 0x80 <= b1 < 0xC0 && 0x80 <= b2 < 0xC0 && 0x80 <= b3 < 0xC0
      && (b0 % 8) * 262144 + (b1 % 64) * 4096 + (b2 % 64) * 64 + b3 % 64 == cp
  {
    var q, r := cp / 64, cp % 64;
    assert cp == 64 * q + r;
    var q2, r2 := q / 64, q % 64;
    assert q == 64 * q2 + r2;
    var q3, r3 := q2 / 64, q2 % 64;
    assert q2 == 64 * q3 + r3;
    assert cp / 4096 == q2;
    assert cp / 262144 == q3;
    assert (0xF0 + q3) % 8 == q3;
    assert (0x80 + r3) % 64 == r3;
    assert (0x80 + r2) % 64 == r2;
    assert (0x80 + r) % 64 == r;
  }

  /** The bytes of a multi-byte character have the lead and continuation shape, and carry its code point. */
  lemma {:induction false} EncodeCharShape(c: char)
    ensures var bs := EncodeChar(c);
      && LeadingOnes(bs[0]) == (if |bs| == 1 then 0 else |bs|)
      && (forall j :: 1 <= j < |bs| ==> IsContinuation(bs[j]))
      && (|bs| >= 2 ==> CodePoint(bs) == c as int >= MinCodePoint(|bs|))
  {
    var cp := c as int;
    if cp < 0x80 {
    } else if cp < 0x800 {
      TwoBytes(cp);
    } else if cp < 0x10000 {
      ThreeBytes(cp);
    } else {
      FourBytes(cp);
    }
  }

  lemma {:induction false} DecodeEncodedChar(c: char, rest: seq<byte>)
    ensures Utf8Decode(EncodeChar(c) + rest) == Prepend(c, Utf8Decode(rest))
  {
    var bs := EncodeChar(c);
    var all := bs + rest;
    EncodeCharShape(c);
    if |bs| == 1 {
      assert all[1..] == rest;
    } else {
      assert all[..|bs|] == bs && all[|bs|..] == rest;
      assert DecodeSequence(bs) == Some(c);
    }
  }

  /** UTF-8 decoding undoes UTF-8 encoding. */
  lemma {:induction false} Utf8RoundTrip(s: string)
    ensures Utf8Decode(Utf8Encode(s)) == Some(s)
  {
    if s != [] {
      DecodeEncodedChar(s[0], Utf8Encode(s[1..]));
      Utf8RoundTrip(s[1..]);
      assert [s[0]] + s[1..] == s;
    }
  }
}
