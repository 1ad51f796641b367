/**
 * `hex2a(hex)`: split a hex string into chunks with `hex.match(/.{1,2}/g)`,
 * glue them back as `'%' + chunks.join('%')` and percent-decode the result
 * with `decodeURIComponent`.
 */
module HexLabel {
  import opened Js
  import opened UriDecode

  /** The characters that the regular-expression `.` does not match. */
  predicate IsLineTerminator(c: char)
  {
    c == '\n' || c == '\r' || c == '\U{2028}' || c == '\U{2029}'
  }

  predicate NoLineTerminators(s: string)
  {
    forall i :: 0 <= i < |s| ==> !IsLineTerminator(s[i])
  }

  /**
   * The matches of `/.{1,2}/g`: maximal runs of characters other than line
   * terminators, cut into pieces of two with a last piece of one when a run
   * has odd length. Line terminators themselves are skipped.
   */
  function Chunks(s: string): (c: seq<string>)
    ensures c == [] <==> Strip(s) == []
  {
    if s == [] then []
    else if IsLineTerminator(s[0]) then Chunks(s[1..])
    else if |s| >= 2 && !IsLineTerminator(s[1]) then [s[..2]] + Chunks(s[2..])
    else [s[..1]] + Chunks(s[1..])
  }

  /** The argument that `hex2a` hands to `decodeURIComponent`. */
  function PercentJoined(s: string): string
  {
    "%" + Join(Chunks(s), "%")
  }

  /**
   * `hex2a`. When nothing matches, `match` returns `null` and calling `join`
   * on it throws a TypeError; a failed decoding throws a URIError.
   */
  function Hex2a(hex: string): (r: Result<string>)
    ensures r == Err(TypeError) <==> Strip(hex) == []
    ensures r.Err? ==> r.error == TypeError || r.error == URIError
  {
    if Chunks(hex) == [] then Err(TypeError)
    else match Decode(PercentJoined(hex))
      case None => Err(URIError)
      case Some(s) => Ok(s)
  }

  /** Lower-case hex encoding of a byte string, two digits per byte. */
  function HexEncode(bytes: seq<byte>): (h: string)
    ensures |h| == 2 * |bytes|
  {
    if bytes == [] then [] else [HexDigit(bytes[0] / 16), HexDigit(bytes[0] % 16)] + HexEncode(bytes[1..])
  }

  // ---------------------------------------------------------------------
  // Proofs

  /** The string without its line terminators. */
  function Strip(s: string): string
  {
    if s == [] then [] else (if IsLineTerminator(s[0]) then [] else [s[0]]) + Strip(s[1..])
  }

  /** Every match is one or two characters long. */
  lemma {:induction false} ChunkLengths(s: string)
    ensures forall i :: 0 <= i < |Chunks(s)| ==> 1 <= |Chunks(s)[i]| <= 2
  {
    if s == [] {
    } else if IsLineTerminator(s[0]) {
      ChunkLengths(s[1..]);
    } else if |s| >= 2 && !IsLineTerminator(s[1]) {
      ChunkLengths(s[2..]);
      var r := Chunks(s[2..]);
      assert forall i :: 1 <= i < |r| + 1 ==> ([s[..2]] + r)[i] == r[i - 1];
    } else {
      ChunkLengths(s[1..]);
      var r := Chunks(s[1..]);
      assert forall i :: 1 <= i < |r| + 1 ==> ([s[..1]] + r)[i] == r[i - 1];
    }
  }

  /** The matches, read in order, spell out the string without its line terminators. */
  lemma {:induction false} ChunksSpell(s: string)
    ensures Join(Chunks(s), "") == Strip(s)
  {
    if s == [] {
    } else if IsLineTerminator(s[0]) {
      ChunksSpell(s[1..]);
    } else if |s| >= 2 && !IsLineTerminator(s[1]) {
      ChunksSpell(s[2..]);
      JoinCons(s[..2], Chunks(s[2..]), "");
      assert s[1..][1..] == s[2..];
      assert Strip(s) == [s[0]] + ([s[1]] + Strip(s[2..]));
      assert s[..2] == [s[0], s[1]];
    } else {
      ChunksSpell(s[1..]);
      JoinCons(s[..1], Chunks(s[1..]), "");
      assert s[..1] == [s[0]];
    }
  }

  lemma ChunksNonEmpty(s: string)
    requires NoLineTerminators(s) && s != []
    ensures Chunks(s) != []
  {
  }

  /** `%` before every pair of characters, the last piece possibly a single character. */
  function Glued(s: string): string
  {
    if |s| <= 2 then "%" + s else "%" + s[..2] + Glued(s[2..])
  }

  /** Without line terminators the chunks are the consecutive pairs of the string. */
  lemma {:induction false} PercentJoinedGlued(s: string)
    requires NoLineTerminators(s) && s != []
    ensures PercentJoined(s) == Glued(s)
  {
    if |s| > 2 {
      NoLineTerminatorsTail(s);
      ChunksNonEmpty(s[2..]);
      var rest := Chunks(s[2..]);
      assert Chunks(s) == [s[..2]] + rest;
      assert ([s[..2]] + rest)[1..] == rest;
      PercentJoinedGlued(s[2..]);
    } else if |s| == 2 {
      assert s[..2] == s && s[2..] == [];
      assert Chunks(s) == [s];
    } else {
      assert s[..1] == s && s[1..] == [];
      assert Chunks(s) == [s];
    }
  }

  /** For whole hex pairs, the pieces glued with `%` are exactly the escapes `%XY%XY...`. */
  lemma {:induction false} GluedWellFormed(g: string)
    requires WellFormedHex(g) && g != []
    ensures Glued(g) == Escaped(g)
    decreases |g|
  {
    WellFormedHexSlices(g, 2);
    if |g| > 2 {
      GluedWellFormed(g[2..]);
      assert "%" + g[..2] == ['%', g[0], g[1]];
    } else {
      assert g[2..] == [] && g == [g[0], g[1]];
    }
  }

  /** For whole hex pairs, `hex2a` hands the escapes `%XY%XY...` to the decoder. */
  lemma PercentJoinedWellFormed(g: string)
    requires WellFormedHex(g) && g != []
    ensures NoLineTerminators(g)
    ensures PercentJoined(g) == Escaped(g)
  {
    assert NoLineTerminators(g) by {
      forall i | 0 <= i < |g| ensures !IsLineTerminator(g[i]) {
        assert IsHexDigit(g[i]);
      }
    }
    PercentJoinedGlued(g);
    GluedWellFormed(g);
  }

  /** Cutting the string after a whole number of pairs cuts what is glued there too. */
  lemma {:induction false} GluedSplit(s: string, i: nat)
    requires i % 2 == 0 && 0 < i < |s|
    ensures Glued(s) == Glued(s[..i]) + Glued(s[i..])
  {
    var tail, prefix := s[2..], s[..i];
    assert prefix[..2] == s[..2];
    if i > 2 {
      GluedSplit(tail, i - 2);
      assert prefix[2..] == tail[..i - 2];
      assert tail[i - 2..] == s[i..];
    } else {
      assert prefix == s[..2] && tail == s[i..];
    }
  }

  lemma NoLineTerminatorsTail(s: string)
    requires NoLineTerminators(s) && |s| >= 2
    ensures NoLineTerminators(s[2..])
  {
    forall k | 0 <= k < |s| - 2 ensures !IsLineTerminator(s[2..][k]) {
      assert s[2..][k] == s[k + 2];
    }
  }

  /** A string that is not whole hex pairs has a first pair that is broken. */
  lemma {:induction false} FirstBrokenPair(s: string) returns (i: nat)
    requires !WellFormedHex(s)
    ensures i % 2 == 0 && i < |s| && WellFormedHex(s[..i])
    ensures i + 1 == |s| || !IsHexDigit(s[i]) || !IsHexDigit(s[i + 1])
  {
    if |s| == 1 || !IsHexDigit(s[0]) || !IsHexDigit(s[1]) {
      return 0;
    }
    assert !WellFormedHex(s[2..]);
    var j := FirstBrokenPair(s[2..]);
    i := j + 2;
    assert s[..i][2..] == s[2..][..j];
    assert forall k :: 2 <= k < i ==> s[..i][k] == s[..i][2..][k - 2];
  }

  /**
   * On a string without line terminators, `hex2a` throws a TypeError on the
   * empty string, a URIError on an odd length or a character that is not a
   * hex digit, and otherwise decodes the bytes the digits write as UTF-8
   * (throwing a URIError when they are not valid UTF-8).
   */
  lemma Hex2aCharacterization(hex: string)
    requires NoLineTerminators(hex)
    ensures hex == [] ==> Hex2a(hex) == Err(TypeError)
    ensures hex != [] && |hex| % 2 == 1 ==> Hex2a(hex) == Err(URIError)
    ensures (exists i :: 0 <= i < |hex| && !IsHexDigit(hex[i])) ==> Hex2a(hex) == Err(URIError)
    ensures hex != [] && WellFormedHex(hex) ==>
              Hex2a(hex) == match Utf8Decode(HexBytes(hex))
                            case Some(s) => Ok(s)
                            case None => Err(URIError)
  {
    if hex == [] {
      return;
    }
    ChunksNonEmpty(hex);
    if WellFormedHex(hex) {
      PercentJoinedWellFormed(hex);
      DecodeEscaped(hex);
    } else {
      BrokenHexFails(hex);
    }
  }

  /** A non-empty string without line terminators that is not whole hex pairs fails to decode. */
  lemma BrokenHexFails(hex: string)
    requires NoLineTerminators(hex) && hex != [] && !WellFormedHex(hex)
    ensures Decode(PercentJoined(hex)) == None
  {
    var i := FirstBrokenPair(hex);
    PercentJoinedGlued(hex);
    if i > 0 {
      GluedSplit(hex, i);
      GluedWellFormed(hex[..i]);
    } else {
      assert hex[..i] == [] && hex[i..] == hex;
    }
    var rest := hex[i..];
    var t := Glued(rest);
    assert t[0] == '%';
    assert |rest| >= 2 ==> t[1] == rest[0] && t[2] == rest[1];
    assert BadEscape(t);
    DecodeBadTail(hex[..i], t);
  }

  lemma {:induction false} HexEncodeDigits(bytes: seq<byte>)
    ensures WellFormedHex(HexEncode(bytes))
  {
    if bytes != [] {
      HexEncodeDigits(bytes[1..]);
      var h, t := HexEncode(bytes), HexEncode(bytes[1..]);
      assert h == [HexDigit(bytes[0] / 16), HexDigit(bytes[0] % 16)] + t;
      assert forall k :: 2 <= k < |h| ==> h[k] == t[k - 2];
    }
  }

  lemma {:induction false} HexEncodeWellFormed(bytes: seq<byte>)
    ensures WellFormedHex(HexEncode(bytes))
    ensures HexBytes(HexEncode(bytes)) == bytes
  {
    HexEncodeDigits(bytes);
    if bytes != [] {
      HexEncodeWellFormed(bytes[1..]);
      var h, t := HexEncode(bytes), HexEncode(bytes[1..]);
      var hi, lo := bytes[0] / 16, bytes[0] % 16;
      assert h == [HexDigit(hi), HexDigit(lo)] + t;
      assert h[2..] == t;
      assert HexByte(h[0], h[1]) == hi * 16 + lo == bytes[0];
    }
  }

  /** `hex2a` of the hex encoding of the UTF-8 bytes of a non-empty string gives the string back. */
  lemma Hex2aRoundTrip(s: string)
    requires s != []
    ensures Hex2a(HexEncode(Utf8Encode(s))) == Ok(s)
  {
    var bytes := Utf8Encode(s);
    HexEncodeWellFormed(bytes);
    Utf8RoundTrip(s);
    var h := HexEncode(bytes);
    assert h != [];
    PercentJoinedWellFormed(h);
    Hex2aCharacterization(h);
  }

  /** For example, "414243" decodes to "ABC". */
  lemma Hex2aExample()
    ensures Hex2a("414243") == Ok("ABC")
  {
    Hex2aRoundTrip("ABC");
    ExampleUtf8();
    ExampleHex();
  }

  lemma ExampleUtf8()
    ensures Utf8Encode("ABC") == [0x41, 0x42, 0x43]
  {
    assert EncodeChar('A') == [0x41] && EncodeChar('B') == [0x42] && EncodeChar('C') == [0x43];
    assert "ABC"[1..] == "BC" && "BC"[1..] == "C" && "C"[1..] == [];
    assert Utf8Encode("C") == [0x43];
    assert Utf8Encode("BC") == [0x42, 0x43];
  }

  lemma ExampleHex()
    ensures HexEncode([0x41, 0x42, 0x43]) == "414243"
  {
    var bytes: seq<byte> := [0x41, 0x42, 0x43];
    assert HexDigit(4) == '4' && HexDigit(1) == '1' && HexDigit(2) == '2' && HexDigit(3) == '3';
    assert bytes[1..] == [0x42, 0x43] && bytes[2..] == [0x43] && bytes[2..][1..] == [];
    assert bytes[1..][1..] == bytes[2..];
    assert HexEncode(bytes[2..]) == "43";
    assert HexEncode(bytes[1..]) == "4243";
  }
}
