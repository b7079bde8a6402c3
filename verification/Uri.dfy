/**
  storage/s3.go's percent-encoding: uriEncode, encodePath and canonicalQuery, against the
  decoder of sections 2.1 and 2.3 of RFC 3986.  Strings are byte strings.
 */
module Uri {
  import opened Wrappers

  type Byte = x: int | 0 <= x < 256
  type Bytes = seq<Byte>

  const PERCENT: Byte := '%' as int
  const AMPERSAND: Byte := '&' as int
  const SLASH: Byte := '/' as int
  const EQUALS: Byte := '=' as int

  /** ALPHA / DIGIT / "-" / "_" / "." / "~" */
  predicate Unreserved(c: Byte) {
    65 <= c <= 90 || 97 <= c <= 122 || 48 <= c <= 57 || c == 45 || c == 95 || c == 46 || c == 126
  }

  predicate UpperHex(c: Byte) {
    48 <= c <= 57 || 65 <= c <= 70
  }

  function HexDigit(d: int): (c: Byte)
    requires 0 <= d < 16
    ensures UpperHex(c) && HexValue(c) == Some(d)
  {
    if d < 10 then 48 + d else 55 + d
  }

  /** Decoders take either case. */
  function HexValue(c: Byte): Option<int> {
    if 48 <= c <= 57 then Some(c - 48)
    else if 65 <= c <= 70 then Some(c - 55)
    else if 97 <= c <= 102 then Some(c - 87)
    else None
  }

  function EncodedByte(c: Byte): Bytes {
    if Unreserved(c) then [c] else [PERCENT, HexDigit(c / 16), HexDigit(c % 16)]
  }

  function Encoded(s: Bytes): Bytes {
    if s == [] then [] else EncodedByte(s[0]) + Encoded(s[1..])
  }

  const HEX := "0123456789ABCDEF"

  /** Letters, digits and four marks stand for themselves, and nothing else does (section 2.3 of RFC 3986). */
  lemma UnreservedAreThese(c: Byte)
    ensures var ch := c as char;
      Unreserved(c) <==> 'A' <= ch <= 'Z' || 'a' <= ch <= 'z' || '0' <= ch <= '9' || ch == '-' || ch == '_' || ch == '.' || ch == '~'
    ensures Unreserved(c) ==> EncodedByte(c) == [c]
  {
  }

  /** Any other byte is a percent sign and its two digits in capital hexadecimal (section 2.1). */
  lemma OthersAreEscaped(c: Byte)
    requires !Unreserved(c)
    ensures |EncodedByte(c)| == 3 && EncodedByte(c)[0] as char == '%'
    ensures EncodedByte(c)[1] as char == HEX[c / 16] && EncodedByte(c)[2] as char == HEX[c % 16]
  {
    HexDigitIs(c / 16);
    HexDigitIs(c % 16);
  }

  lemma HexDigitIs(d: nat)
    requires d < 16
    ensures HexDigit(d) as char == HEX[d]
  {
  }

  lemma {:induction false} EncodedConcat(s: Bytes, t: Bytes)
    ensures Encoded(s + t) == Encoded(s) + Encoded(t)
  {
    hide EncodedByte;
    if s == [] {
      assert s + t == t;
    } else {
      EncodedConcat(s[1..], t);
      assert (s + t)[1..] == s[1..] + t;
      var e, x, y := EncodedByte(s[0]), Encoded(s[1..]), Encoded(t);
      assert Encoded(s + t) == e + (x + y);
      assert e + (x + y) == (e + x) + y;
    }
  }

  /** uriEncode */
  method UriEncode(s: Bytes) returns (b: Bytes)
    ensures b == Encoded(s)
  {
    b := [];
    for i := 0 to |s|
      invariant b == Encoded(s[..i])
    {
      var ch := s[i];
      EncodedConcat(s[..i], [ch]);
      assert s[..i + 1] == s[..i] + [ch];
      if (65 <= ch <= 90) || (97 <= ch <= 122) || (48 <= ch <= 57) || ch == 45 || ch == 95 || ch == 46 || ch == 126 {
        b := b + [ch];
      } else {
        b := b + [PERCENT, HexDigit(ch / 16), HexDigit(ch % 16)];
      }
      assert Encoded([ch]) == EncodedByte(ch) + Encoded([]);
    }
    assert s[..|s|] == s;
  }

  /** Percent-decoding: None for a stray or truncated escape. */
  function Decoded(t: Bytes): Option<Bytes>
    decreases |t|
  {
    if t == [] then Some([])
    else if t[0] != PERCENT then
      match Decoded(t[1..]) case None => None case Some(rest) => Some([t[0]] + rest)
    else if |t| < 3 || HexValue(t[1]).None? || HexValue(t[2]).None? then None
    else
      match Decoded(t[3..]) case None => None
                            case Some(rest) => Some([HexValue(t[1]).value * 16 + HexValue(t[2]).value] + rest)
  }

  /** The byte two hex digits spell. */
  function HexPair(high: Byte, low: Byte): Byte
    requires UpperHex(high) && UpperHex(low)
  {
    HexValue(high).value * 16 + HexValue(low).value
  }

  lemma EscapeIsDecoded(t: Bytes, rest: Bytes)
    requires |t| >= 3 && t[0] == PERCENT && UpperHex(t[1]) && UpperHex(t[2])
    requires Decoded(t[3..]) == Some(rest)
    ensures Decoded(t) == Some([HexPair(t[1], t[2])] + rest)
  {
  }

  lemma ByteIsItsHexPair(c: Byte)
    ensures HexPair(HexDigit(c / 16), HexDigit(c % 16)) == c
  {
  }

  /** Decoding gives back the very bytes. */
  lemma {:induction false} DecodingInverts(s: Bytes)
    ensures Decoded(Encoded(s)) == Some(s)
  {
    hide HexPair;
    if s != [] {
      DecodingInverts(s[1..]);
      var head, rest := EncodedByte(s[0]), Encoded(s[1..]);
      assert (head + rest)[|head|..] == rest;
      assert s == [s[0]] + s[1..];
      if !Unreserved(s[0]) {
        ByteIsItsHexPair(s[0]);
        EscapeIsDecoded(head + rest, s[1..]);
      }
    }
  }

  /** Unreserved bytes and %HH with capital digits, nothing else, and no unreserved byte is spelt %HH. */
  predicate Minimal(t: Bytes)
    decreases |t|
  {
    || t == []
    || (Unreserved(t[0]) && Minimal(t[1..]))
    || (|t| >= 3 && t[0] == PERCENT && UpperHex(t[1]) && UpperHex(t[2])
        && !Unreserved(HexPair(t[1], t[2])) && Minimal(t[3..]))
  }

  lemma HexPairIsSpelt(high: Byte, low: Byte)
    requires UpperHex(high) && UpperHex(low) && !Unreserved(HexPair(high, low))
    ensures EncodedByte(HexPair(high, low)) == [PERCENT, high, low]
  {
    var h, l := HexValue(high).value, HexValue(low).value;
    assert (h * 16 + l) / 16 == h && (h * 16 + l) % 16 == l;
  }

  /** Encoding inverts decoding on every text in the encoder's own form, so that form is canonical. */
  lemma {:induction false} EncodingInverts(t: Bytes)
    requires Minimal(t)
    ensures Decoded(t).Some? && Encoded(Decoded(t).value) == t
    decreases |t|
  {
    hide HexPair, EncodedByte;
    if t != [] {
      if t[0] == PERCENT {
        EncodingInverts(t[3..]);
        var rest := Decoded(t[3..]).value;
        EscapeIsDecoded(t, rest);
        HexPairIsSpelt(t[1], t[2]);
        EncodedConcat([HexPair(t[1], t[2])], rest);
        assert Encoded([HexPair(t[1], t[2])]) == EncodedByte(HexPair(t[1], t[2])) + Encoded([]);
        assert t == [t[0], t[1], t[2]] + t[3..];
      } else {
        PlainInverts(t);
      }
    }
  }

  lemma PlainInverts(t: Bytes)
    requires t != [] && Unreserved(t[0]) && Minimal(t[1..])
    ensures Decoded(t).Some? && Encoded(Decoded(t).value) == t
    decreases |t|, 0
  {
    hide HexPair;
    EncodingInverts(t[1..]);
    assert t == [t[0]] + t[1..];
    assert Decoded(t).value[1..] == Decoded(t[1..]).value;
  }

  /** uriEncode's output is always of that form. */
  lemma {:induction false} EncodedIsMinimal(s: Bytes)
    ensures Minimal(Encoded(s))
  {
    if s != [] {
      EncodedIsMinimal(s[1..]);
      var head, rest := EncodedByte(s[0]), Encoded(s[1..]);
      assert (head + rest)[|head|..] == rest;
      assert s[0] / 16 * 16 + s[0] % 16 == s[0];
    }
  }

  lemma {:induction false} EncodedHasNo(s: Bytes, c: Byte)
    requires !Unreserved(c) && c != PERCENT && !UpperHex(c)
    ensures c !in Encoded(s)
  {
    if s != [] {
      EncodedHasNo(s[1..], c);
    }
  }

  // ---- Splitting and joining ----

  /** strings.Split on a single byte: one segment more than there are separators. */
  function Split(s: Bytes, sep: Byte): (segments: seq<Bytes>)
    ensures |segments| >= 1
  {
    if s == [] then [[]]
    else
      var rest := Split(s[1..], sep);
      if s[0] == sep then [[]] + rest else [[s[0]] + rest[0]] + rest[1..]
  }

  /** strings.Join */
  function Join(segments: seq<Bytes>, sep: Byte): Bytes {
    if segments == [] then []
    else if |segments| == 1 then segments[0]
    else segments[0] + [sep] + Join(segments[1..], sep)
  }

  lemma {:induction false} JoinSplit(s: Bytes, sep: Byte)
    ensures Join(Split(s, sep), sep) == s
  {
    if s != [] {
      JoinSplit(s[1..], sep);
      var rest := Split(s[1..], sep);
      if s[0] == sep {
        assert ([[]] + rest)[1..] == rest;
        assert Join([[]] + rest, sep) == [sep] + Join(rest, sep);
      } else {
        var longer := [[s[0]] + rest[0]] + rest[1..];
        assert longer[1..] == rest[1..];
        assert Join(longer, sep) == [s[0]] + Join(rest, sep);
      }
      assert s == [s[0]] + s[1..];
    }
  }

  lemma {:induction false} SplitPrefix(a: Bytes, s: Bytes, sep: Byte)
    requires sep !in a
    ensures Split(a + s, sep) == [a + Split(s, sep)[0]] + Split(s, sep)[1..]
  {
    if a == [] {
      assert a + s == s;
      assert a + Split(s, sep)[0] == Split(s, sep)[0];
    } else {
      assert a[0] != sep;
      SplitPrefix(a[1..], s, sep);
      assert (a + s)[1..] == a[1..] + s;
      var first := Split(s, sep)[0];
      assert a + first == [a[0]] + (a[1..] + first);
    }
  }

  lemma {:induction false} SplitJoin(segments: seq<Bytes>, sep: Byte)
    requires segments != [] && forall i | 0 <= i < |segments| :: sep !in segments[i]
    ensures Split(Join(segments, sep), sep) == segments
    decreases |segments|
  {
    var a := segments[0];
    if |segments| == 1 {
      SplitPrefix(a, [], sep);
      assert a + [] == a;
    } else {
      SplitJoin(segments[1..], sep);
      var tail := [sep] + Join(segments[1..], sep);
      assert tail[1..] == Join(segments[1..], sep);
      SplitPrefix(a, tail, sep);
      assert Join(segments, sep) == a + tail;
      assert Split(tail, sep) == [[]] + segments[1..];
      assert a + [] == a && Split(tail, sep)[0] == [] && Split(tail, sep)[1..] == segments[1..];
      assert segments == [a] + segments[1..];
    }
  }

  function EncodedAll(segments: seq<Bytes>): seq<Bytes> {
    seq(|segments|, i requires 0 <= i < |segments| => Encoded(segments[i]))
  }

  function EncodedPath(key: Bytes): Bytes {
    Join(EncodedAll(Split(key, SLASH)), SLASH)
  }

  /** encodePath: the segments are overwritten in place. */
  method EncodePath(key: Bytes) returns (path: Bytes)
    ensures path == EncodedPath(key)
  {
    var parts := Split(key, SLASH);
    var segments := new Bytes[|parts|](i requires 0 <= i < |parts| => parts[i]);
    for i := 0 to segments.Length
      invariant forall j | 0 <= j < i :: segments[j] == Encoded(parts[j])
      invariant forall j | i <= j < |parts| :: segments[j] == parts[j]
    {
      segments[i] := UriEncode(segments[i]);
    }
    assert segments[..] == EncodedAll(parts);
    path := Join(segments[..], SLASH);
  }

  /** Splitting an encoded path at its slashes and decoding each segment gives the segments of the key. */
  lemma PathDecodesSegmentBySegment(key: Bytes, i: nat)
    requires i < |Split(key, '/' as int)|
    ensures |Split(EncodedPath(key), '/' as int)| == |Split(key, '/' as int)|
    ensures Decoded(Split(EncodedPath(key), '/' as int)[i]) == Some(Split(key, '/' as int)[i])
  {
    var segments := Split(key, SLASH);
    forall j | 0 <= j < |segments|
      ensures SLASH !in EncodedAll(segments)[j]
    {
      EncodedHasNo(segments[j], SLASH);
    }
    SplitJoin(EncodedAll(segments), SLASH);
    DecodingInverts(segments[i]);
  }

  /** So no two keys share a path. */
  lemma PathIsInjective(a: Bytes, b: Bytes)
    requires EncodedPath(a) == EncodedPath(b)
    ensures a == b
  {
    var s, t := Split(a, SLASH), Split(b, SLASH);
    PathDecodesSegmentBySegment(a, 0);
    PathDecodesSegmentBySegment(b, 0);
    forall i | 0 <= i < |s|
      ensures s[i] == t[i]
    {
      PathDecodesSegmentBySegment(a, i);
      PathDecodesSegmentBySegment(b, i);
    }
    assert s == t;
    JoinSplit(a, SLASH);
    JoinSplit(b, SLASH);
  }
}
