/**
  matching/cursor.go: the two keyset cursors.  Base64 and JSON are taken to round-trip, so
  a raw cursor is nothing, something undecodable, or its decoded fields.
 */
module Cursor {

  const VERSION := 1
  const NIL_UUID: nat := 0
  const ZERO_TIME: int := 0

  /** A score is a numeric with six decimals, here counted in millionths. */
  const MICRO: int := 1000000

  datatype Raw<+T> = Empty | Undecodable | Decoded(fields: T)
  datatype Parsed<+T> = NoCursor | At(cursor: T) | BadRequest

  datatype DiscoverCursor = DiscoverCursor(version: int, score: string, userId: nat)
  datatype MatchCursor = MatchCursor(version: int, createdAt: int, id: nat)

  // ---- Decimal text ----

  predicate IsDigit(c: char) {
    '0' <= c <= '9'
  }

  function Digit(d: nat): (c: char)
    requires d < 10
    ensures IsDigit(c) && c != '.'
  {
    (d + '0' as int) as char
  }

  function DigitValue(c: char): (d: nat)
    requires IsDigit(c)
    ensures d < 10 && Digit(d) == c
  {
    c as int - '0' as int
  }

  function Number(s: string): nat
    requires forall i | 0 <= i < |s| :: IsDigit(s[i])
  {
    if s == [] then 0 else Number(s[..|s| - 1]) * 10 + DigitValue(s[|s| - 1])
  }

  function Power10(n: nat): nat {
    if n == 0 then 1 else 10 * Power10(n - 1)
  }

  /** n in decimal, without leading zeros. */
  function Decimal(n: nat): (s: string)
    ensures |s| >= 1 && forall i | 0 <= i < |s| :: IsDigit(s[i])
    ensures n < 10 <==> |s| == 1
  {
    if n < 10 then [Digit(n)] else Decimal(n / 10) + [Digit(n % 10)]
  }

  /** The last k decimal digits of n. */
  function Padded(n: nat, k: nat): (s: string)
    ensures |s| == k && forall i | 0 <= i < k :: IsDigit(s[i])
  {
    if k == 0 then "" else Padded(n / 10, k - 1) + [Digit(n % 10)]
  }

  lemma {:induction false} PaddedIsRead(n: nat, k: nat)
    requires n < Power10(k)
    ensures Number(Padded(n, k)) == n
  {
    if k > 0 {
      PaddedIsRead(n / 10, k - 1);
      var s := Padded(n, k);
      assert s[..k - 1] == Padded(n / 10, k - 1);
    }
  }

  /** score::text of a numeric with six decimals. */
  function ScoreText(micro: int): string {
    var abs := if micro < 0 then -micro else micro;
    (if micro < 0 then "-" else "") + Decimal(abs / MICRO) + "." + Padded(abs % MICRO, 6)
  }

  /** `^(0|1)(\.[0-9]{1,10})?$` */
  predicate DecimalPattern(s: string) {
    && |s| >= 1 && (s[0] == '0' || s[0] == '1')
    && (|s| == 1 || (3 <= |s| <= 12 && s[1] == '.' && forall i | 2 <= i < |s| :: IsDigit(s[i])))
  }

  /** The value of such a text, in units of 10^-10: exact, whatever digits it carries. */
  function Units(s: string): nat
    requires DecimalPattern(s)
  {
    (if s[0] == '1' then Power10(10) else 0)
      + if |s| == 1 then 0 else Number(s[2..]) * Power10(12 - |s|)
  }

  // ---- The two parsers ----

  function ParseDiscover(raw: Raw<DiscoverCursor>): Parsed<DiscoverCursor> {
    match raw
    case Empty => NoCursor
    case Undecodable => BadRequest
    case Decoded(c) =>
      if c.version != VERSION || c.userId == NIL_UUID || !DecimalPattern(c.score) then BadRequest
      else if Units(c.score) > Power10(10) then BadRequest
      else At(c)
  }

  function ParseMatch(raw: Raw<MatchCursor>): Parsed<MatchCursor> {
    match raw
    case Empty => NoCursor
    case Undecodable => BadRequest
    case Decoded(c) =>
      if c.version != VERSION || c.id == NIL_UUID || c.createdAt == ZERO_TIME then BadRequest
      else At(c)
  }

  function EncodeDiscover(micro: int, userId: nat): Raw<DiscoverCursor> {
    Decoded(DiscoverCursor(VERSION, ScoreText(micro), userId))
  }

  function EncodeMatch(createdAt: int, id: nat): Raw<MatchCursor> {
    Decoded(MatchCursor(VERSION, createdAt, id))
  }

  lemma Power10Table()
    ensures Power10(4) == 10000 && Power10(6) == 1000000 && Power10(10) == 10000000000
  {
    assert Power10(2) == 100 && Power10(4) == 10000 && Power10(6) == 1000000 && Power10(8) == 100000000;
  }

  /** A score below two is written as one digit, a point and six digits, and reads back exactly. */
  lemma ScoreTextIsRead(micro: int)
    requires 0 <= micro < 2 * MICRO
    ensures DecimalPattern(ScoreText(micro)) && Units(ScoreText(micro)) == micro * Power10(4)
  {
    Power10Table();
    var whole, part := micro / MICRO, micro % MICRO;
    PaddedIsRead(part, 6);
    var s := ScoreText(micro);
    assert s == [Digit(whole), '.'] + Padded(part, 6);
    assert s[2..] == Padded(part, 6);
  }

  lemma LargeScoreHasNoPattern(micro: int)
    requires micro < 0 || micro >= 2 * MICRO
    ensures !DecimalPattern(ScoreText(micro))
  {
    var s := ScoreText(micro);
    if micro < 0 {
      assert s[0] == '-';
    } else {
      var whole := Decimal(micro / MICRO);
      if micro / MICRO < 10 {
        assert s[0] == Digit(micro / MICRO);
      } else {
        assert s[1] == whole[1] && IsDigit(whole[1]);
      }
    }
  }

  /**
    A cursor the feed emits is accepted exactly when the score it carries is within [0, 1]
    (user ids are never nil), and the position it names is then the one it was made from.
   */
  lemma EmittedCursorAccepted(micro: int, userId: nat)
    requires userId != NIL_UUID
    ensures ParseDiscover(EncodeDiscover(micro, userId)).At? <==> 0 <= micro <= MICRO
    ensures 0 <= micro <= MICRO ==>
              && ParseDiscover(EncodeDiscover(micro, userId)).cursor.userId == userId
              && Units(ParseDiscover(EncodeDiscover(micro, userId)).cursor.score) == micro * Power10(4)
  {
    hide ScoreText, DecimalPattern, Units;
    Power10Table();
    if 0 <= micro < 2 * MICRO {
      ScoreTextIsRead(micro);
    } else {
      LargeScoreHasNoPattern(micro);
    }
  }

  /** The order of the texts' values is the order of the scores they were made from. */
  lemma TextOrderIsScoreOrder(a: int, b: int)
    requires 0 <= a <= MICRO && 0 <= b <= MICRO
    ensures DecimalPattern(ScoreText(a)) && DecimalPattern(ScoreText(b))
    ensures Units(ScoreText(a)) < Units(ScoreText(b)) <==> a < b
    ensures Units(ScoreText(a)) == Units(ScoreText(b)) <==> a == b
  {
    hide ScoreText, DecimalPattern, Units;
    Power10Table();
    ScoreTextIsRead(a);
    ScoreTextIsRead(b);
  }

  // ---- What a client may send ----

  /** A digit, and up to ten more behind a point. */
  predicate IsDecimal(s: string) {
    && (|s| == 1 || 3 <= |s| <= 12) && (|s| > 1 ==> s[1] == '.')
    && forall i | 0 <= i < |s| && i != 1 :: s[i] in "0123456789"
  }

  lemma {:induction false} NumberOfZeros(s: string)
    requires forall i | 0 <= i < |s| :: IsDigit(s[i])
    ensures Number(s) == 0 <==> forall i | 0 <= i < |s| :: s[i] == '0'
    decreases |s|
  {
    if s != [] {
      var n := |s| - 1;
      NumberOfZeros(s[..n]);
    }
  }

  lemma {:induction false} NumberIsBelow(s: string)
    requires forall i | 0 <= i < |s| :: IsDigit(s[i])
    ensures Number(s) < Power10(|s|)
    decreases |s|
  {
    if s != [] {
      NumberIsBelow(s[..|s| - 1]);
    }
  }

  lemma {:induction false} PowersMultiply(m: nat, n: nat)
    ensures Power10(m) * Power10(n) == Power10(m + n) && Power10(n) >= 1
  {
    if m > 0 {
      PowersMultiply(m - 1, n);
      assert 10 * Power10(m - 1) * Power10(n) == 10 * (Power10(m - 1) * Power10(n));
    } else {
      PowersArePositive(n);
    }
  }

  lemma {:induction false} PowersArePositive(n: nat)
    ensures Power10(n) >= 1
  {
    if n > 0 {
      PowersArePositive(n - 1);
    }
  }

  lemma FractionIsBelowOne(s: string)
    requires DecimalPattern(s) && |s| > 1
    ensures Number(s[2..]) * Power10(12 - |s|) < Power10(10)
    ensures Number(s[2..]) * Power10(12 - |s|) == 0 <==> Number(s[2..]) == 0
  {
    var digits := s[2..];
    assert forall i | 0 <= i < |digits| :: digits[i] == s[i + 2];
    NumberIsBelow(digits);
    PowersMultiply(|digits|, 12 - |s|);
    LessTimes(Number(digits), Power10(|digits|), Power10(12 - |s|));
  }

  lemma LessTimes(a: nat, b: nat, n: nat)
    requires a < b && n >= 1
    ensures a * n < b * n && (a * n == 0 <==> a == 0)
  {
  }

  lemma FractionDigits(s: string)
    requires DecimalPattern(s) && |s| > 1
    ensures Number(s[2..]) == 0 <==> forall i | 2 <= i < |s| :: s[i] == '0'
  {
    var digits := s[2..];
    assert forall i | 0 <= i < |digits| :: digits[i] == s[i + 2];
    NumberOfZeros(digits);
    assert forall i | 2 <= i < |s| :: s[i] == digits[i - 2];
  }

  lemma AtMostOne(s: string)
    requires DecimalPattern(s)
    ensures Units(s) <= Power10(10) <==> s[0] == '0' || forall i | 2 <= i < |s| :: s[i] == '0'
  {
    hide Number, Power10;
    if |s| > 1 {
      FractionIsBelowOne(s);
      FractionDigits(s);
    }
  }

  /** A score is accepted iff it is a decimal from 0 to 1: one beginning with 0, or a 1 with nothing but zeros. */
  lemma AcceptedScores(s: string)
    ensures DecimalPattern(s) && Units(s) <= Power10(10)
            <==> IsDecimal(s) && (s[0] == '0' || (s[0] == '1' && forall i | 2 <= i < |s| :: s[i] == '0'))
  {
    hide DecimalPattern, Units, Power10;
    PatternIsDecimal(s);
    if DecimalPattern(s) {
      AtMostOne(s);
    }
  }

  lemma PatternIsDecimal(s: string)
    ensures DecimalPattern(s) <==> IsDecimal(s) && (s[0] == '0' || s[0] == '1')
  {
    assert forall c: char :: c in "0123456789" <==> IsDigit(c);
  }

  /**
    Whatever a client sends: nothing at all is the first page; a cursor is taken iff it decodes,
    has version 1, names a user, and carries a decimal from 0 to 1; anything else is refused.
   */
  lemma DiscoverCursorIsTakenIff(raw: Raw<DiscoverCursor>)
    ensures ParseDiscover(raw).NoCursor? <==> raw.Empty?
    ensures ParseDiscover(raw).At? <==>
              && raw.Decoded? && raw.fields.version == 1 && raw.fields.userId != 0
              && var s := raw.fields.score;
                 IsDecimal(s) && (s[0] == '0' || (s[0] == '1' && forall i | 2 <= i < |s| :: s[i] == '0'))
    ensures ParseDiscover(raw).At? ==> ParseDiscover(raw).cursor == raw.fields
  {
    if raw.Decoded? {
      AcceptedScores(raw.fields.score);
    }
  }

  /** The same for the list of matches: version 1, an id, and a time. */
  lemma MatchCursorIsTakenIff(raw: Raw<MatchCursor>)
    ensures ParseMatch(raw).NoCursor? <==> raw.Empty?
    ensures ParseMatch(raw).At? <==>
              raw.Decoded? && raw.fields.version == 1 && raw.fields.id != 0 && raw.fields.createdAt != 0
    ensures ParseMatch(raw).At? ==> ParseMatch(raw).cursor == raw.fields
  {
  }
}
