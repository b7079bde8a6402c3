/**
  storage/s3.go's canonicalQuery: whatever order the map is iterated in, one text, and a
  text that parses back to the map.
 */
module Query {
  import opened Wrappers
  import opened Uri
  import Order

  type Params = map<Bytes, Bytes>

  /** sort.Strings compares byte by byte. */
  predicate LexLess(a: Bytes, b: Bytes)
    decreases |a|
  {
    b != [] && (a == [] || a[0] < b[0] || (a[0] == b[0] && LexLess(a[1..], b[1..])))
  }

  lemma {:induction false} LexAsymmetric(a: Bytes, b: Bytes)
    requires LexLess(a, b)
    ensures !LexLess(b, a)
    decreases |a|
  {
    if a != [] && a[0] == b[0] {
      LexAsymmetric(a[1..], b[1..]);
    }
  }

  lemma {:induction false} LexTransitive(a: Bytes, b: Bytes, c: Bytes)
    requires LexLess(a, b) && LexLess(b, c)
    ensures LexLess(a, c)
    decreases |a|
  {
    if a != [] && a[0] == b[0] == c[0] {
      LexTransitive(a[1..], b[1..], c[1..]);
    }
  }

  lemma {:induction false} LexTotal(a: Bytes, b: Bytes)
    requires a != b
    ensures LexLess(a, b) || LexLess(b, a)
    decreases |a|
  {
    if a != [] && b != [] && a[0] == b[0] {
      assert a == [a[0]] + a[1..] && b == [b[0]] + b[1..];
      LexTotal(a[1..], b[1..]);
    }
  }

  /** The order of strings: at the first byte where they differ the smaller one, or else the shorter. */
  lemma {:induction false} LexLessIs(a: Bytes, b: Bytes)
    ensures LexLess(a, b) <==> exists k: nat ::
              && k <= |a| && k < |b| && a[..k] == b[..k]
              && (k == |a| || a[k] < b[k])
    decreases |a|
  {
    if a != [] && b != [] && a[0] == b[0] {
      LexLessIs(a[1..], b[1..]);
      if k: nat :| k <= |a[1..]| && k < |b[1..]| && a[1..][..k] == b[1..][..k] && (k == |a[1..]| || a[1..][k] < b[1..][k]) {
        assert a[..k + 1] == [a[0]] + a[1..][..k] && b[..k + 1] == [b[0]] + b[1..][..k];
        assert k + 1 <= |a| && k + 1 < |b| && a[..k + 1] == b[..k + 1] && (k + 1 == |a| || a[k + 1] < b[k + 1]);
      }
      if k: nat :| k <= |a| && k < |b| && a[..k] == b[..k] && (k == |a| || a[k] < b[k]) {
        assert a[1..][..k - 1] == a[..k][1..] && b[1..][..k - 1] == b[..k][1..];
        assert k - 1 <= |a[1..]| && k - 1 < |b[1..]| && (k - 1 == |a[1..]| || a[1..][k - 1] < b[1..][k - 1]);
      }
    } else if LexLess(a, b) {
      assert a[..0] == b[..0];
    } else {
      forall k: nat | 0 < k <= |a| && k < |b| && a[0] != b[0]
        ensures a[..k] != b[..k]
      {
        assert a[..k][0] == a[0] && b[..k][0] == b[0];
      }
    }
  }

  lemma LexIsAsymmetric()
    ensures Order.Asymmetric(LexLess)
  {
    forall a, b | LexLess(a, b)
      ensures !LexLess(b, a)
    {
      LexAsymmetric(a, b);
    }
  }

  ghost predicate Ascending(keys: seq<Bytes>) {
    Order.Ascending(LexLess, keys)
  }

  /** sort.Strings, as repeated insertion. */
  method SortKeys(keys: seq<Bytes>) returns (sorted: seq<Bytes>)
    requires forall i, j | 0 <= i < j < |keys| :: keys[i] != keys[j]
    ensures Ascending(sorted) && forall k :: k in sorted <==> k in keys
  {
    sorted := [];
    for n := 0 to |keys|
      invariant Ascending(sorted)
      invariant forall k :: k in sorted <==> k in keys[..n]
    {
      assert keys[n] !in keys[..n];
      sorted := Insert(sorted, keys[n]);
      assert keys[..n + 1] == keys[..n] + [keys[n]];
    }
    assert keys[..|keys|] == keys;
  }

  method Insert(sorted: seq<Bytes>, key: Bytes) returns (r: seq<Bytes>)
    requires Ascending(sorted) && key !in sorted
    ensures Ascending(r) && forall k :: k in r <==> k in sorted || k == key
  {
    hide LexLess;
    var i := 0;
    while i < |sorted| && LexLess(sorted[i], key)
      invariant 0 <= i <= |sorted|
      invariant forall j | 0 <= j < i :: LexLess(sorted[j], key)
    {
      i := i + 1;
    }
    forall j | i <= j < |sorted|
      ensures LexLess(key, sorted[j])
    {
      LexTotal(key, sorted[i]);
      if i < j {
        LexTransitive(key, sorted[i], sorted[j]);
      }
    }
    r := sorted[..i] + [key] + sorted[i..];
    assert sorted == sorted[..i] + sorted[i..];
  }

  function Part(params: Params, k: Bytes): Bytes
    requires k in params
  {
    Encoded(k) + ['=' as int] + Encoded(params[k])
  }

  function Parts(params: Params, keys: seq<Bytes>): seq<Bytes>
    requires forall k | k in keys :: k in params
  {
    seq(|keys|, i requires 0 <= i < |keys| => Part(params, keys[i]))
  }

  /** All parameters, each once, in ascending order of their keys. */
  ghost predicate IsCanonical(params: Params, text: Bytes) {
    exists keys ::
      && Ascending(keys)
      && (forall k :: k in keys <==> k in params)
      && text == Join(Parts(params, keys), '&' as int)
  }

  /** Ranging over the map: every key once, in no particular order. */
  method KeysOf(params: Params) returns (keys: seq<Bytes>)
    ensures forall k :: k in keys <==> k in params
    ensures forall i, j | 0 <= i < j < |keys| :: keys[i] != keys[j]
  {
    keys := [];
    var left := params.Keys;
    while left != {}
      invariant left <= params.Keys
      invariant forall k :: k in keys <==> k in params && k !in left
      invariant forall i, j | 0 <= i < j < |keys| :: keys[i] != keys[j]
      decreases |left|
    {
      var k :| k in left;
      keys := keys + [k];
      left := left - {k};
    }
  }

  /** canonicalQuery */
  method CanonicalQuery(params: Params) returns (text: Bytes)
    ensures IsCanonical(params, text)
  {
    hide Encoded, Join, Ascending;
    var keys := KeysOf(params);
    keys := SortKeys(keys);
    var parts: seq<Bytes> := [];
    for i := 0 to |keys|
      invariant parts == Parts(params, keys)[..i]
    {
      assert keys[i] in keys;
      var name := UriEncode(keys[i]);
      var value := UriEncode(params[keys[i]]);
      parts := parts + [name + [EQUALS] + value];
    }
    assert parts == Parts(params, keys);
    text := Join(parts, AMPERSAND);
    assert Ascending(keys) && (forall k :: k in keys <==> k in params) && text == Join(Parts(params, keys), AMPERSAND);
  }

  /** So iteration order leaves no trace. */
  lemma CanonicalIsUnique(params: Params, a: Bytes, b: Bytes)
    requires IsCanonical(params, a) && IsCanonical(params, b)
    ensures a == b
  {
    var s :| Ascending(s) && (forall k :: k in s <==> k in params) && a == Join(Parts(params, s), AMPERSAND);
    var t :| Ascending(t) && (forall k :: k in t <==> k in params) && b == Join(Parts(params, t), AMPERSAND);
    LexIsAsymmetric();
    Order.AscendingIsUnique(LexLess, s, t);
  }

  // ---- Reading a query back ----

  /** name=value, both percent-decoded. */
  function ParsePart(part: Bytes): Option<(Bytes, Bytes)> {
    var fields := Split(part, EQUALS);
    if |fields| != 2 then None
    else match (Decoded(fields[0]), Decoded(fields[1]))
      case (Some(k), Some(v)) => Some((k, v))
      case _ => None
  }

  function ParseParts(parts: seq<Bytes>): Option<Params> {
    if parts == [] then Some(map[])
    else match (ParseParts(parts[..|parts| - 1]), ParsePart(parts[|parts| - 1]))
      case (Some(m), Some(field)) => Some(m[field.0 := field.1])
      case _ => None
  }

  function ParseQuery(text: Bytes): Option<Params> {
    if text == [] then Some(map[]) else ParseParts(Split(text, AMPERSAND))
  }

  lemma PartIsParsed(params: Params, k: Bytes)
    requires k in params
    ensures ParsePart(Part(params, k)) == Some((k, params[k]))
    ensures AMPERSAND !in Part(params, k) && Part(params, k) != []
  {
    var a, b := Encoded(k), Encoded(params[k]);
    EncodedHasNo(k, EQUALS);
    EncodedHasNo(params[k], EQUALS);
    EncodedHasNo(k, AMPERSAND);
    EncodedHasNo(params[k], AMPERSAND);
    assert Join([a, b], EQUALS) == a + [EQUALS] + b;
    SplitJoin([a, b], EQUALS);
    DecodingInverts(k);
    DecodingInverts(params[k]);
  }

  lemma {:induction false} PartsAreParsed(params: Params, keys: seq<Bytes>)
    requires forall k | k in keys :: k in params
    ensures ParseParts(Parts(params, keys)) == Some(map k | k in keys :: params[k])
    decreases |keys|
  {
    hide ParsePart, Part;
    if keys != [] {
      var n := |keys| - 1;
      PartsAreParsed(params, keys[..n]);
      PartIsParsed(params, keys[n]);
      assert Parts(params, keys)[..n] == Parts(params, keys[..n]);
      assert keys == keys[..n] + [keys[n]];
      assert (map k | k in keys :: params[k]) == (map k | k in keys[..n] :: params[k])[keys[n] := params[keys[n]]];
    } else {
      assert (map k | k in keys :: params[k]) == map[];
    }
  }

  lemma JoinOfNonEmpty(parts: seq<Bytes>)
    requires parts != [] && parts[0] != []
    ensures Join(parts, AMPERSAND) != []
  {
  }

  /** Parsing the canonical text gives exactly the parameters it was made from. */
  lemma ParsingRecovers(params: Params, text: Bytes)
    requires IsCanonical(params, text)
    ensures ParseQuery(text) == Some(params)
  {
    hide ParseParts, Part;
    var keys :| Ascending(keys) && (forall k :: k in keys <==> k in params) && text == Join(Parts(params, keys), AMPERSAND);
    var parts := Parts(params, keys);
    forall i | 0 <= i < |parts|
      ensures AMPERSAND !in parts[i] && parts[i] != []
    {
      PartIsParsed(params, keys[i]);
    }
    PartsAreParsed(params, keys);
    assert (map k | k in keys :: params[k]) == params;
    if keys == [] {
      EmptyParts(params);
    } else {
      JoinOfNonEmpty(parts);
      SplitJoin(parts, AMPERSAND);
    }
  }

  lemma EmptyParts(params: Params)
    ensures Join(Parts(params, []), AMPERSAND) == []
    ensures ParseQuery([]) == Some(map[])
  {
  }
}
