/** Parsing and verifying signed fragments, and what signing and verifying promise together. */
module SignedUrlCheck {
  import opened Text
  import opened Ordering
  import opened Delimited
  import opened Percent
  import opened SignedUrl
  import Decimal

  // ---------- Parsing ----------

  function ParsedSegment(segment: Bytes): Result<Pair, Malformation> {
    if segment == [] then Err(EmptySegment)
    else
      match SplitOnce(segment, EQUALS)
      case None => Err(MissingEquals)
      case Some((key, value)) =>
        match (Decoded(key), Decoded(value))
        case (Ok(k), Ok(v)) => Ok((k, v))
        case (Err(e), _) => Err(BadEscape(e))
        case (Ok(_), Err(e)) => Err(BadEscape(e))
  }

  function ParsedSegments(segments: seq<Bytes>, pairs: seq<Pair>): Result<seq<Pair>, Malformation> {
    if segments == [] then Ok(pairs)
    else
      match ParsedSegment(segments[0])
      case Ok(p) => ParsedSegments(segments[1..], pairs + [p])
      case Err(e) => Err(e)
  }

  function WithoutQuestion(query: Bytes): Bytes {
    if query != [] && query[0] == QUESTION then query[1..] else query
  }

  function ParsedQuery(query: Bytes): Result<seq<Pair>, Malformation> {
    var body := WithoutQuestion(query);
    if body == [] then Ok([]) else ParsedSegments(Split(body, AMPERSAND), [])
  }

  method ParseQuery(query: Bytes) returns (r: Result<seq<Pair>, Malformation>)
    ensures r == ParsedQuery(query)
  {
    var body := WithoutQuestion(query);
    if body == [] {
      return Ok([]);
    }
    var segments := Split(body, AMPERSAND);
    var pairs := [];
    assert segments[0..] == segments;
    for i := 0 to |segments|
      invariant ParsedSegments(segments, []) == ParsedSegments(segments[i..], pairs)
    {
      var segment := segments[i];
      assert segments[i..][1..] == segments[i + 1..];
      if segment == [] {
        return Err(EmptySegment);
      }
      var cut := SplitOnce(segment, EQUALS);
      if cut == None {
        return Err(MissingEquals);
      }
      var key := PercentDecode(cut.value.0);
      if key.Err? {
        return Err(BadEscape(key.error));
      }
      var value := PercentDecode(cut.value.1);
      if value.Err? {
        return Err(BadEscape(value.error));
      }
      pairs := pairs + [(key.value, value.value)];
    }
    return Ok(pairs);
  }

  lemma SegmentReadsBack(p: Pair)
    requires Utf8(p.0) && Utf8(p.1)
    ensures ParsedSegment(Segment(p)) == Ok(p)
  {
    EncodedFree(p.0, EQUALS);
    Reassociate(Encoded(p.0), [EQUALS], Encoded(p.1));
    SplitOnceAtFirst(Encoded(p.0), Encoded(p.1), EQUALS);
    DecodeEncoded(p.0);
    DecodeEncoded(p.1);
  }

  lemma {:induction false} SegmentsReadBack(pairs: seq<Pair>, front: seq<Pair>)
    requires IsText(pairs)
    ensures ParsedSegments(Segments(pairs), front) == Ok(front + pairs)
  {
    if pairs == [] {
      assert front + pairs == front;
    } else {
      SegmentReadsBack(pairs[0]);
      SegmentsReadBack(pairs[1..], front + [pairs[0]]);
      assert Segments(pairs)[1..] == Segments(pairs[1..]);
      assert front + [pairs[0]] + pairs[1..] == front + pairs;
    }
  }

  lemma {:induction false} SegmentsFree(pairs: seq<Pair>, b: byte)
    requires !IsEncodingByte(b) && b != EQUALS
    ensures |Segments(pairs)| == |pairs|
    ensures forall i :: 0 <= i < |pairs| ==> Segments(pairs)[i] != [] && Free(Segments(pairs)[i], b)
  {
    if pairs != [] {
      SegmentFree(pairs[0], b);
      SegmentsFree(pairs[1..], b);
    }
  }

  /** Printing pairs as a query and parsing them is the identity, for any text at all. */
  lemma QueryRoundTrip(pairs: seq<Pair>)
    requires IsText(pairs) && pairs != []
    ensures ParsedQuery(Joined(Segments(pairs), AMPERSAND)) == Ok(pairs)
  {
    var parts := Segments(pairs);
    SegmentsFree(pairs, AMPERSAND);
    SegmentsFree(pairs, QUESTION);
    SplitJoined(parts, AMPERSAND);
    SegmentsReadBack(pairs, []);
    assert [] + pairs == pairs;
    assert Joined(parts, AMPERSAND)[0] == parts[0][0];
  }

  /** Parsing a signed fragment gives back the sorted pairs, then expiry and signature. */
  lemma ParseSigned(signer: Signer, path: Bytes, expires: i64, extra: seq<Pair>)
    requires IsText(extra)
    ensures ParsedQuery(Fragment(signer, path, expires, extra)) == Ok(SignedPairs(signer, path, expires, extra))
  {
    SignedPairsAreText(signer, path, expires, extra);
    QueryRoundTrip(SignedPairs(signer, path, expires, extra));
  }

  lemma SignedPairsAreText(signer: Signer, path: Bytes, expires: i64, extra: seq<Pair>)
    requires IsText(extra)
    ensures IsText(SignedPairs(signer, path, expires, extra))
  {
    PairIsTotalOrder();
    SortedIsSorted(PairLe, extra);
    PermutationIsText(extra, Sorted(PairLe, extra));
    ReservedIsText(expires, signer.TagOf(Payload(path, expires, extra)));
  }

  lemma PermutationIsText(a: seq<Pair>, b: seq<Pair>)
    requires IsText(a) && multiset(a) == multiset(b)
    ensures IsText(b)
  {
    forall i | 0 <= i < |b|
      ensures Utf8(b[i].0) && Utf8(b[i].1)
    {
      assert b[i] in multiset(a);
    }
  }

  lemma AsciiPairIsText(p: Pair)
    requires IsAscii(p.0) && IsAscii(p.1)
    ensures Utf8(p.0) && Utf8(p.1)
  {
    AsciiIsUtf8(p.0);
    AsciiIsUtf8(p.1);
  }

  lemma ReservedIsText(expires: i64, tag: Tag)
    ensures IsText(Reserved(expires, tag))
  {
    hide Utf8, Decimal.Printed, HexText;
    Decimal.PrintedAlphabet(expires);
    HexTextIsAlphanumeric(tag);
    var reserved := Reserved(expires, tag);
    forall i | 0 <= i < |reserved|
      ensures Utf8(reserved[i].0) && Utf8(reserved[i].1)
    {
      AsciiPairIsText(reserved[i]);
    }
  }

  // ---------- Sorting parameters into signature, expiry and the rest ----------

  datatype View = View(signature: Option<Bytes>, expires: Option<i64>, extra: seq<Pair>)

  const NOTHING: View := View(None, None, [])

  predicate HasName(pairs: seq<Pair>, name: Bytes) {
    exists i :: 0 <= i < |pairs| && pairs[i].0 == name
  }

  function Collected(pairs: seq<Pair>, view: View): Result<View, Malformation> {
    if pairs == [] then Ok(view)
    else
      var (key, value) := pairs[0];
      if key == SIGNATURE then
        if view.signature.Some? then Err(DuplicateSignature)
        else Collected(pairs[1..], view.(signature := Some(value)))
      else if key == EXPIRES then
        if view.expires.Some? then Err(DuplicateExpires)
        else
          match Decimal.Parsed(value)
          case None => Err(ExpiresNotInteger)
          case Some(parsed) => Collected(pairs[1..], view.(expires := Some(parsed)))
      else if HasName(view.extra, key) then Err(DuplicateParameter)
      else Collected(pairs[1..], view.(extra := view.extra + [(key, value)]))
  }

  function ViewOf(query: Bytes): Result<View, Malformation> {
    match ParsedQuery(query)
    case Ok(pairs) => Collected(pairs, NOTHING)
    case Err(e) => Err(e)
  }

  // ---------- Verifying ----------

  function Verdict(signer: Signer, path: Bytes, query: Bytes, now: i64): Result<(), SignedUrlError> {
    if signer.key == [] then Err(MissingKey)
    else
      match ViewOf(query)
      case Err(detail) => Err(Malformed(detail))
      case Ok(View(None, _, _)) => Err(MissingSignature)
      case Ok(View(Some(_), None, _)) => Err(Malformed(MissingExpires))
      case Ok(View(Some(signature), Some(expires), extra)) =>
        if HexOctets(signature) != Some(signer.TagOf(Payload(path, expires, extra))) then Err(InvalidSignature)
        else if now > expires then Err(Expired(expires, now))
        else Ok(())
  }

  method Verify(signer: Signer, path: Bytes, query: Bytes, now: i64) returns (r: Result<(), SignedUrlError>)
    ensures r == Verdict(signer, path, query, now)
  {
    if signer.key == [] {
      return Err(MissingKey);
    }
    var parsed := ParseQuery(query);
    if parsed.Err? {
      return Err(Malformed(parsed.error));
    }
    var pairs := parsed.value;
    var signature: Option<Bytes> := None;
    var expires: Option<i64> := None;
    var extra: seq<Pair> := [];
    assert pairs[0..] == pairs;
    for i := 0 to |pairs|
      invariant Collected(pairs, NOTHING) == Collected(pairs[i..], View(signature, expires, extra))
    {
      var (key, value) := pairs[i];
      assert pairs[i..][1..] == pairs[i + 1..];
      if key == SIGNATURE {
        if signature.Some? {
          return Err(Malformed(DuplicateSignature));
        }
        signature := Some(value);
      } else if key == EXPIRES {
        if expires.Some? {
          return Err(Malformed(DuplicateExpires));
        }
        var number := Decimal.Parsed(value);
        if number == None {
          return Err(Malformed(ExpiresNotInteger));
        }
        expires := number;
      } else {
        if HasName(extra, key) {
          return Err(Malformed(DuplicateParameter));
        }
        extra := extra + [(key, value)];
      }
    }
    if signature == None {
      return Err(MissingSignature);
    }
    if expires == None {
      return Err(Malformed(MissingExpires));
    }
    var payload := CanonicalPayload(path, expires.value, extra);
    var expected := signer.TagOf(payload);
    var provided := HexOctets(signature.value);
    if provided == None || expected != provided.value {
      return Err(InvalidSignature);
    }
    if now > expires.value {
      return Err(Expired(expires.value, now));
    }
    return Ok(());
  }

  // ---------- What collecting accepts ----------

  ghost predicate ExpiriesParse(pairs: seq<Pair>) {
    forall i :: 0 <= i < |pairs| && pairs[i].0 == EXPIRES ==> Decimal.Parsed(pairs[i].1).Some?
  }

  predicate Seen(view: View, name: Bytes) {
    || (name == SIGNATURE && view.signature.Some?)
    || (name == EXPIRES && view.expires.Some?)
    || (name != SIGNATURE && name != EXPIRES && HasName(view.extra, name))
  }

  ghost predicate Collectible(pairs: seq<Pair>, view: View) {
    && DistinctNames(pairs)
    && ExpiriesParse(pairs)
    && forall i :: 0 <= i < |pairs| ==> !Seen(view, pairs[i].0)
  }

  /** The view after one more, acceptable, parameter. */
  function Taken(p: Pair, view: View): View {
    if p.0 == SIGNATURE then view.(signature := Some(p.1))
    else if p.0 == EXPIRES then view.(expires := Decimal.Parsed(p.1))
    else view.(extra := view.extra + [p])
  }

  lemma SeenAfterTaken(p: Pair, view: View, name: Bytes)
    requires p.0 == EXPIRES ==> Decimal.Parsed(p.1).Some?
    ensures Seen(Taken(p, view), name) <==> Seen(view, name) || name == p.0
  {
    var extra := view.extra + [p];
    assert extra[|view.extra|] == p;
    assert forall i :: 0 <= i < |view.extra| ==> extra[i] == view.extra[i];
  }

  /** Collecting succeeds exactly when no name repeats and the expiry is an integer. */
  lemma {:induction false} CollectedIff(pairs: seq<Pair>, view: View)
    ensures Collected(pairs, view).Ok? <==> Collectible(pairs, view)
  {
    if pairs != [] {
      var p, rest := pairs[0], pairs[1..];
      if !Seen(view, p.0) && (p.0 == EXPIRES ==> Decimal.Parsed(p.1).Some?) {
        assert Collected(pairs, view) == Collected(rest, Taken(p, view));
        CollectedIff(rest, Taken(p, view));
        forall name ensures Seen(Taken(p, view), name) <==> Seen(view, name) || name == p.0 {
          SeenAfterTaken(p, view, name);
        }
        CollectibleStep(pairs, view);
      } else {
        assert Collected(pairs, view).Err?;
      }
    }
  }

  lemma CollectibleStep(pairs: seq<Pair>, view: View)
    requires pairs != [] && !Seen(view, pairs[0].0)
    requires pairs[0].0 == EXPIRES ==> Decimal.Parsed(pairs[0].1).Some?
    requires forall name :: Seen(Taken(pairs[0], view), name) <==> Seen(view, name) || name == pairs[0].0
    ensures Collectible(pairs, view) <==> Collectible(pairs[1..], Taken(pairs[0], view))
  {
    var p, rest := pairs[0], pairs[1..];
    assert forall i :: 0 <= i < |rest| ==> rest[i] == pairs[i + 1];
    assert forall i :: 0 < i < |pairs| ==> pairs[i] == rest[i - 1];
  }

  /** Ordinary parameters are kept in order. */
  lemma {:induction false} CollectedOrdinary(pairs: seq<Pair>, tail: seq<Pair>, view: View)
    requires Collected(pairs + tail, view).Ok?
    requires !HasName(pairs, SIGNATURE) && !HasName(pairs, EXPIRES)
    ensures Collected(pairs + tail, view) == Collected(tail, view.(extra := view.extra + pairs))
  {
    if pairs == [] {
      assert pairs + tail == tail;
      assert view.extra + pairs == view.extra;
    } else {
      var p, rest := pairs[0], pairs[1..];
      assert (pairs + tail)[0] == p && (pairs + tail)[1..] == rest + tail;
      assert !HasName(rest, SIGNATURE) && !HasName(rest, EXPIRES) by {
        assert forall i :: 0 <= i < |rest| ==> rest[i] == pairs[i + 1];
      }
      CollectedOrdinary(rest, tail, Taken(p, view));
      assert view.extra + [p] + rest == view.extra + pairs;
    }
  }

  // ---------- Which queries parse ----------

  /** A segment spells a pair: encoded name, the first `=`, encoded value. */
  ghost predicate SpellsPair(segment: Bytes, p: Pair) {
    exists key, value ::
      && segment == key + [EQUALS] + value && Free(key, EQUALS)
      && Decoded(key) == Ok(p.0) && Decoded(value) == Ok(p.1)
  }

  /** What is wrong with a segment: it is empty, or holds no `=`, or name or value does not decode. */
  ghost predicate FailsAs(segment: Bytes, e: Malformation) {
    match e
    case EmptySegment => segment == []
    case MissingEquals => segment != [] && Free(segment, EQUALS)
    case BadEscape(cause) => exists key, value :: SpellsBadly(segment, key, value, cause)
    case _ => false
  }

  /** A name that does not decode, or one that does and a value that does not. */
  ghost predicate SpellsBadly(segment: Bytes, key: Bytes, value: Bytes, cause: DecodeError) {
    && segment == key + [EQUALS] + value && Free(key, EQUALS)
    && if Decoded(key).Err? then Decoded(key) == Err(cause) else Decoded(value) == Err(cause)
  }

  lemma {:induction false} CutAtFirst(s: Bytes, sep: byte)
    ensures SplitOnce(s, sep) == None ==> Free(s, sep)
    ensures SplitOnce(s, sep).Some? ==>
      Free(SplitOnce(s, sep).value.0, sep) && s == SplitOnce(s, sep).value.0 + [sep] + SplitOnce(s, sep).value.1
  {
    if s != [] && s[0] != sep {
      CutAtFirst(s[1..], sep);
      assert s == [s[0]] + s[1..];
      if SplitOnce(s[1..], sep).Some? {
        var (a, b) := SplitOnce(s[1..], sep).value;
        Reassociate([s[0]], a + [sep], b);
        Reassociate([s[0]], a, [sep]);
      }
    } else if s != [] {
      assert s == [] + [sep] + s[1..];
    }
  }

  lemma SegmentParsesIff(segment: Bytes, p: Pair)
    ensures ParsedSegment(segment) == Ok(p) <==> SpellsPair(segment, p)
  {
    hide Decoded;
    CutAtFirst(segment, EQUALS);
    if key, value :|
      && segment == key + [EQUALS] + value && Free(key, EQUALS)
      && Decoded(key) == Ok(p.0) && Decoded(value) == Ok(p.1) {
      SplitOnceAtFirst(key, value, EQUALS);
    }
  }

  lemma SegmentFailsIff(segment: Bytes, e: Malformation)
    ensures ParsedSegment(segment) == Err(e) <==> FailsAs(segment, e)
  {
    hide Decoded;
    CutAtFirst(segment, EQUALS);
    if e.BadEscape? && FailsAs(segment, e) {
      var key, value :| SpellsBadly(segment, key, value, e.cause);
      SplitOnceAtFirst(key, value, EQUALS);
    } else if segment != [] && SplitOnce(segment, EQUALS).Some? {
      var (key, value) := SplitOnce(segment, EQUALS).value;
      assert segment[|key|] == EQUALS;
      assert e.BadEscape? && ParsedSegment(segment) == Err(e) ==> SpellsBadly(segment, key, value, e.cause);
    }
  }

  /** The parts of a query: a leading `?` is passed over, and nothing makes no part. */
  function QueryParts(query: Bytes): seq<Bytes> {
    var body := if Ascii("?") <= query then query[1..] else query;
    if body == [] then [] else Split(body, AMPERSAND)
  }

  /** The first `n` segments spell these pairs. */
  ghost predicate SpellPairs(segments: seq<Bytes>, pairs: seq<Pair>) {
    |pairs| <= |segments| && forall i :: 0 <= i < |pairs| ==> SpellsPair(segments[i], pairs[i])
  }

  lemma {:induction false} SegmentsParse(segments: seq<Bytes>, pairs: seq<Pair>, front: seq<Pair>)
    requires SpellPairs(segments, pairs)
    ensures ParsedSegments(segments, front) == ParsedSegments(segments[|pairs|..], front + pairs)
  {
    if pairs == [] {
      assert segments[0..] == segments && front + pairs == front;
    } else {
      hide SpellsPair, ParsedSegment;
      SegmentParsesIff(segments[0], pairs[0]);
      SpellPairsTail(segments, pairs);
      hide SpellPairs;
      SegmentsParse(segments[1..], pairs[1..], front + [pairs[0]]);
      assert segments[1..][|pairs| - 1..] == segments[|pairs|..];
      assert front + [pairs[0]] + pairs[1..] == front + pairs;
    }
  }

  lemma SpellPairsTail(segments: seq<Bytes>, pairs: seq<Pair>)
    requires SpellPairs(segments, pairs) && pairs != []
    ensures SpellPairs(segments[1..], pairs[1..])
  {
    hide SpellsPair;
    assert forall i :: 0 <= i < |pairs| - 1 ==> segments[1..][i] == segments[i + 1] && pairs[1..][i] == pairs[i + 1];
  }

  /** How far the segments spell pairs. */
  lemma {:induction false} SegmentsSpell(segments: seq<Bytes>) returns (pairs: seq<Pair>)
    ensures SpellPairs(segments, pairs)
    ensures |pairs| < |segments| ==> ParsedSegment(segments[|pairs|]).Err?
  {
    hide SpellsPair;
    if segments == [] || ParsedSegment(segments[0]).Err? {
      pairs := [];
    } else {
      var first := ParsedSegment(segments[0]).value;
      SegmentParsesIff(segments[0], first);
      var more := SegmentsSpell(segments[1..]);
      pairs := [first] + more;
      forall i | 0 <= i < |pairs| ensures SpellsPair(segments[i], pairs[i]) {
        if i > 0 {
          assert segments[i] == segments[1..][i - 1] && pairs[i] == more[i - 1];
        }
      }
    }
  }

  /** A query parses to pairs exactly when its parts spell them, one each; it fails exactly when the
      first part that spells none fails in that way. */
  lemma ParsesIff(query: Bytes)
    ensures forall pairs :: ParsedQuery(query) == Ok(pairs) <==>
      |pairs| == |QueryParts(query)| && SpellPairs(QueryParts(query), pairs)
    ensures forall e :: ParsedQuery(query) == Err(e) <==>
      exists pairs :: |pairs| < |QueryParts(query)| && SpellPairs(QueryParts(query), pairs)
        && FailsAs(QueryParts(query)[|pairs|], e)
  {
    hide SpellsPair, FailsAs, ParsedSegment, SpellPairs;
    var segments := QueryParts(query);
    PartsOfQuery(query);
    assert ParsedQuery(query) == ParsedSegments(segments, []);
    var reached := SegmentsSpell(segments);
    forall pairs: seq<Pair> | |pairs| <= |segments| && SpellPairs(segments, pairs)
      ensures ParsedQuery(query) == ParsedSegments(segments[|pairs|..], pairs)
    {
      SegmentsParse(segments, pairs, []);
      assert [] + pairs == pairs;
    }
    forall segment, e ensures ParsedSegment(segment) == Err(e) <==> FailsAs(segment, e) {
      SegmentFailsIff(segment, e);
    }
    assert |reached| <= |segments| by { SpellPairsLength(segments, reached); }
    if |reached| == |segments| {
      assert ParsedQuery(query) == Ok(reached);
    } else {
      assert ParsedQuery(query) == Err(ParsedSegment(segments[|reached|]).error);
    }
  }

  lemma SpellPairsLength(segments: seq<Bytes>, pairs: seq<Pair>)
    requires SpellPairs(segments, pairs)
    ensures |pairs| <= |segments|
  {
  }

  lemma PartsOfQuery(query: Bytes)
    ensures ParsedQuery(query) == ParsedSegments(QueryParts(query), [])
  {
    assert Ascii("?") == [QUESTION];
  }

  // ---------- Which queries verify ----------

  /** The parameters that are neither the expiry nor the signature, in order. */
  function Ordinary(pairs: seq<Pair>): seq<Pair> {
    if pairs == [] then []
    else
      (if pairs[0].0 == Ascii("expires") || pairs[0].0 == Ascii("signature") then [] else [pairs[0]])
      + Ordinary(pairs[1..])
  }

  /** The parameters, no name twice, hold an integer expiry and a signature. */
  ghost predicate Complete(pairs: seq<Pair>, expires: i64, signature: Bytes) {
    && DistinctNames(pairs)
    && (Ascii("signature"), signature) in pairs
    && exists text :: (Ascii("expires"), text) in pairs && Decimal.Parsed(text) == Some(expires)
  }

  /** And the signature is, in hex, the tag over the path, the expiry and all other parameters. */
  ghost predicate Genuine(signer: Signer, path: Bytes, pairs: seq<Pair>, expires: i64) {
    exists signature ::
      && Complete(pairs, expires, signature)
      && HexOctets(signature) == Some(signer.TagOf(Payload(path, expires, Ordinary(pairs))))
  }

  lemma {:induction false} CollectedView(pairs: seq<Pair>, view: View)
    requires Collected(pairs, view).Ok?
    ensures var r := Collected(pairs, view).value;
      && r.extra == view.extra + Ordinary(pairs)
      && (forall s :: r.signature == Some(s) <==> view.signature == Some(s) || (SIGNATURE, s) in pairs)
      && (forall e :: r.expires == Some(e) <==>
            view.expires == Some(e) || exists text :: (EXPIRES, text) in pairs && Decimal.Parsed(text) == Some(e))
  {
    ReservedNames();
    if pairs == [] {
      assert view.extra + [] == view.extra;
    } else {
      hide Ascii, Decimal.Parsed, HasName;
      var p, rest := pairs[0], pairs[1..];
      assert pairs == [p] + rest;
      assert Collected(pairs, view) == Collected(rest, Taken(p, view));
      CollectedView(rest, Taken(p, view));
      CollectedIff(pairs, view);
      Reassociate(view.extra, [p], Ordinary(rest));
      OneTaken(p, rest, view);
    }
  }

  lemma OneTaken(p: Pair, rest: seq<Pair>, view: View)
    requires !Seen(view, p.0)
    ensures forall s :: (view.signature == Some(s) || (SIGNATURE, s) in [p] + rest)
                   <==> (Taken(p, view).signature == Some(s) || (SIGNATURE, s) in rest)
    ensures forall e :: (view.expires == Some(e) || exists text :: (EXPIRES, text) in [p] + rest && Decimal.Parsed(text) == Some(e))
                   <==> (Taken(p, view).expires == Some(e) || exists text :: (EXPIRES, text) in rest && Decimal.Parsed(text) == Some(e))
  {
    hide Decimal.Parsed;
    assert EXPIRES != SIGNATURE by {
      assert |EXPIRES| != |SIGNATURE|;
    }
  }

  /** What a query is collected to, read off its parameters. */
  lemma CompleteIff(pairs: seq<Pair>, expires: i64, signature: Bytes)
    ensures Complete(pairs, expires, signature) <==>
      Collected(pairs, NOTHING) == Ok(View(Some(signature), Some(expires), Ordinary(pairs)))
  {
    ReservedNames();
    CollectedIff(pairs, NOTHING);
    if Collected(pairs, NOTHING).Ok? {
      CollectedView(pairs, NOTHING);
      var r := Collected(pairs, NOTHING).value;
      assert [] + Ordinary(pairs) == Ordinary(pairs);
      assert r == View(r.signature, r.expires, r.extra);
    } else if Complete(pairs, expires, signature) {
      OneExpiry(pairs, expires);
    }
  }

  lemma OneExpiry(pairs: seq<Pair>, expires: i64)
    requires DistinctNames(pairs) && exists text :: (EXPIRES, text) in pairs && Decimal.Parsed(text) == Some(expires)
    ensures Collectible(pairs, NOTHING)
  {
    hide Decimal.Parsed;
    var text :| (EXPIRES, text) in pairs && Decimal.Parsed(text) == Some(expires);
    var j :| 0 <= j < |pairs| && pairs[j] == (EXPIRES, text);
    forall i | 0 <= i < |pairs| && pairs[i].0 == EXPIRES ensures i == j {
    }
  }

  /** For every signer, path, query and clock: the verdict is `Ok`, or `Expired`, exactly when there is
      a key and the query is genuine, and the clock has not, or has, passed its expiry. */
  lemma VerdictIff(signer: Signer, path: Bytes, query: Bytes, now: i64)
    ensures Verdict(signer, path, query, now).Ok? <==>
      signer.key != [] && exists pairs, expires ::
        ParsedQuery(query) == Ok(pairs) && Genuine(signer, path, pairs, expires) && now <= expires
    ensures forall expires, at :: Verdict(signer, path, query, now) == Err(Expired(expires, at)) <==>
      signer.key != [] && at == now && now > expires && exists pairs ::
        ParsedQuery(query) == Ok(pairs) && Genuine(signer, path, pairs, expires)
  {
    hide ParsedQuery, Collected, Payload, HexOctets, Genuine;
    if signer.key != [] && ParsedQuery(query).Ok? {
      var pairs := ParsedQuery(query).value;
      match Collected(pairs, NOTHING)
      case Ok(View(Some(signature), Some(expires), extra)) =>
        CollectedView(pairs, NOTHING);
        assert [] + Ordinary(pairs) == Ordinary(pairs);
        GenuineIf(signer, path, pairs, expires, signature);
        assert Genuine(signer, path, pairs, expires) <==>
          HexOctets(signature) == Some(signer.TagOf(Payload(path, expires, Ordinary(pairs))));
      case _ =>
        NeverGenuine(signer, path, pairs);
    }
  }

  lemma NeverGenuine(signer: Signer, path: Bytes, pairs: seq<Pair>)
    requires Collected(pairs, NOTHING).Ok? ==>
      Collected(pairs, NOTHING).value.signature == None || Collected(pairs, NOTHING).value.expires == None
    ensures forall expires :: !Genuine(signer, path, pairs, expires)
  {
    hide Collected, Payload, HexOctets, Complete;
    forall expires, signature ensures !Complete(pairs, expires, signature) {
      CompleteIff(pairs, expires, signature);
    }
  }

  lemma GenuineIf(signer: Signer, path: Bytes, pairs: seq<Pair>, expires: i64, signature: Bytes)
    requires Collected(pairs, NOTHING) == Ok(View(Some(signature), Some(expires), Ordinary(pairs)))
    ensures forall e :: Genuine(signer, path, pairs, e) <==>
      e == expires && HexOctets(signature) == Some(signer.TagOf(Payload(path, expires, Ordinary(pairs))))
  {
    hide Collected, Payload, HexOctets, Complete;
    forall e, s ensures Complete(pairs, e, s) <==> e == expires && s == signature {
      CompleteIff(pairs, e, s);
    }
  }

  /** Every other verdict: no key first, then a query that does not parse or repeats a name or has no
      integer expiry, then no signature, then one that is not the tag. */
  lemma RefusalIff(signer: Signer, path: Bytes, query: Bytes, now: i64)
    ensures var verdict := Verdict(signer, path, query, now);
      && (verdict == Err(MissingKey) <==> signer.key == [])
      && (verdict == Err(MissingSignature) <==>
            signer.key != [] && exists pairs ::
              ParsedQuery(query) == Ok(pairs) && DistinctNames(pairs) && ExpiriesParse(pairs)
              && !HasName(pairs, Ascii("signature")))
      && (verdict == Err(InvalidSignature) <==>
            signer.key != [] && exists pairs, expires, signature ::
              ParsedQuery(query) == Ok(pairs) && Complete(pairs, expires, signature)
              && HexOctets(signature) != Some(signer.TagOf(Payload(path, expires, Ordinary(pairs)))))
  {
    hide ParsedQuery, Collected, Payload, HexOctets, Complete, ExpiriesParse, Ascii;
    ReservedNames();
    if signer.key != [] && ParsedQuery(query).Ok? {
      var pairs := ParsedQuery(query).value;
      forall expires, signature
        ensures Complete(pairs, expires, signature) <==>
          Collected(pairs, NOTHING) == Ok(View(Some(signature), Some(expires), Ordinary(pairs)))
      {
        CompleteIff(pairs, expires, signature);
      }
      CollectedIff(pairs, NOTHING);
      NothingSeen(pairs);
      if Collected(pairs, NOTHING).Ok? {
        CollectedView(pairs, NOTHING);
        var r := Collected(pairs, NOTHING).value;
        assert [] + Ordinary(pairs) == Ordinary(pairs) && r == View(r.signature, r.expires, Ordinary(pairs));
        UnsignedIff(pairs, r.signature);
      }
    }
  }

  lemma NothingSeen(pairs: seq<Pair>)
    ensures Collectible(pairs, NOTHING) <==> DistinctNames(pairs) && ExpiriesParse(pairs)
  {
  }

  lemma UnsignedIff(pairs: seq<Pair>, signature: Option<Bytes>)
    requires forall s :: signature == Some(s) <==> (SIGNATURE, s) in pairs
    ensures signature == None <==> !HasName(pairs, SIGNATURE)
  {
    if signature.Some? {
      assert (SIGNATURE, signature.value) in pairs;
    }
    if i :| 0 <= i < |pairs| && pairs[i].0 == SIGNATURE {
      assert pairs[i] == (SIGNATURE, pairs[i].1);
      assert signature == Some(pairs[i].1);
    }
  }

  // ---------- Signing and verifying together ----------

  /** What the signer asks of `extra`: no name twice, neither reserved name. */
  ghost predicate WellNamed(extra: seq<Pair>) {
    DistinctNames(extra) && !HasName(extra, SIGNATURE) && !HasName(extra, EXPIRES)
  }

  lemma PermutationKeepsNames(a: seq<Pair>, b: seq<Pair>, name: Bytes)
    requires multiset(a) == multiset(b) && HasName(a, name)
    ensures HasName(b, name)
  {
    var i :| 0 <= i < |a| && a[i].0 == name;
    assert a[i] in multiset(b);
  }

  lemma WellNamedSorted(extra: seq<Pair>)
    ensures WellNamed(Sorted(PairLe, extra)) <==> WellNamed(extra)
  {
    var sorted := Sorted(PairLe, extra);
    PairIsTotalOrder();
    SortedIsSorted(PairLe, extra);
    if DistinctNames(extra) {
      PermutationKeepsDistinct(extra, sorted);
    }
    if DistinctNames(sorted) {
      PermutationKeepsDistinct(sorted, extra);
    }
    forall name ensures HasName(extra, name) <==> HasName(sorted, name) {
      if HasName(extra, name) {
        PermutationKeepsNames(extra, sorted, name);
      }
      if HasName(sorted, name) {
        PermutationKeepsNames(sorted, extra, name);
      }
    }
  }

  lemma SignedCollectible(sorted: seq<Pair>, expires: i64, tag: Tag)
    ensures Collectible(sorted + Reserved(expires, tag), NOTHING) <==> WellNamed(sorted)
  {
    var n, all := |sorted|, sorted + Reserved(expires, tag);
    Decimal.ParsePrinted(expires);
    assert all[n].0 == EXPIRES && all[n + 1].0 == SIGNATURE;
    assert EXPIRES != SIGNATURE by {
      assert |EXPIRES| != |SIGNATURE|;
    }
    assert forall i :: 0 <= i < n ==> all[i] == sorted[i];
    if Collectible(all, NOTHING) {
      assert forall i :: 0 <= i < n ==> sorted[i].0 != all[n].0 && sorted[i].0 != all[n + 1].0;
    }
  }

  lemma {:induction false} SignedView(signer: Signer, path: Bytes, expires: i64, extra: seq<Pair>)
    requires IsText(extra) && WellNamed(extra)
    ensures ViewOf(Fragment(signer, path, expires, extra))
         == Ok(View(Some(HexText(signer.TagOf(Payload(path, expires, extra)))), Some(expires), Sorted(PairLe, extra)))
  {
    var sorted, tag := Sorted(PairLe, extra), signer.TagOf(Payload(path, expires, extra));
    var reserved := Reserved(expires, tag);
    ParseSigned(signer, path, expires, extra);
    WellNamedSorted(extra);
    SignedCollectible(sorted, expires, tag);
    CollectedIff(sorted + reserved, NOTHING);
    CollectedOrdinary(sorted, reserved, NOTHING);
    assert [] + sorted == sorted;
    ReservedCollected(expires, tag, sorted);
  }

  lemma ReservedCollected(expires: i64, tag: Tag, extra: seq<Pair>)
    ensures Collected(Reserved(expires, tag), View(None, None, extra))
         == Ok(View(Some(HexText(tag)), Some(expires), extra))
  {
    var reserved := Reserved(expires, tag);
    Decimal.ParsePrinted(expires);
    assert EXPIRES != SIGNATURE by {
      assert |EXPIRES| != |SIGNATURE|;
    }
    assert reserved[1..] == [reserved[1]];
    assert Collected(reserved, View(None, None, extra)) == Collected(reserved[1..], View(None, Some(expires), extra));
    var last := View(None, Some(expires), extra);
    assert Collected(reserved[1..], last) == Collected(reserved[1..][1..], last.(signature := Some(HexText(tag))));
    assert reserved[1..][1..] == [];
  }

  /** A signed link verifies until its expiry and is `Expired` after it, if and only if the extra
      parameters have distinct names and no reserved one; otherwise it never parses. */
  lemma VerifySigned(signer: Signer, path: Bytes, expires: i64, extra: seq<Pair>, now: i64)
    requires signer.key != [] && IsText(extra)
    ensures var verdict := Verdict(signer, path, Fragment(signer, path, expires, extra), now);
      if WellNamed(extra) then verdict == if now <= expires then Ok(()) else Err(Expired(expires, now))
      else verdict.Err? && verdict.error.Malformed?
  {
    var sorted, tag := Sorted(PairLe, extra), signer.TagOf(Payload(path, expires, extra));
    if WellNamed(extra) {
      SignedView(signer, path, expires, extra);
      HexRoundTrip(tag);
      PairIsTotalOrder();
      SortedIsSorted(PairLe, extra);
      PayloadDetermines(path, expires, sorted, path, expires, extra);
    } else {
      ParseSigned(signer, path, expires, extra);
      WellNamedSorted(extra);
      SignedCollectible(sorted, expires, tag);
      CollectedIff(sorted + Reserved(expires, tag), NOTHING);
    }
  }

  /** The order the caller lists parameters in does not show in the signed fragment. */
  lemma FragmentForgetsOrder(signer: Signer, path: Bytes, expires: i64, xs: seq<Pair>, ys: seq<Pair>)
    requires multiset(xs) == multiset(ys)
    ensures Fragment(signer, path, expires, xs) == Fragment(signer, path, expires, ys)
  {
    PairIsTotalOrder();
    SortForgetsOrder(PairLe, xs, ys);
  }

  /** The signature passed the tag comparison: the link is valid, or valid but too late. */
  predicate Authentic(verdict: Result<(), SignedUrlError>) {
    verdict.Ok? || verdict.error.Expired?
  }

  /** Any query that passes with the tag of a signed link speaks of that link's path, expiry and
      parameters, or else the tag function has collided on two different payloads. */
  lemma TamperEvident(signer: Signer, path: Bytes, expires: i64, extra: seq<Pair>,
                      path': Bytes, query: Bytes, now: i64)
    requires Authentic(Verdict(signer, path', query, now))
    requires HexOctets(ViewOf(query).value.signature.value) == Some(signer.TagOf(Payload(path, expires, extra)))
    ensures var seen := ViewOf(query).value;
      || (path' == path && seen.expires == Some(expires) && multiset(seen.extra) == multiset(extra))
      || (&& Payload(path', seen.expires.value, seen.extra) != Payload(path, expires, extra)
          && signer.TagOf(Payload(path', seen.expires.value, seen.extra)) == signer.TagOf(Payload(path, expires, extra)))
  {
    var seen := ViewOf(query).value;
    PayloadDetermines(path', seen.expires.value, seen.extra, path, expires, extra);
  }

  // ---------- Relative lifetimes ----------

  type u64 = n: int | 0 <= n < 0x1_0000_0000_0000_0000

  /** `as i64` on an unsigned value: the upper half wraps to negative. */
  function AsSigned(n: u64): i64 {
    if n <= I64_MAX then n else n - 0x1_0000_0000_0000_0000
  }

  function SaturatingAdd(a: i64, b: i64): i64 {
    if a + b > I64_MAX then I64_MAX else if a + b < I64_MIN then I64_MIN else a + b
  }

  method SignExpiring(signer: Signer, path: Bytes, ttl: u64, extra: seq<Pair>, now: i64)
    returns (r: Result<Bytes, SignedUrlError>)
    ensures r == if signer.key == [] then Err(MissingKey)
                 else Ok(Fragment(signer, path, SaturatingAdd(now, AsSigned(ttl)), extra))
  {
    if signer.key == [] {
      return Err(MissingKey);
    }
    var expires := SaturatingAdd(now, AsSigned(ttl));
    var query := Sign(signer, path, expires, extra);
    return Ok(query);
  }

  /** A link signed for `ttl` seconds is good at once and for those seconds, exactly when the
      lifetime fits a signed integer (or the clock already stands at the least instant). */
  lemma {:induction false} FreshLinkVerifies(signer: Signer, path: Bytes, ttl: u64, extra: seq<Pair>, now: i64)
    requires signer.key != [] && IsText(extra) && WellNamed(extra)
    ensures var query := Fragment(signer, path, SaturatingAdd(now, AsSigned(ttl)), extra);
      && (Verdict(signer, path, query, now).Ok? <==> ttl <= I64_MAX || now == I64_MIN)
      && (ttl <= I64_MAX ==> forall later: i64 :: later >= now ==>
            (Verdict(signer, path, query, later).Ok? <==> later <= now + ttl))
  {
    var expires := SaturatingAdd(now, AsSigned(ttl));
    forall later: i64
      ensures Verdict(signer, path, Fragment(signer, path, expires, extra), later).Ok? <==> later <= expires
    {
      VerifySigned(signer, path, expires, extra, later);
    }
  }

  /** The least lifetime that does not fit: the link is dead when it is minted. */
  lemma LifetimeWraps(signer: Signer, path: Bytes)
    requires signer.key != []
    ensures Verdict(signer, path, Fragment(signer, path, SaturatingAdd(0, AsSigned(0x8000_0000_0000_0000)), []), 0)
         == Err(Expired(I64_MIN, 0))
  {
    VerifySigned(signer, path, I64_MIN, [], 0);
  }

  /** One name twice is signed all the same, and then never verifies. */
  lemma RepeatedNameRefused(signer: Signer, path: Bytes, expires: i64, name: Bytes, a: Bytes, b: Bytes, now: i64)
    requires signer.key != [] && Utf8(name) && Utf8(a) && Utf8(b)
    ensures var verdict := Verdict(signer, path, Fragment(signer, path, expires, [(name, a), (name, b)]), now);
      verdict.Err? && verdict.error.Malformed?
  {
    hide Verdict, Fragment, Utf8;
    var extra: seq<Pair> := [(name, a), (name, b)];
    assert extra[0].0 == extra[1].0;
    VerifySigned(signer, path, expires, extra, now);
  }
}
