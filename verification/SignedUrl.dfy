/** Signed URLs: a query fragment carrying an expiry and a tag over a canonical payload. */
module SignedUrl {
  import opened Text
  import opened Ordering
  import opened Delimited
  import opened Percent
  import Decimal

  /** "expires" */
  const EXPIRES: Bytes := [101, 120, 112, 105, 114, 101, 115]
  /** "signature" */
  const SIGNATURE: Bytes := [115, 105, 103, 110, 97, 116, 117, 114, 101]

  /** A 32-byte authentication tag. */
  type Tag = t: Bytes | |t| == 32 witness seq(32, _ => 0)

  /** A key and the keyed tag function applied under it. */
  datatype Signer = Signer(key: Bytes, mac: (Bytes, Bytes) -> Tag) {
    function TagOf(payload: Bytes): Tag { mac(key, payload) }
  }

  /** What makes a query unparsable. */
  datatype Malformation =
    | EmptySegment
    | MissingEquals
    | BadEscape(cause: DecodeError)
    | DuplicateSignature
    | DuplicateExpires
    | ExpiresNotInteger
    | DuplicateParameter
    | MissingExpires

  datatype SignedUrlError =
    | MissingKey
    | MissingSignature
    | InvalidSignature
    | Expired(expiredAt: i64, now: i64)
    | Malformed(detail: Malformation)

  // ---------- The canonical payload ----------

  /** One `key=value`, both sides percent-encoded. */
  function Segment(p: Pair): Bytes {
    Encoded(p.0) + ([EQUALS] + Encoded(p.1))
  }

  function Line(p: Pair): Bytes {
    Segment(p) + [NEWLINE]
  }

  function Lines(pairs: seq<Pair>): Bytes {
    if pairs == [] then [] else Line(pairs[0]) + Lines(pairs[1..])
  }

  function Heading(path: Bytes, expires: i64): Bytes {
    Encoded(path) + ([NEWLINE] + (Decimal.Printed(expires) + [NEWLINE]))
  }

  /** The text that is signed: path, expiry, then the sorted pairs, one field a line. */
  function Payload(path: Bytes, expires: i64, extra: seq<Pair>): Bytes {
    Heading(path, expires) + Lines(Sorted(PairLe, extra))
  }

  method CanonicalPayload(path: Bytes, expires: i64, extra: seq<Pair>) returns (payload: Bytes)
    ensures payload == Payload(path, expires, extra)
  {
    var sorted := Sorted(PairLe, extra);
    payload := PercentEncode(path);
    payload := payload + [NEWLINE];
    payload := payload + Decimal.Printed(expires);
    payload := payload + [NEWLINE];
    ghost var head := payload;
    HeadingPushed(path, expires);
    hide Encoded, Segment, Lines, PairLe;
    assert Lines([]) == [] by { NoLines(); }
    for i := 0 to |sorted|
      invariant payload == head + Lines(sorted[..i])
    {
      var (key, value) := sorted[i];
      var encodedKey := PercentEncode(key);
      var encodedValue := PercentEncode(value);
      SegmentPushed(payload, sorted[i], NEWLINE);
      payload := payload + encodedKey;
      payload := payload + [EQUALS];
      payload := payload + encodedValue;
      payload := payload + [NEWLINE];
      LinesSnoc(sorted[..i], sorted[i]);
      assert sorted[..i] + [sorted[i]] == sorted[..i + 1];
      Reassociate(head, Lines(sorted[..i]), Line(sorted[i]));
    }
    assert sorted[..|sorted|] == sorted;
  }

  lemma NoLines()
    ensures Lines([]) == []
  {
  }

  lemma HeadingPushed(path: Bytes, expires: i64)
    ensures Encoded(path) + [NEWLINE] + Decimal.Printed(expires) + [NEWLINE] == Heading(path, expires)
  {
    var p, d, n := Encoded(path), Decimal.Printed(expires), [NEWLINE];
    Reassociate(p + n, d, n);
    Reassociate(p, n, d + n);
  }

  lemma SegmentPushed(before: Bytes, p: Pair, end: byte)
    ensures before + Encoded(p.0) + [EQUALS] + Encoded(p.1) + [end] == before + (Segment(p) + [end])
  {
    var k, v := Encoded(p.0), Encoded(p.1);
    Reassociate(before + k, [EQUALS], v);
    Reassociate(before, k, [EQUALS] + v);
    Reassociate(before, Segment(p), [end]);
  }

  lemma {:induction false} LinesSnoc(pairs: seq<Pair>, p: Pair)
    ensures Lines(pairs + [p]) == Lines(pairs) + Line(p)
  {
    if pairs == [] {
      assert pairs + [p] == [p];
    } else {
      LinesSnoc(pairs[1..], p);
      assert (pairs + [p])[0] == pairs[0] && (pairs + [p])[1..] == pairs[1..] + [p];
      Reassociate(Line(pairs[0]), Lines(pairs[1..]), Line(p));
    }
  }

  lemma EncodedFree(s: Bytes, b: byte)
    requires !IsEncodingByte(b)
    ensures Free(Encoded(s), b)
  {
    EncodedAlphabet(s);
  }

  lemma SegmentFree(p: Pair, b: byte)
    requires !IsEncodingByte(b) && b != EQUALS
    ensures Free(Segment(p), b)
  {
    EncodedFree(p.0, b);
    EncodedFree(p.1, b);
  }

  lemma PrintedFree(i: i64, b: byte)
    requires !IsDigit(b) && b != MINUS
    ensures Free(Decimal.Printed(i), b)
  {
    Decimal.PrintedAlphabet(i);
  }

  lemma SegmentInjective(p: Pair, q: Pair)
    requires Segment(p) == Segment(q)
    ensures p == q
  {
    EncodedFree(p.0, EQUALS);
    EncodedFree(q.0, EQUALS);
    Reassociate(Encoded(p.0), [EQUALS], Encoded(p.1));
    Reassociate(Encoded(q.0), [EQUALS], Encoded(q.1));
    CutUnique(Encoded(p.0), Encoded(p.1), Encoded(q.0), Encoded(q.1), EQUALS);
    EncodedInjective(p.0, q.0);
    EncodedInjective(p.1, q.1);
  }

  lemma {:induction false} LinesInjective(ps: seq<Pair>, qs: seq<Pair>)
    requires Lines(ps) == Lines(qs)
    ensures ps == qs
  {
    if ps == [] || qs == [] {
      assert ps == qs == [];
    } else {
      SegmentFree(ps[0], NEWLINE);
      SegmentFree(qs[0], NEWLINE);
      Reassociate(Segment(ps[0]), [NEWLINE], Lines(ps[1..]));
      Reassociate(Segment(qs[0]), [NEWLINE], Lines(qs[1..]));
      CutUnique(Segment(ps[0]), Lines(ps[1..]), Segment(qs[0]), Lines(qs[1..]), NEWLINE);
      SegmentInjective(ps[0], qs[0]);
      LinesInjective(ps[1..], qs[1..]);
      assert ps == [ps[0]] + ps[1..] && qs == [qs[0]] + qs[1..];
    }
  }

  /** Path and expiry each end at their own newline, whatever follows. */
  lemma HeadingUnique(p: Bytes, e: i64, rest: Bytes, p': Bytes, e': i64, rest': Bytes)
    requires Heading(p, e) + rest == Heading(p', e') + rest'
    ensures p == p' && e == e' && rest == rest'
  {
    var d, d' := Decimal.Printed(e), Decimal.Printed(e');
    EncodedFree(p, NEWLINE);
    EncodedFree(p', NEWLINE);
    PrintedFree(e, NEWLINE);
    PrintedFree(e', NEWLINE);
    HeadingSplit(p, e, rest);
    HeadingSplit(p', e', rest');
    CutUnique(Encoded(p), d + [NEWLINE] + rest, Encoded(p'), d' + [NEWLINE] + rest', NEWLINE);
    CutUnique(d, rest, d', rest', NEWLINE);
    EncodedInjective(p, p');
    Decimal.PrintedInjective(e, e');
  }

  lemma HeadingSplit(p: Bytes, e: i64, rest: Bytes)
    ensures Heading(p, e) + rest == Encoded(p) + [NEWLINE] + (Decimal.Printed(e) + [NEWLINE] + rest)
  {
    var line := Decimal.Printed(e) + [NEWLINE];
    Reassociate(Encoded(p), [NEWLINE], line);
    Reassociate(Encoded(p) + [NEWLINE], line, rest);
  }

  /** The payload says exactly the path, the expiry and which pairs there are: nothing can be
      moved between fields, and only the order of the pairs is forgotten. */
  lemma PayloadDetermines(p: Bytes, e: i64, xs: seq<Pair>, p': Bytes, e': i64, xs': seq<Pair>)
    ensures Payload(p, e, xs) == Payload(p', e', xs') <==> p == p' && e == e' && multiset(xs) == multiset(xs')
  {
    PairIsTotalOrder();
    if multiset(xs) == multiset(xs') {
      SortForgetsOrder(PairLe, xs, xs');
    }
    if Payload(p, e, xs) == Payload(p', e', xs') {
      HeadingUnique(p, e, Lines(Sorted(PairLe, xs)), p', e', Lines(Sorted(PairLe, xs')));
      LinesInjective(Sorted(PairLe, xs), Sorted(PairLe, xs'));
      SortedIsSorted(PairLe, xs);
      SortedIsSorted(PairLe, xs');
    }
  }

  // ---------- Signing ----------

  function Segments(pairs: seq<Pair>): seq<Bytes> {
    if pairs == [] then [] else [Segment(pairs[0])] + Segments(pairs[1..])
  }

  /** The pairs a signed fragment carries, in the order it carries them. */
  function SignedPairs(signer: Signer, path: Bytes, expires: i64, extra: seq<Pair>): seq<Pair> {
    Sorted(PairLe, extra) + Reserved(expires, signer.TagOf(Payload(path, expires, extra)))
  }

  function Reserved(expires: i64, tag: Tag): seq<Pair> {
    [(EXPIRES, Decimal.Printed(expires)), (SIGNATURE, HexText(tag))]
  }

  /** The signed query fragment. */
  function Fragment(signer: Signer, path: Bytes, expires: i64, extra: seq<Pair>): Bytes {
    Joined(Segments(SignedPairs(signer, path, expires, extra)), AMPERSAND)
  }

  method Sign(signer: Signer, path: Bytes, expires: i64, extra: seq<Pair>) returns (query: Bytes)
    ensures query == Fragment(signer, path, expires, extra)
  {
    var payload := CanonicalPayload(path, expires, extra);
    var tag := signer.TagOf(payload);
    var signature := HexText(tag);
    var sorted := Sorted(PairLe, extra);
    query := [];
    ghost var all := sorted + Reserved(expires, tag);
    assert all[0..] == all;
    for i := 0 to |sorted|
      invariant Joined(Segments(all), AMPERSAND) == query + Joined(Segments(all[i..]), AMPERSAND)
    {
      var (key, value) := sorted[i];
      var encodedKey := PercentEncode(key);
      var encodedValue := PercentEncode(value);
      SegmentPushed(query, sorted[i], AMPERSAND);
      JoinedStep(all, i);
      Reassociate(query, Segment(all[i]) + [AMPERSAND], Joined(Segments(all[i + 1..]), AMPERSAND));
      query := query + encodedKey;
      query := query + [EQUALS];
      query := query + encodedValue;
      query := query + [AMPERSAND];
    }
    assert all[|sorted|..] == Reserved(expires, tag);
    ReservedPushed(query, expires, tag);
    query := query + EXPIRES;
    query := query + [EQUALS];
    query := query + Decimal.Printed(expires);
    query := query + [AMPERSAND];
    query := query + SIGNATURE;
    query := query + [EQUALS];
    query := query + signature;
  }

  lemma JoinedStep(pairs: seq<Pair>, i: nat)
    requires i + 1 < |pairs|
    ensures Joined(Segments(pairs[i..]), AMPERSAND)
         == (Segment(pairs[i]) + [AMPERSAND]) + Joined(Segments(pairs[i + 1..]), AMPERSAND)
  {
    assert pairs[i..][1..] == pairs[i + 1..];
    assert Segments(pairs[i..]) == [Segment(pairs[i])] + Segments(pairs[i + 1..]);
    assert Segments(pairs[i..])[1..] == Segments(pairs[i + 1..]);
  }

  lemma SegmentIsFixed(name: Bytes, value: Bytes)
    requires forall i :: 0 <= i < |name| ==> IsUnreserved(name[i])
    requires forall i :: 0 <= i < |value| ==> IsUnreserved(value[i])
    ensures Segment((name, value)) == name + ([EQUALS] + value)
  {
    UnreservedIsFixed(name);
    UnreservedIsFixed(value);
  }

  /** The reserved pairs are pushed as they are: nothing in them needs escaping. */
  lemma {:induction false} ReservedIsFixed(expires: i64, tag: Tag)
    ensures Segment((EXPIRES, Decimal.Printed(expires))) == EXPIRES + ([EQUALS] + Decimal.Printed(expires))
    ensures Segment((SIGNATURE, HexText(tag))) == SIGNATURE + ([EQUALS] + HexText(tag))
  {
    Decimal.PrintedAlphabet(expires);
    HexTextIsAlphanumeric(tag);
    SegmentIsFixed(EXPIRES, Decimal.Printed(expires));
    SegmentIsFixed(SIGNATURE, HexText(tag));
  }

  lemma {:induction false} ReservedPushed(query: Bytes, expires: i64, tag: Tag)
    ensures query + EXPIRES + [EQUALS] + Decimal.Printed(expires) + [AMPERSAND] + SIGNATURE + [EQUALS] + HexText(tag)
         == query + Joined(Segments(Reserved(expires, tag)), AMPERSAND)
  {
    hide Segment, Joined, Segments, HexText, Decimal.Printed;
    var e, s := Segment((EXPIRES, Decimal.Printed(expires))), Segment((SIGNATURE, HexText(tag)));
    ReservedIsFixed(expires, tag);
    ReservedJoined(expires, tag);
    ThreePushed(query, EXPIRES, [EQUALS], Decimal.Printed(expires));
    ThreePushed(query + e + [AMPERSAND], SIGNATURE, [EQUALS], HexText(tag));
    Reassociate(query, e, [AMPERSAND]);
    Reassociate(query, e + [AMPERSAND], s);
  }

  lemma ReservedJoined(expires: i64, tag: Tag)
    ensures Joined(Segments(Reserved(expires, tag)), AMPERSAND)
         == (Segment((EXPIRES, Decimal.Printed(expires))) + [AMPERSAND]) + Segment((SIGNATURE, HexText(tag)))
  {
    hide Segment;
    var reserved := Reserved(expires, tag);
    JoinedStep(reserved, 0);
    assert reserved[0..] == reserved && Segments(reserved[1..]) == [Segment(reserved[1])];
  }

  lemma ThreePushed(before: Bytes, a: Bytes, b: Bytes, c: Bytes)
    ensures before + a + b + c == before + (a + (b + c))
  {
    Reassociate(before + a, b, c);
    Reassociate(before, a, b + c);
  }

  // ---------- What the texts are ----------

  lemma ReservedNames()
    ensures EXPIRES == Ascii("expires") && SIGNATURE == Ascii("signature")
  {
  }

  /** A payload, line by line: the encoded path, the expiry in digits, then `name=value` for each pair
      in order, and nothing after the last newline. */
  lemma PayloadLines(path: Bytes, expires: i64, extra: seq<Pair>)
    ensures Split(Payload(path, expires, extra), NEWLINE)
         == [Encoded(path), Decimal.Printed(expires)] + Segments(Sorted(PairLe, extra)) + [[]]
  {
    hide Encoded, Segments, Lines, Split, Sorted, PairLe, Decimal.Printed, Free;
    var sorted := Sorted(PairLe, extra);
    var lines := Lines(sorted);
    EncodedFree(path, NEWLINE);
    PrintedFree(expires, NEWLINE);
    HeadingSplit(path, expires, lines);
    SplitAtFirst(Encoded(path), Decimal.Printed(expires) + [NEWLINE] + lines, NEWLINE);
    SplitAtFirst(Decimal.Printed(expires), lines, NEWLINE);
    LinesSplit(sorted);
    assert [Encoded(path)] + ([Decimal.Printed(expires)] + (Segments(sorted) + [[]]))
        == [Encoded(path), Decimal.Printed(expires)] + Segments(sorted) + [[]];
  }

  lemma {:induction false} LinesSplit(pairs: seq<Pair>)
    ensures Split(Lines(pairs), NEWLINE) == Segments(pairs) + [[]]
  {
    if pairs != [] {
      hide Segment, Split, Free;
      SegmentFree(pairs[0], NEWLINE);
      LinesSplit(pairs[1..]);
      SplitAtFirst(Segment(pairs[0]), Lines(pairs[1..]), NEWLINE);
    }
  }

  function ExpiresEquals(): Bytes {
    Ascii("expires=")
  }

  function SignatureEquals(): Bytes {
    Ascii("signature=")
  }

  /** A signed fragment, parameter by parameter: the pairs in order, then expiry and tag. */
  lemma FragmentParts(signer: Signer, path: Bytes, expires: i64, extra: seq<Pair>)
    ensures Split(Fragment(signer, path, expires, extra), AMPERSAND)
         == Segments(Sorted(PairLe, extra))
            + [ExpiresEquals() + Decimal.Printed(expires),
               SignatureEquals() + HexText(signer.TagOf(Payload(path, expires, extra)))]
  {
    hide Segment, Split, Joined, Sorted, PairLe, Payload, Decimal.Printed, HexText, Free, ExpiresEquals, SignatureEquals;
    var tag := signer.TagOf(Payload(path, expires, extra));
    var sorted, reserved := Sorted(PairLe, extra), Reserved(expires, tag);
    ReservedIsFixed(expires, tag);
    NamesWithEquals();
    Reassociate(EXPIRES, [EQUALS], Decimal.Printed(expires));
    Reassociate(SIGNATURE, [EQUALS], HexText(tag));
    SegmentsOfTwo(reserved[0], reserved[1]);
    SegmentsConcat(sorted, reserved);
    SegmentsAreFree(sorted + reserved);
    SplitJoined(Segments(sorted + reserved), AMPERSAND);
  }

  lemma SegmentsOfTwo(p: Pair, q: Pair)
    ensures Segments([p, q]) == [Segment(p), Segment(q)]
  {
    hide Segment;
    assert [p, q][1..] == [q] && [q][1..] == [];
    assert Segments([q]) == [Segment(q)];
  }

  lemma NamesWithEquals()
    ensures EXPIRES + [EQUALS] == ExpiresEquals() && SIGNATURE + [EQUALS] == SignatureEquals()
  {
  }

  lemma {:induction false} SegmentsConcat(a: seq<Pair>, b: seq<Pair>)
    ensures Segments(a + b) == Segments(a) + Segments(b)
  {
    if a == [] {
      assert a + b == b;
    } else {
      assert (a + b)[1..] == a[1..] + b;
      SegmentsConcat(a[1..], b);
    }
  }

  lemma {:induction false} SegmentsAreFree(pairs: seq<Pair>)
    ensures |Segments(pairs)| == |pairs|
    ensures forall i :: 0 <= i < |pairs| ==> Free(Segments(pairs)[i], AMPERSAND)
  {
    if pairs != [] {
      SegmentFree(pairs[0], AMPERSAND);
      SegmentsAreFree(pairs[1..]);
    }
  }
}
