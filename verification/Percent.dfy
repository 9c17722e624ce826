/** Percent-encoding (sections 2.1 and 2.3 of RFC 3986) and hexadecimal text. */
module Percent {
  import opened Text

  /** The unreserved set of RFC 3986 section 2.3. */
  predicate IsUnreserved(b: byte) {
    IsAlphanumeric(b) || b == 45 || b == 46 || b == 95 || b == 126
  }

  function HexUpper(d: byte): byte
    requires d < 16
  {
    if d < 10 then 48 + d else 55 + d
  }

  function HexLower(d: byte): byte
    requires d < 16
  {
    if d < 10 then 48 + d else 87 + d
  }

  /** Value of a single hex digit, of either case. */
  function HexValue(b: byte): Option<byte>
    ensures forall d :: HexValue(b) == Some(d) ==> d < 16
  {
    if 48 <= b <= 57 then Some(b - 48)
    else if 97 <= b <= 102 then Some(b - 97 + 10)
    else if 65 <= b <= 70 then Some(b - 65 + 10)
    else None
  }

  lemma HexDigitsReadBack(d: byte)
    requires d < 16
    ensures HexValue(HexUpper(d)) == Some(d) && HexValue(HexLower(d)) == Some(d)
  {
  }

  function Escape(b: byte): Bytes {
    if IsUnreserved(b) then [b] else [PERCENT, HexUpper(b / 16), HexUpper(b % 16)]
  }

  function Encoded(s: Bytes): Bytes {
    if s == [] then [] else Escape(s[0]) + Encoded(s[1..])
  }

  /** Why a text is not a percent-encoding. */
  datatype DecodeError = TruncatedEscape | InvalidEscape | InvalidUtf8

  /** The octets a percent-encoded text stands for, before they are checked to be text. */
  function Octets(s: Bytes): Result<Bytes, DecodeError> {
    if s == [] then Ok([])
    else if s[0] != PERCENT then Prepend([s[0]], Octets(s[1..]))
    else if |s| < 3 then Err(TruncatedEscape)
    else
      match (HexValue(s[1]), HexValue(s[2]))
      case (Some(high), Some(low)) => Prepend([16 * high + low], Octets(s[3..]))
      case _ => Err(InvalidEscape)
  }

  function Prepend(front: Bytes, rest: Result<Bytes, DecodeError>): Result<Bytes, DecodeError> {
    match rest
    case Ok(bytes) => Ok(front + bytes)
    case Err(e) => Err(e)
  }

  function Decoded(s: Bytes): Result<Bytes, DecodeError> {
    match Octets(s)
    case Ok(bytes) => if Utf8(bytes) then Ok(bytes) else Err(InvalidUtf8)
    case Err(e) => Err(e)
  }

  method PercentEncode(input: Bytes) returns (out: Bytes)
    ensures out == Encoded(input)
  {
    out := [];
    for index := 0 to |input|
      invariant out == Encoded(input[..index])
    {
      var b := input[index];
      ghost var before := out;
      if IsUnreserved(b) {
        out := out + [b];
      } else {
        out := out + [PERCENT];
        out := out + [HexUpper(b / 16), HexUpper(b % 16)];
      }
      assert out == before + Escape(b);
      EncodedSnoc(input[..index], b);
      assert input[..index] + [b] == input[..index + 1];
    }
    assert input[..|input|] == input;
  }

  lemma {:induction false} EncodedSnoc(s: Bytes, b: byte)
    ensures Encoded(s + [b]) == Encoded(s) + Escape(b)
  {
    if s == [] {
      assert s + [b] == [b];
    } else {
      EncodedSnoc(s[1..], b);
      assert (s + [b])[0] == s[0] && (s + [b])[1..] == s[1..] + [b];
      Reassociate(Escape(s[0]), Encoded(s[1..]), Escape(b));
    }
  }

  method PercentDecode(input: Bytes) returns (r: Result<Bytes, DecodeError>)
    ensures r == Decoded(input)
  {
    var out: Bytes := [];
    var index := 0;
    assert input[0..] == input;
    PrependNothing(Octets(input));
    while index < |input|
      invariant 0 <= index <= |input|
      invariant Octets(input) == Prepend(out, Octets(input[index..]))
    {
      ghost var rest := input[index..];
      if input[index] == PERCENT {
        if index + 3 > |input| {
          return Err(TruncatedEscape);
        }
        var high := HexValue(input[index + 1]);
        if high == None {
          return Err(InvalidEscape);
        }
        var low := HexValue(input[index + 2]);
        if low == None {
          return Err(InvalidEscape);
        }
        assert rest[3..] == input[index + 3..];
        PrependTwice(out, [16 * high.value + low.value], Octets(input[index + 3..]));
        out := out + [16 * high.value + low.value];
        index := index + 3;
      } else {
        assert rest[1..] == input[index + 1..];
        PrependTwice(out, [input[index]], Octets(input[index + 1..]));
        out := out + [input[index]];
        index := index + 1;
      }
    }
    assert out + [] == out;
    return if Utf8(out) then Ok(out) else Err(InvalidUtf8);
  }

  lemma PrependTwice(a: Bytes, b: Bytes, rest: Result<Bytes, DecodeError>)
    ensures Prepend(a, Prepend(b, rest)) == Prepend(a + b, rest)
  {
    if rest.Ok? {
      assert a + (b + rest.value) == (a + b) + rest.value;
    }
  }

  lemma PrependNothing(rest: Result<Bytes, DecodeError>)
    ensures Prepend([], rest) == rest
  {
    if rest.Ok? {
      assert [] + rest.value == rest.value;
    }
  }

  lemma {:induction false} OctetsOfEncoded(s: Bytes)
    ensures Octets(Encoded(s)) == Ok(s)
  {
    if s != [] {
      OctetsOfEncoded(s[1..]);
      var e, rest := Escape(s[0]), Encoded(s[1..]);
      assert (e + rest)[|e|..] == rest;
      assert s == [s[0]] + s[1..];
      if !IsUnreserved(s[0]) {
        HexDigitsReadBack(s[0] / 16);
        HexDigitsReadBack(s[0] % 16);
      }
    }
  }

  /** Decoding undoes encoding, for every text. */
  lemma DecodeEncoded(s: Bytes)
    requires Utf8(s)
    ensures Decoded(Encoded(s)) == Ok(s)
  {
    OctetsOfEncoded(s);
  }

  lemma EncodedInjective(s: Bytes, t: Bytes)
    requires Encoded(s) == Encoded(t)
    ensures s == t
  {
    OctetsOfEncoded(s);
    OctetsOfEncoded(t);
  }

  /** The bytes an encoding is written with. */
  predicate IsEncodingByte(b: byte) {
    IsUnreserved(b) || b == PERCENT
  }

  /** No delimiter survives encoding. */
  lemma {:induction false} EncodedAlphabet(s: Bytes)
    ensures forall i :: 0 <= i < |Encoded(s)| ==> IsEncodingByte(Encoded(s)[i])
  {
    if s != [] {
      EncodedAlphabet(s[1..]);
    }
  }

  /** Text that is already unreserved is its own encoding. */
  lemma {:induction false} UnreservedIsFixed(s: Bytes)
    requires forall i :: 0 <= i < |s| ==> IsUnreserved(s[i])
    ensures Encoded(s) == s && Decoded(s) == Ok(s)
  {
    if s == [] {
    } else {
      UnreservedIsFixed(s[1..]);
      assert s == [s[0]] + s[1..];
    }
    OctetsOfEncoded(s);
    AsciiIsUtf8(s);
  }

  /** `hex::encode`: lower case, two digits an octet. */
  function HexText(s: Bytes): Bytes {
    if s == [] then [] else [HexLower(s[0] / 16), HexLower(s[0] % 16)] + HexText(s[1..])
  }

  /** `hex::decode`: either case, an even number of digits. */
  function HexOctets(s: Bytes): Option<Bytes> {
    if s == [] then Some([])
    else if |s| == 1 then None
    else
      match (HexValue(s[0]), HexValue(s[1]), HexOctets(s[2..]))
      case (Some(high), Some(low), Some(rest)) => Some([16 * high + low] + rest)
      case _ => None
  }

  lemma {:induction false} HexRoundTrip(s: Bytes)
    ensures HexOctets(HexText(s)) == Some(s)
  {
    if s != [] {
      HexRoundTrip(s[1..]);
      HexDigitsReadBack(s[0] / 16);
      HexDigitsReadBack(s[0] % 16);
      assert HexText(s)[2..] == HexText(s[1..]);
      assert s == [s[0]] + s[1..];
    }
  }

  lemma {:induction false} HexTextIsAlphanumeric(s: Bytes)
    ensures forall i :: 0 <= i < |HexText(s)| ==> IsAlphanumeric(HexText(s)[i])
  {
    if s != [] {
      HexTextIsAlphanumeric(s[1..]);
    }
  }

  // ---------- The characters themselves ----------

  const UPPER_DIGITS := "0123456789ABCDEF"
  const LOWER_DIGITS := "0123456789abcdef"

  /** The unreserved characters, as section 2.3 of RFC 3986 lists them. */
  predicate StandsForItself(c: char) {
    'A' <= c <= 'Z' || 'a' <= c <= 'z' || '0' <= c <= '9' || c in "-._~"
  }

  /** An unreserved octet stands for itself; any other is a percent sign and two upper-case hex
      digits, the high one first. */
  lemma EscapeIs(b: byte)
    ensures Escape(b) == if StandsForItself(b as char) then [b]
      else [37, UPPER_DIGITS[b / 16] as byte, UPPER_DIGITS[b % 16] as byte]
  {
  }

  /** Hex digits are read in either case, and nothing else is. */
  lemma HexValueIff(b: byte, d: byte)
    ensures HexValue(b) == Some(d) <==>
      d < 16 && (b as char == UPPER_DIGITS[d] || b as char == LOWER_DIGITS[d])
  {
  }

  /** Hex text is read two digits an octet, the high one first, to its end. */
  lemma {:induction false} HexOctetsIff(s: Bytes, octets: Bytes)
    ensures HexOctets(s) == Some(octets) <==> SpellsHex(s, octets)
  {
    if s == [] {
    } else if |s| == 1 {
    } else if octets == [] {
    } else {
      HexOctetsIff(s[2..], octets[1..]);
      SpellsHexCons(s, octets);
      assert octets == [octets[0]] + octets[1..];
      if HexValue(s[0]).Some? && HexValue(s[1]).Some? {
        TwoDigits(HexValue(s[0]).value, HexValue(s[1]).value);
      }
    }
  }

  lemma TwoDigits(high: byte, low: byte)
    requires high < 16 && low < 16
    ensures (16 * high + low) / 16 == high && (16 * high + low) % 16 == low
  {
  }

  ghost predicate SpellsHex(s: Bytes, octets: Bytes) {
    |s| == 2 * |octets| && forall i :: 0 <= i < |octets| ==> SpellsOctet(s, octets, i)
  }

  predicate SpellsOctet(s: Bytes, octets: Bytes, i: int) {
    && 0 <= i < |octets| && 2 * i + 1 < |s|
    && HexValue(s[2 * i]) == Some(octets[i] / 16) && HexValue(s[2 * i + 1]) == Some(octets[i] % 16)
  }

  lemma SpellsHexCons(s: Bytes, octets: Bytes)
    requires |s| > 1 && octets != []
    ensures SpellsHex(s, octets) <==> SpellsOctet(s, octets, 0) && SpellsHex(s[2..], octets[1..])
  {
    hide HexValue;
    if SpellsHex(s, octets) {
      forall i | 0 <= i < |octets| - 1 ensures SpellsOctet(s[2..], octets[1..], i) {
        assert SpellsOctet(s, octets, i + 1);
      }
    }
    if SpellsOctet(s, octets, 0) && SpellsHex(s[2..], octets[1..]) {
      forall i | 0 <= i < |octets| ensures SpellsOctet(s, octets, i) {
        if i > 0 {
          assert SpellsOctet(s[2..], octets[1..], i - 1);
        }
      }
    }
  }

  /** Hex text is two lower-case digits an octet, the high one first. */
  lemma {:induction false} HexTextIs(s: Bytes)
    ensures |HexText(s)| == 2 * |s|
    ensures forall i :: 0 <= i < |s| ==> SpelledLower(HexText(s), i, s[i])
  {
    if s != [] {
      HexTextIs(s[1..]);
      var text, rest := HexText(s), HexText(s[1..]);
      assert text == [HexLower(s[0] / 16), HexLower(s[0] % 16)] + rest;
      assert SpelledLower(text, 0, s[0]) by {
        LowerIs(s[0] / 16);
        LowerIs(s[0] % 16);
      }
      hide HexText, SpelledLower;
      forall i | 0 <= i < |s| ensures SpelledLower(text, i, s[i]) {
        if i > 0 {
          assert SpelledLower(rest, i - 1, s[1..][i - 1]);
          SpelledBehind([text[0], text[1]], rest, i - 1, s[i]);
        }
      }
    }
  }

  lemma SpelledBehind(two: Bytes, rest: Bytes, i: nat, octet: byte)
    requires |two| == 2 && SpelledLower(rest, i, octet)
    ensures SpelledLower(two + rest, i + 1, octet)
  {
    var text := two + rest;
    assert text[2 * i + 2] == rest[2 * i] && text[2 * i + 3] == rest[2 * i + 1];
  }

  lemma LowerIs(d: byte)
    requires d < 16
    ensures HexLower(d) as char == LOWER_DIGITS[d]
  {
  }

  predicate SpelledLower(text: Bytes, i: nat, octet: byte) {
    && 2 * i + 1 < |text|
    && text[2 * i] as char == LOWER_DIGITS[octet / 16] && text[2 * i + 1] as char == LOWER_DIGITS[octet % 16]
  }

  // ---------- Which texts decode ----------

  /** A piece of percent-encoded text: an octet as it is, or escaped by two hex digits. */
  datatype Piece = Plain(octet: byte) | Escaped(high: byte, low: byte)

  predicate IsPiece(p: Piece) {
    match p
    case Plain(octet) => octet != PERCENT
    case Escaped(high, low) => HexValue(high).Some? && HexValue(low).Some?
  }

  function PieceText(p: Piece): Bytes {
    match p
    case Plain(octet) => [octet]
    case Escaped(high, low) => [PERCENT, high, low]
  }

  function PieceOctet(p: Piece): byte
    requires IsPiece(p)
  {
    match p
    case Plain(octet) => octet
    case Escaped(high, low) => 16 * HexValue(high).value + HexValue(low).value
  }

  ghost predicate ArePieces(pieces: seq<Piece>) {
    forall i :: 0 <= i < |pieces| ==> IsPiece(pieces[i])
  }

  function PiecesText(pieces: seq<Piece>): Bytes {
    if pieces == [] then [] else PieceText(pieces[0]) + PiecesText(pieces[1..])
  }

  function PiecesOctets(pieces: seq<Piece>): Bytes
    requires ArePieces(pieces)
  {
    if pieces == [] then [] else [PieceOctet(pieces[0])] + PiecesOctets(pieces[1..])
  }

  /** The text stops being encoded: a percent sign with fewer than two characters, or with one that is
      no hex digit, behind it. */
  predicate BreaksWith(s: Bytes, e: DecodeError) {
    && s != [] && s[0] == PERCENT
    && if |s| < 3 then e == TruncatedEscape
       else e == InvalidEscape && (HexValue(s[1]) == None || HexValue(s[2]) == None)
  }

  /** The pieces, and then a break, or nothing and no error. */
  ghost predicate Reads(s: Bytes, pieces: seq<Piece>, rest: Bytes, r: Result<Bytes, DecodeError>) {
    && ArePieces(pieces) && s == PiecesText(pieces) + rest
    && match r
       case Ok(octets) => rest == [] && octets == PiecesOctets(pieces)
       case Err(e) => BreaksWith(rest, e)
  }

  lemma {:induction false} ReadOff(s: Bytes) returns (pieces: seq<Piece>, rest: Bytes)
    ensures Reads(s, pieces, rest, Octets(s))
  {
    hide HexValue;
    if s == [] {
      pieces, rest := [], [];
    } else if s[0] != PERCENT {
      var more;
      more, rest := ReadOff(s[1..]);
      pieces := [Plain(s[0])] + more;
      ReadsCons(s[1..], Plain(s[0]), more, rest);
      assert s == [s[0]] + s[1..];
    } else if |s| < 3 || HexValue(s[1]) == None || HexValue(s[2]) == None {
      pieces, rest := [], s;
      assert [] + s == s;
    } else {
      var more;
      more, rest := ReadOff(s[3..]);
      pieces := [Escaped(s[1], s[2])] + more;
      ReadsCons(s[3..], Escaped(s[1], s[2]), more, rest);
      assert s == [s[0], s[1], s[2]] + s[3..];
    }
  }

  /** One more piece in front. */
  lemma ReadsCons(s: Bytes, p: Piece, pieces: seq<Piece>, rest: Bytes)
    requires IsPiece(p) && ArePieces(pieces) && s == PiecesText(pieces) + rest
    ensures ArePieces([p] + pieces) && PieceText(p) + s == PiecesText([p] + pieces) + rest
    ensures PiecesOctets([p] + pieces) == [PieceOctet(p)] + PiecesOctets(pieces)
    ensures Octets(PieceText(p) + s) == Prepend([PieceOctet(p)], Octets(s))
  {
    hide HexValue;
    var all := [p] + pieces;
    assert all[1..] == pieces;
    Reassociate(PieceText(p), PiecesText(pieces), rest);
    assert (PieceText(p) + s)[|PieceText(p)|..] == s;
  }

  lemma {:induction false} ReadsIsOctets(s: Bytes, pieces: seq<Piece>, rest: Bytes, r: Result<Bytes, DecodeError>)
    requires Reads(s, pieces, rest, r)
    ensures Octets(s) == r
    decreases |pieces|
  {
    if pieces == [] {
      assert s == rest;
    } else {
      hide HexValue;
      var p, more := pieces[0], pieces[1..];
      var s' := PiecesText(more) + rest;
      assert pieces == [p] + more;
      ReadsCons(s', p, more, rest);
      var r' := match r case Ok(octets) => Ok(PiecesOctets(more)) case Err(e) => Err(e);
      ReadsIsOctets(s', more, rest, r');
    }
  }

  /** A text decodes, to these octets or with this error, exactly when it is made of pieces that stand
      for them, or of pieces and a break of that kind. */
  lemma OctetsIff(s: Bytes, r: Result<Bytes, DecodeError>)
    requires r != Err(InvalidUtf8)
    ensures Octets(s) == r <==> exists pieces, rest :: Reads(s, pieces, rest, r)
  {
    if Octets(s) == r {
      var pieces, rest := ReadOff(s);
    }
    if pieces, rest :| Reads(s, pieces, rest, r) {
      ReadsIsOctets(s, pieces, rest, r);
    }
  }
}
