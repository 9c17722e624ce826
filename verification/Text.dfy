/** Text as the program holds it: UTF-8 bytes. Also the two failure-carrying results
    every other module uses. */
module Text {

  datatype Option<+T> = None | Some(value: T)

  datatype Result<+T, +E> = Ok(value: T) | Err(error: E)

  /** One octet. */
  newtype byte = b: int | 0 <= b < 256

  type Bytes = seq<byte>

  /** A two's-complement 64-bit integer. */
  const I64_MIN: int := -0x8000_0000_0000_0000
  const I64_MAX: int := 0x7FFF_FFFF_FFFF_FFFF

  type i64 = i: int | I64_MIN <= i <= I64_MAX

  const NEWLINE: byte := 10
  const PERCENT: byte := 37
  const AMPERSAND: byte := 38
  const PLUS: byte := 43
  const MINUS: byte := 45
  const ZERO: byte := 48
  const COLON: byte := 58
  const EQUALS: byte := 61
  const QUESTION: byte := 63

  /** ASCII text as bytes. */
  function Ascii(s: string): Bytes
    requires forall i :: 0 <= i < |s| ==> s[i] < 128 as char
  {
    seq(|s|, i requires 0 <= i < |s| => s[i] as byte)
  }

  predicate IsDigit(b: byte) { 48 <= b <= 57 }

  predicate IsUpper(b: byte) { 65 <= b <= 90 }

  predicate IsLower(b: byte) { 97 <= b <= 122 }

  predicate IsAlphanumeric(b: byte) { IsDigit(b) || IsUpper(b) || IsLower(b) }

  predicate Between(b: byte, low: byte, high: byte) { low <= b <= high }

  predicate IsContinuation(b: byte) { Between(b, 0x80, 0xBF) }

  /** Well-formed UTF-8, as the table in section 4 of RFC 3629 gives it. */
  predicate Utf8(s: Bytes) {
    if s == [] then true
    else if s[0] < 0x80 then Utf8(s[1..])
    else if |s| >= 2 && Between(s[0], 0xC2, 0xDF) && IsContinuation(s[1]) then Utf8(s[2..])
    else if |s| >= 3 && IsThreeByteLead(s[0], s[1]) && IsContinuation(s[2]) then Utf8(s[3..])
    else |s| >= 4 && IsFourByteLead(s[0], s[1]) && IsContinuation(s[2]) && IsContinuation(s[3]) && Utf8(s[4..])
  }

  predicate IsThreeByteLead(first: byte, second: byte) {
    || (first == 0xE0 && Between(second, 0xA0, 0xBF))
    || (Between(first, 0xE1, 0xEC) && IsContinuation(second))
    || (first == 0xED && Between(second, 0x80, 0x9F))
    || (Between(first, 0xEE, 0xEF) && IsContinuation(second))
  }

  predicate IsFourByteLead(first: byte, second: byte) {
    || (first == 0xF0 && Between(second, 0x90, 0xBF))
    || (Between(first, 0xF1, 0xF3) && IsContinuation(second))
    || (first == 0xF4 && Between(second, 0x80, 0x8F))
  }

  /** Every byte is 7-bit. */
  predicate IsAscii(s: Bytes) {
    forall i :: 0 <= i < |s| ==> s[i] < 0x80
  }

  lemma {:induction false} AsciiIsUtf8(s: Bytes)
    requires IsAscii(s)
    ensures Utf8(s)
  {
    if s != [] {
      AsciiIsUtf8(s[1..]);
    }
  }

  /** The length of the first character; all its bytes but a first 7-bit one have the high bit. */
  lemma FirstCharacter(s: Bytes) returns (n: nat)
    requires Utf8(s) && s != []
    ensures 0 < n <= |s| && StartsWithCharacter(s, n) && Utf8(s[n..])
    ensures forall i :: 0 < i < n ==> s[i] >= 0x80
  {
    n := if s[0] < 0x80 then 1 else if Between(s[0], 0xC2, 0xDF) then 2 else if s[0] < 0xF0 then 3 else 4;
  }

  /** The first `n` bytes are one character. */
  predicate StartsWithCharacter(s: Bytes, n: nat) {
    && |s| >= n
    && match n
       case 1 => s[0] < 0x80
       case 2 => Between(s[0], 0xC2, 0xDF) && IsContinuation(s[1])
       case 3 => IsThreeByteLead(s[0], s[1]) && IsContinuation(s[2])
       case 4 => IsFourByteLead(s[0], s[1]) && IsContinuation(s[2]) && IsContinuation(s[3])
       case _ => false
  }

  lemma SameFirstCharacter(s: Bytes, a: Bytes, n: nat)
    requires n <= |s| && n <= |a| && s[..n] == a[..n] && StartsWithCharacter(s, n) && Utf8(a[n..])
    ensures Utf8(a)
  {
    assert forall i :: 0 <= i < n ==> s[..n][i] == s[i] && a[..n][i] == a[i];
  }

  /** Cutting text at a 7-bit byte leaves text on both sides. */
  lemma {:induction false} Utf8Cut(a: Bytes, b: byte, c: Bytes)
    requires b < 0x80 && Utf8(a + [b] + c)
    ensures Utf8(a) && Utf8(c)
    decreases |a|
  {
    hide Utf8, StartsWithCharacter;
    var s := a + [b] + c;
    if a == [] {
      assert s == [b] + c;
      AsciiFirst(b, c);
    } else {
      var n := FirstCharacter(s);
      assert n <= |a| by {
        assert s[|a|] == b;
      }
      DropFirst(a, b, c, n);
      Utf8Cut(a[n..], b, c);
      SameFirstCharacter(s, a, n);
    }
  }

  lemma AsciiFirst(b: byte, c: Bytes)
    requires b < 0x80
    ensures Utf8([]) && (Utf8([b] + c) ==> Utf8(c))
  {
    assert ([b] + c)[1..] == c;
  }

  lemma DropFirst(a: Bytes, b: byte, c: Bytes, n: nat)
    requires n <= |a|
    ensures (a + [b] + c)[n..] == a[n..] + [b] + c && (a + [b] + c)[..n] == a[..n]
  {
  }

  /** No byte of `s` is `b`. */
  predicate Free(s: Bytes, b: byte) {
    forall i :: 0 <= i < |s| ==> s[i] != b
  }

  /** Pushing `b` and then `c` is pushing `b + c`. */
  lemma Reassociate<T>(a: seq<T>, b: seq<T>, c: seq<T>)
    ensures (a + b) + c == a + (b + c)
  {
  }

  // ---------- What UTF-8 is ----------

  /** A Unicode scalar value: a code point that is no surrogate. */
  predicate IsScalar(n: nat) {
    n < 0xD800 || 0xE000 <= n < 0x11_0000
  }

  /** The one to four octets of a scalar value: six bits to a continuation octet. */
  function ScalarOctets(n: nat): (octets: Bytes)
    requires IsScalar(n)
    ensures octets != []
  {
    if n < 0x80 then [n as byte]
    else if n < 0x800 then [(0xC0 + n / 64) as byte, Continuation(n)]
    else if n < 0x1_0000 then [(0xE0 + n / 4096) as byte, Continuation(n / 64), Continuation(n)]
    else [(0xF0 + n / 262144) as byte, Continuation(n / 4096), Continuation(n / 64), Continuation(n)]
  }

  function Continuation(n: nat): byte {
    (0x80 + n % 64) as byte
  }

  function ScalarsOctets(scalars: seq<nat>): Bytes
    requires forall i :: 0 <= i < |scalars| ==> IsScalar(scalars[i])
  {
    if scalars == [] then [] else ScalarOctets(scalars[0]) + ScalarsOctets(scalars[1..])
  }

  ghost predicate EncodesScalars(s: Bytes, scalars: seq<nat>) {
    (forall i :: 0 <= i < |scalars| ==> IsScalar(scalars[i])) && ScalarsOctets(scalars) == s
  }

  lemma ScalarIsCharacter(n: nat)
    requires IsScalar(n)
    ensures StartsWithCharacter(ScalarOctets(n), |ScalarOctets(n)|)
  {
    if 0x800 <= n < 0x1_0000 {
      LeadOfThree(n);
    } else if n >= 0x1_0000 {
      LeadOfFour(n);
    }
  }

  lemma LeadOfThree(n: nat)
    requires IsScalar(n) && 0x800 <= n < 0x1_0000
    ensures n / 4096 < 16 && IsThreeByteLead((0xE0 + n / 4096) as byte, Continuation(n / 64))
  {
    var h, m := n / 4096, n / 64 % 64;
    assert n / 64 == 64 * h + m;
  }

  lemma LeadOfFour(n: nat)
    requires IsScalar(n) && n >= 0x1_0000
    ensures n / 262144 < 5 && IsFourByteLead((0xF0 + n / 262144) as byte, Continuation(n / 4096))
  {
    var g, h := n / 262144, n / 4096 % 64;
    assert n / 4096 == 64 * g + h;
  }

  lemma CharacterIsScalar(s: Bytes, k: nat) returns (n: nat)
    requires |s| == k && StartsWithCharacter(s, k)
    ensures IsScalar(n) && ScalarOctets(n) == s
  {
    if k == 1 {
      n := s[0] as nat;
    } else if k == 2 {
      n := TwoOctets(s[0], s[1]);
      assert s == [s[0], s[1]];
    } else if k == 3 {
      n := ThreeOctets(s[0], s[1], s[2]);
      assert s == [s[0], s[1], s[2]];
    } else {
      n := FourOctets(s[0], s[1], s[2], s[3]);
      assert s == [s[0], s[1], s[2], s[3]];
    }
  }

  lemma TwoOctets(a: byte, b: byte) returns (n: nat)
    requires Between(a, 0xC2, 0xDF) && IsContinuation(b)
    ensures IsScalar(n) && ScalarOctets(n) == [a, b]
  {
    var h, l := a as nat - 0xC0, b as nat - 0x80;
    n := 64 * h + l;
    PushSix(h, l);
  }

  lemma ThreeOctets(a: byte, b: byte, c: byte) returns (n: nat)
    requires IsThreeByteLead(a, b) && IsContinuation(c)
    ensures IsScalar(n) && ScalarOctets(n) == [a, b, c]
  {
    var h, m, l := a as nat - 0xE0, b as nat - 0x80, c as nat - 0x80;
    var high := 64 * h + m;
    n := 64 * high + l;
    PushSix(high, l);
    PushSix(h, m);
    assert 0x800 <= n < 0x1_0000;
    assert n / 64 == high && n / 4096 == h;
  }

  lemma FourOctets(a: byte, b: byte, c: byte, d: byte) returns (n: nat)
    requires IsFourByteLead(a, b) && IsContinuation(c) && IsContinuation(d)
    ensures IsScalar(n) && ScalarOctets(n) == [a, b, c, d]
  {
    var g, h, m, l := a as nat - 0xF0, b as nat - 0x80, c as nat - 0x80, d as nat - 0x80;
    var top := 64 * g + h;
    var high := 64 * top + m;
    n := 64 * high + l;
    PushSix(high, l);
    PushSix(top, m);
    PushSix(g, h);
    assert 0x1_0000 <= n < 0x11_0000;
    assert n / 64 == high && n / 4096 == top && n / 262144 == g;
  }

  lemma PushSix(n: nat, v: nat)
    requires v < 64
    ensures (64 * n + v) / 64 == n && (64 * n + v) % 64 == v
    ensures (64 * n + v) / 4096 == n / 64 && (64 * n + v) / 262144 == n / 4096
  {
  }

  lemma {:induction false} ScalarsAreUtf8(scalars: seq<nat>)
    requires forall i :: 0 <= i < |scalars| ==> IsScalar(scalars[i])
    ensures Utf8(ScalarsOctets(scalars))
  {
    if scalars != [] {
      hide Utf8, ScalarOctets, StartsWithCharacter;
      var first, rest := ScalarOctets(scalars[0]), ScalarsOctets(scalars[1..]);
      ScalarIsCharacter(scalars[0]);
      ScalarsAreUtf8(scalars[1..]);
      assert (first + rest)[..|first|] == first[..|first|] && (first + rest)[|first|..] == rest;
      SameFirstCharacter(first, first + rest, |first|);
    } else {
      assert Utf8([]);
    }
  }

  lemma {:induction false} Utf8IsScalars(s: Bytes) returns (scalars: seq<nat>)
    requires Utf8(s)
    ensures EncodesScalars(s, scalars)
  {
    hide Utf8, ScalarOctets, StartsWithCharacter, IsScalar;
    if s == [] {
      scalars := [];
    } else {
      var k := FirstCharacter(s);
      CharacterAlone(s, k);
      var n := CharacterIsScalar(s[..k], k);
      var rest := Utf8IsScalars(s[k..]);
      scalars := [n] + rest;
      assert scalars[1..] == rest && s == s[..k] + s[k..];
    }
  }

  lemma CharacterAlone(s: Bytes, k: nat)
    requires k <= |s| && StartsWithCharacter(s, k)
    ensures StartsWithCharacter(s[..k], k)
  {
  }

  /** The predicate accepts exactly the encodings of sequences of scalar values. */
  lemma Utf8Iff(s: Bytes)
    ensures Utf8(s) <==> exists scalars :: EncodesScalars(s, scalars)
  {
    hide Utf8;
    if Utf8(s) {
      var scalars := Utf8IsScalars(s);
    }
    if scalars :| EncodesScalars(s, scalars) {
      ScalarsAreUtf8(scalars);
    }
  }
}
