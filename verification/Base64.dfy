/** The base64 key decoder: a 32-bit accumulator that is shifted and never cleared, against the
    bit-string reading of RFC 4648. */
module Base64 {
  import opened Text

  // ---------- Bit strings ----------

  function Pow2(n: nat): nat {
    if n == 0 then 1 else 2 * Pow2(n - 1)
  }

  /** The `n` least significant bits of `x`, most significant first. */
  function LowBits(x: nat, n: nat): (bits: seq<bool>)
    ensures |bits| == n
  {
    if n == 0 then [] else LowBits(x / 2, n - 1) + [x % 2 == 1]
  }

  /** The number a bit string denotes. */
  function BitsValue(bits: seq<bool>): nat {
    if bits == [] then 0
    else 2 * BitsValue(bits[..|bits| - 1]) + if bits[|bits| - 1] then 1 else 0
  }

  lemma {:induction false} BitsValueBound(bits: seq<bool>)
    ensures BitsValue(bits) < Pow2(|bits|)
  {
    if bits != [] {
      BitsValueBound(bits[..|bits| - 1]);
    }
  }

  lemma {:induction false} BitsValueReadsBack(x: nat, n: nat)
    requires x < Pow2(n)
    ensures BitsValue(LowBits(x, n)) == x
  {
    if n > 0 {
      BitsValueReadsBack(x / 2, n - 1);
      assert LowBits(x, n)[..n - 1] == LowBits(x / 2, n - 1);
    }
  }

  /** `x >> k`: drop the `k` lowest bits. */
  function ShiftedRight(x: nat, k: nat): (r: nat)
    ensures r <= x
  {
    if k == 0 then x else ShiftedRight(x / 2, k - 1)
  }

  lemma {:induction false} LowBitsSplit(x: nat, m: nat, k: nat)
    ensures LowBits(x, m + k) == LowBits(ShiftedRight(x, k), m) + LowBits(x, k)
  {
    if k > 0 {
      LowBitsSplit(x / 2, m, k - 1);
      Reassociate(LowBits(ShiftedRight(x, k), m), LowBits(x / 2, k - 1), [x % 2 == 1]);
    }
  }

  lemma MultipliedLe(d: nat, a: int, b: int)
    requires a <= b
    ensures d * a <= d * b
  {
  }

  lemma {:induction false} QuotientUnique(x: int, d: nat, q: int, r: int)
    requires 0 <= r < d && x == d * q + r
    ensures x / d == q && x % d == r
  {
    var q', r' := x / d, x % d;
    assert x == d * q' + r';
    if q < q' {
      MultipliedLe(d, q + 1, q');
    } else if q' < q {
      MultipliedLe(d, q' + 1, q);
    }
  }

  /** High bits beyond the ones read do not matter. */
  lemma {:induction false} LowBitsOfRemainder(x: nat, n: nat, m: nat)
    requires n <= m
    ensures Pow2(m) > 0 && LowBits(x % Pow2(m), n) == LowBits(x, n)
  {
    if m > 0 {
      LowBitsOfRemainder(x / 2, if n > 0 then n - 1 else 0, m - 1);
      HalveRemainder(x, Pow2(m - 1));
    }
  }

  lemma {:induction false} HalveRemainder(x: nat, d: nat)
    requires d > 0
    ensures (x % (2 * d)) / 2 == (x / 2) % d && (x % (2 * d)) % 2 == x % 2
  {
    var q, r := x / (2 * d), x % (2 * d);
    assert x == 2 * (d * q) + r;
    assert x / 2 == d * q + r / 2;
    assert 0 <= r / 2 < d;
    QuotientUnique(x / 2, d, q, r / 2);
  }

  lemma {:induction false} ShiftUndoesPush(x: nat, v: nat, k: nat)
    requires v < Pow2(k)
    ensures ShiftedRight(Pow2(k) * x + v, k) == x
  {
    if k > 0 {
      hide Pow2;
      var p := Pow2(k - 1);
      DoublePow2(k);
      HalvePush(p, x, v);
      ShiftUndoesPush(x, v / 2, k - 1);
    }
  }

  lemma DoublePow2(k: nat)
    requires k > 0
    ensures Pow2(k) == 2 * Pow2(k - 1)
  {
  }

  lemma HalvePush(p: nat, x: nat, v: nat)
    ensures (2 * p * x + v) / 2 == p * x + v / 2
  {
    var half := p * x;
    assert 2 * p * x == 2 * half;
  }

  lemma BitsFromParts(y: nat, x: nat, v: nat, n: nat, k: nat)
    requires ShiftedRight(y, k) == x && Pow2(k) > 0 && y % Pow2(k) == v
    ensures LowBits(y, n + k) == LowBits(x, n) + LowBits(v, k)
  {
    LowBitsSplit(y, n, k);
    LowBitsOfRemainder(y, k, k);
  }

  /** Shifting a number in shifts its bits in. */
  lemma BitsPush(x: nat, v: nat, n: nat, k: nat)
    requires v < Pow2(k)
    ensures LowBits(Pow2(k) * x + v, n + k) == LowBits(x, n) + LowBits(v, k)
  {
    var y := Pow2(k) * x + v;
    ShiftUndoesPush(x, v, k);
    QuotientUnique(y, Pow2(k), x, v);
    BitsFromParts(y, x, v, n, k);
  }

  lemma LowBitsPush(x: nat, v: nat, n: nat)
    requires v < 64
    ensures LowBits(64 * x + v, n + 6) == LowBits(x, n) + LowBits(v, 6)
  {
    assert Pow2(6) == 64;
    BitsPush(x, v, n, 6);
  }

  /** Appending an octet below a number appends its bits. */
  lemma OctetPush(x: nat, b: byte, n: nat)
    ensures LowBits(256 * x + b as nat, n + 8) == LowBits(x, n) + LowBits(b as nat, 8)
  {
    assert Pow2(8) == 256;
    BitsPush(x, b as nat, n, 8);
  }

  /** The accumulator is 32 bits wide. */
  lemma Pow2Of32()
    ensures Pow2(32) == 0x1_0000_0000
  {
    assert Pow2(4) == 0x10 && Pow2(8) == 0x100 && Pow2(12) == 0x1000 && Pow2(16) == 0x1_0000;
    assert Pow2(20) == 0x10_0000 && Pow2(24) == 0x100_0000 && Pow2(28) == 0x1000_0000;
  }

  function OctetBits(octets: Bytes): (bits: seq<bool>)
    ensures |bits| == 8 * |octets|
  {
    if octets == [] then [] else LowBits(octets[0] as nat, 8) + OctetBits(octets[1..])
  }

  /** The whole octets at the front of a bit string; what is left over is dropped. */
  function OctetsOf(bits: seq<bool>): Bytes {
    if |bits| < 8 then []
    else
      BitsValueBound(bits[..8]);
      assert Pow2(8) == 256;
      [BitsValue(bits[..8]) as byte] + OctetsOf(bits[8..])
  }

  lemma {:induction false} OctetsReadBack(octets: Bytes, rest: seq<bool>)
    requires |rest| < 8
    ensures OctetsOf(OctetBits(octets) + rest) == octets
  {
    if octets == [] {
      assert OctetBits(octets) + rest == rest;
    } else {
      var first, others := LowBits(octets[0] as nat, 8), OctetBits(octets[1..]);
      OctetsReadBack(octets[1..], rest);
      Reassociate(first, others, rest);
      var bits := first + (others + rest);
      assert bits[..8] == first && bits[8..] == others + rest;
      assert Pow2(8) == 256;
      BitsValueReadsBack(octets[0] as nat, 8);
      assert octets == [octets[0]] + octets[1..];
    }
  }

  lemma {:induction false} OctetBitsSnoc(octets: Bytes, b: byte)
    ensures OctetBits(octets + [b]) == OctetBits(octets) + LowBits(b as nat, 8)
  {
    if octets == [] {
      assert octets + [b] == [b];
    } else {
      OctetBitsSnoc(octets[1..], b);
      assert (octets + [b])[0] == octets[0] && (octets + [b])[1..] == octets[1..] + [b];
      Reassociate(LowBits(octets[0] as nat, 8), OctetBits(octets[1..]), LowBits(b as nat, 8));
    }
  }

  // ---------- What a base64 text denotes ----------

  /** The six-bit value of a character of either alphabet. */
  function Sextet(b: byte): (v: Option<nat>)
    ensures v.Some? ==> v.value < 64
  {
    if IsUpper(b) then Some((b - 65) as nat)
    else if IsLower(b) then Some((b - 97) as nat + 26)
    else if IsDigit(b) then Some((b - 48) as nat + 52)
    else if b == 43 || b == 45 then Some(62)
    else if b == 47 || b == 95 then Some(63)
    else None
  }

  predicate InAlphabet(s: Bytes) {
    forall i :: 0 <= i < |s| ==> Sextet(s[i]).Some?
  }

  /** The value of a character of the alphabets; no other character is ever asked. */
  function SextetValue(b: byte): (v: nat)
    ensures v < 64
  {
    match Sextet(b)
    case Some(v) => v
    case None => 0
  }

  function SextetBits(s: Bytes): (bits: seq<bool>)
    ensures |bits| == 6 * |s|
  {
    if s == [] then [] else LowBits(SextetValue(s[0]), 6) + SextetBits(s[1..])
  }

  lemma {:induction false} SextetBitsAppend(s: Bytes, t: Bytes)
    ensures SextetBits(s + t) == SextetBits(s) + SextetBits(t)
  {
    if s == [] {
      assert s + t == t;
    } else {
      SextetBitsAppend(s[1..], t);
      assert (s + t)[0] == s[0] && (s + t)[1..] == s[1..] + t;
      Reassociate(LowBits(SextetValue(s[0]), 6), SextetBits(s[1..]), SextetBits(t));
    }
  }

  /** Everything before the first `=`. */
  function Unpadded(s: Bytes): Bytes {
    if s == [] || s[0] == EQUALS then [] else [s[0]] + Unpadded(s[1..])
  }

  /** The first character outside both alphabets. */
  function FirstForeign(s: Bytes): Option<byte> {
    if s == [] then None else if Sextet(s[0]).None? then Some(s[0]) else FirstForeign(s[1..])
  }

  lemma {:induction false} NoForeignIffInAlphabet(s: Bytes)
    ensures FirstForeign(s) == None <==> InAlphabet(s)
  {
    if s != [] {
      NoForeignIffInAlphabet(s[1..]);
      assert s == [s[0]] + s[1..];
    }
  }

  datatype Base64Error = InvalidCharacter(found: byte) | TruncatedGroup

  /** The octets of a base64 text: its sextets, read as one bit string, cut into octets. */
  function Decoded64(input: Bytes): Result<Bytes, Base64Error> {
    var text := Unpadded(input);
    NoForeignIffInAlphabet(text);
    match FirstForeign(text)
    case Some(b) => Err(InvalidCharacter(b))
    case None => if |text| % 4 == 1 then Err(TruncatedGroup) else Ok(OctetsOf(SextetBits(text)))
  }

  type u32 = n: int | 0 <= n < 0x1_0000_0000

  method Base64Decode(input: Bytes) returns (r: Result<Bytes, Base64Error>)
    ensures r == Decoded64(input)
  {
    var out: Bytes := [];
    var buffer: u32 := 0;
    var bits := 0;
    var i := 0;
    ghost var text := Unpadded(input);
    UnpaddedPrefix(input);
    assert Accounted(text[..0], out, buffer, bits);
    hide *;
    while i < |input|
      invariant 0 <= i <= |text|
      invariant 0 <= bits < 8
      invariant Accounted(text[..i], out, buffer, bits)
    {
      var b := input[i];
      if b == EQUALS {
        break;
      }
      var v := Sextet(b);
      if v == None {
        Rejected(input, i, out, buffer, bits);
        return Err(InvalidCharacter(b));
      }
      assert text[..i + 1] == text[..i] + [b];
      out, buffer, bits := Absorb(text[..i], b, v.value, out, buffer, bits);
      i := i + 1;
    }
    assert text[..i] == text;
    Finished(input, out, buffer, bits);
    if bits >= 6 {
      return Err(TruncatedGroup);
    }
    return Ok(out);
  }

  /** One turn of the decoding loop: shift the sextet in, and take an octet out when one is full. */
  method Absorb(ghost read: Bytes, ghost b: byte, v: nat, out: Bytes, buffer: u32, bits: nat)
    returns (out': Bytes, buffer': u32, bits': nat)
    requires Sextet(b) == Some(v) && bits < 8 && Accounted(read, out, buffer, bits)
    ensures bits' < 8 && Accounted(read + [b], out', buffer', bits')
  {
    hide *;
    ShiftIn(read, b, out, buffer, bits);
    out' := out;
    buffer' := (buffer * 64) % 0x1_0000_0000 + v;
    bits' := bits + 6;
    if bits' >= 8 {
      bits' := bits' - 8;
      OctetOut(read + [b], out', buffer', bits');
      out' := out' + [(ShiftedRight(buffer', bits') % 256) as byte];
    }
  }

  lemma Rejected(input: Bytes, i: nat, out: Bytes, buffer: nat, bits: nat)
    requires i < |Unpadded(input)| && Accounted(Unpadded(input)[..i], out, buffer, bits)
    requires Sextet(Unpadded(input)[i]) == None
    ensures Decoded64(input) == Err(InvalidCharacter(Unpadded(input)[i]))
  {
    FirstForeignAt(Unpadded(input), i);
  }

  lemma {:induction false} Finished(input: Bytes, out: Bytes, buffer: nat, bits: nat)
    requires bits < 8 && Accounted(Unpadded(input), out, buffer, bits)
    ensures Decoded64(input) == if bits >= 6 then Err(TruncatedGroup) else Ok(out)
  {
    NoForeignIffInAlphabet(Unpadded(input));
    LeftoverBits(|Unpadded(input)|, |out|, bits);
    OctetsReadBack(out, LowBits(buffer, bits));
  }

  /** Six unused bits mean a lone character in the last group. */
  lemma LeftoverBits(sextets: nat, octets: nat, bits: nat)
    requires bits < 8 && 8 * octets + bits == 6 * sextets
    ensures bits >= 6 <==> sextets % 4 == 1
  {
  }

  /** The octets pushed so far and the bits still held are the bits of the text read so far. */
  ghost predicate Accounted(read: Bytes, out: Bytes, buffer: nat, bits: nat) {
    && InAlphabet(read)
    && 8 * |out| + bits == 6 * |read|
    && OctetBits(out) + LowBits(buffer, bits) == SextetBits(read)
  }

  lemma TruncationKeeps(x: nat, n: nat)
    requires n <= 32
    ensures LowBits(x % 0x1_0000_0000, n) == LowBits(x, n)
  {
    Pow2Of32();
    LowBitsOfRemainder(x, n, 32);
  }

  lemma TruncatedShift(buffer: u32, v: nat)
    requires v < 64
    ensures (buffer * 64) % 0x1_0000_0000 + v == (64 * buffer + v) % 0x1_0000_0000
  {
  }

  /** Shifting six bits into the truncated accumulator keeps the bits still held. */
  lemma ShiftIn(read: Bytes, b: byte, out: Bytes, buffer: u32, bits: nat)
    requires Accounted(read, out, buffer, bits) && bits < 8 && Sextet(b).Some?
    ensures (buffer * 64) % 0x1_0000_0000 + Sextet(b).value < 0x1_0000_0000
    ensures Accounted(read + [b], out, (buffer * 64) % 0x1_0000_0000 + Sextet(b).value, bits + 6)
  {
    hide LowBits;
    var v := Sextet(b).value;
    SextetBitsAppend(read, [b]);
    assert SextetBits([b]) == LowBits(SextetValue(b), 6) + [];
    TruncatedShift(buffer, v);
    TruncationKeeps(64 * buffer + v, bits + 6);
    LowBitsPush(buffer, v, bits);
    Reassociate(OctetBits(out), LowBits(buffer, bits), LowBits(v, 6));
  }

  /** Taking an octet out leaves the lower bits. */
  lemma OctetOut(read: Bytes, out: Bytes, buffer: nat, bits: nat)
    requires Accounted(read, out, buffer, bits + 8)
    ensures Accounted(read, out + [(ShiftedRight(buffer, bits) % 256) as byte], buffer, bits)
  {
    var octet := (ShiftedRight(buffer, bits) % 256) as byte;
    LowBitsSplit(buffer, 8, bits);
    assert Pow2(8) == 256;
    LowBitsOfRemainder(ShiftedRight(buffer, bits), 8, 8);
    OctetBitsSnoc(out, octet);
    Reassociate(OctetBits(out), LowBits(octet as nat, 8), LowBits(buffer, bits));
  }

  lemma {:induction false} UnpaddedPrefix(s: Bytes)
    ensures |Unpadded(s)| <= |s| && Unpadded(s) == s[..|Unpadded(s)|]
    ensures forall i :: 0 <= i < |Unpadded(s)| ==> Unpadded(s)[i] != EQUALS
    ensures |Unpadded(s)| < |s| ==> s[|Unpadded(s)|] == EQUALS
  {
    if s == [] || s[0] == EQUALS {
    } else {
      UnpaddedPrefix(s[1..]);
    }
  }

  lemma {:induction false} FirstForeignAt(s: Bytes, i: nat)
    requires i < |s| && InAlphabet(s[..i]) && Sextet(s[i]).None?
    ensures FirstForeign(s) == Some(s[i])
  {
    if i > 0 {
      assert s[..i][0] == s[0];
      assert s[..i][1..] == s[1..][..i - 1];
      FirstForeignAt(s[1..], i - 1);
    }
  }

  // ---------- The encoders ----------

  /** The two alphabets of sections 4 and 5. */
  datatype Alphabet = Standard | UrlSafe

  function Character(a: Alphabet, v: nat): byte
    requires v < 64
  {
    if v < 26 then (65 + v) as byte
    else if v < 52 then (97 + v - 26) as byte
    else if v < 62 then (48 + v - 52) as byte
    else if v == 62 then (if a.Standard? then 43 else 45)
    else (if a.Standard? then 47 else 95)
  }

  /** The characters of a group of sextets. */
  function Group(a: Alphabet, sextets: seq<nat>): (text: Bytes)
    requires forall i :: 0 <= i < |sextets| ==> sextets[i] < 64
    ensures |text| == |sextets|
  {
    if sextets == [] then []
    else Group(a, sextets[..|sextets| - 1]) + [Character(a, sextets[|sextets| - 1])]
  }

  /** Three octets make four characters; a last group is filled up with zero bits. */
  function Characters(a: Alphabet, octets: Bytes): Bytes {
    if octets == [] then []
    else if |octets| == 1 then
      var v := octets[0] as nat * 16;
      Group(a, [v / 64, v % 64])
    else if |octets| == 2 then
      var v := (octets[0] as nat * 256 + octets[1] as nat) * 4;
      Group(a, [v / 4096, v / 64 % 64, v % 64])
    else
      var v := GroupValue(octets[0], octets[1], octets[2]);
      Group(a, [v / 262144, v / 4096 % 64, v / 64 % 64, v % 64]) + Characters(a, octets[3..])
  }

  function GroupValue(x: byte, y: byte, z: byte): (v: nat)
    ensures v < 0x100_0000
  {
    x as nat * 65536 + y as nat * 256 + z as nat
  }

  function Padding(octets: Bytes): Bytes {
    if |octets| % 3 == 0 then [] else if |octets| % 3 == 1 then [EQUALS, EQUALS] else [EQUALS]
  }

  function Encoded64(a: Alphabet, padded: bool, octets: Bytes): Bytes {
    Characters(a, octets) + if padded then Padding(octets) else []
  }

  /** The zero bits the last group is filled up with. */
  function Filler(n: nat): seq<bool> {
    if n % 3 == 0 then [] else if n % 3 == 1 then [false, false, false, false] else [false, false]
  }

  lemma {:induction false} CharacterReadsBack(a: Alphabet, v: nat)
    requires v < 64
    ensures Sextet(Character(a, v)) == Some(v) && Character(a, v) != EQUALS
  {
  }

  /** Sextets as digits in base 64. */
  function SextetsValue(sextets: seq<nat>): nat {
    if sextets == [] then 0
    else 64 * SextetsValue(sextets[..|sextets| - 1]) + sextets[|sextets| - 1]
  }

  /** The bits of a group's text are the bits of the number its sextets spell. */
  lemma {:induction false} GroupSpelled(a: Alphabet, sextets: seq<nat>)
    requires forall i :: 0 <= i < |sextets| ==> sextets[i] < 64
    ensures InAlphabet(Group(a, sextets))
    ensures SextetBits(Group(a, sextets)) == LowBits(SextetsValue(sextets), 6 * |sextets|)
  {
    hide LowBits, SextetBits, Character;
    if sextets == [] {
      NoBits(SextetsValue(sextets));
    } else {
      var front, v := sextets[..|sextets| - 1], sextets[|sextets| - 1];
      GroupSpelled(a, front);
      OneCharacter(a, v);
      SextetBitsAppend(Group(a, front), [Character(a, v)]);
      SextetsPush(SextetsValue(front), v, |front|);
    }
  }

  lemma NoBits(x: nat)
    ensures SextetBits([]) == [] && LowBits(x, 0) == []
  {
  }

  lemma OneCharacter(a: Alphabet, v: nat)
    requires v < 64
    ensures Sextet(Character(a, v)).Some? && SextetBits([Character(a, v)]) == LowBits(v, 6)
  {
    hide LowBits, Character;
    CharacterReadsBack(a, v);
    var one := [Character(a, v)];
    assert one[1..] == [] && SextetBits(one) == LowBits(v, 6) + [];
  }

  lemma SextetsPush(x: nat, v: nat, count: nat)
    requires v < 64
    ensures LowBits(64 * x + v, 6 * (count + 1)) == LowBits(x, 6 * count) + LowBits(v, 6)
  {
    hide LowBits;
    LowBitsPush(x, v, 6 * count);
  }

  lemma TwoSextets(v: nat)
    ensures SextetsValue([v / 64, v % 64]) == v
  {
    assert [v / 64, v % 64][..1] == [v / 64];
    assert SextetsValue([v / 64]) == 64 * SextetsValue([v / 64][..0]) + v / 64;
  }

  lemma ThreeSextets(v: nat)
    ensures SextetsValue([v / 4096, v / 64 % 64, v % 64]) == v
  {
    var u := v / 64;
    TwoSextets(u);
    assert v / 4096 == u / 64;
    assert [v / 4096, v / 64 % 64, v % 64][..2] == [u / 64, u % 64];
  }

  lemma FourSextets(v: nat)
    ensures SextetsValue([v / 262144, v / 4096 % 64, v / 64 % 64, v % 64]) == v
  {
    var u := v / 64;
    ThreeSextets(u);
    assert v / 262144 == u / 4096 && v / 4096 == u / 64;
    assert [v / 262144, v / 4096 % 64, v / 64 % 64, v % 64][..3] == [u / 4096, u / 64 % 64, u % 64];
  }

  lemma GroupBits(x: byte, y: byte, z: byte)
    ensures LowBits(GroupValue(x, y, z), 24) == LowBits(x as nat, 8) + (LowBits(y as nat, 8) + LowBits(z as nat, 8))
  {
    hide LowBits;
    var xy := 256 * x as nat + y as nat;
    OctetPush(x as nat, y, 8);
    OctetPush(xy, z, 16);
    assert GroupValue(x, y, z) == 256 * xy + z as nat;
    Reassociate(LowBits(x as nat, 8), LowBits(y as nat, 8), LowBits(z as nat, 8));
  }

  lemma FourZeros(x: nat, n: nat)
    ensures LowBits(16 * x, n + 4) == LowBits(x, n) + [false, false, false, false]
  {
    assert Pow2(4) == 16;
    assert LowBits(0, 4) == [false, false, false, false];
    BitsPush(x, 0, n, 4);
  }

  lemma TwoZeros(x: nat, n: nat)
    ensures LowBits(4 * x, n + 2) == LowBits(x, n) + [false, false]
  {
    assert Pow2(2) == 4;
    assert LowBits(0, 2) == [false, false];
    BitsPush(x, 0, n, 2);
  }

  /** The characters spell the octets' bits, filled up with zeros to whole sextets. */
  ghost predicate Spells(text: Bytes, octets: Bytes) {
    && InAlphabet(text)
    && SextetBits(text) == OctetBits(octets) + Filler(|octets|)
  }

  lemma {:induction false} CharactersSpell(a: Alphabet, octets: Bytes)
    ensures Spells(Characters(a, octets), octets)
  {
    if octets == [] {
      assert OctetBits(octets) + Filler(0) == [];
    } else if |octets| == 1 {
      var v := octets[0] as nat * 16;
      GroupSpelled(a, [v / 64, v % 64]);
      TwoSextets(v);
      OneOctetBits(octets);
    } else if |octets| == 2 {
      var v := (octets[0] as nat * 256 + octets[1] as nat) * 4;
      GroupSpelled(a, [v / 4096, v / 64 % 64, v % 64]);
      ThreeSextets(v);
      TwoOctetBits(octets);
    } else {
      hide LowBits;
      CharactersSpell(a, octets[3..]);
      var v := GroupValue(octets[0], octets[1], octets[2]);
      var sextets := [v / 262144, v / 4096 % 64, v / 64 % 64, v % 64];
      GroupSpelled(a, sextets);
      FourSextets(v);
      ThreeOctetBits(octets);
      SpellsAfter(Group(a, sextets), Characters(a, octets[3..]), LowBits(v, 24), octets);
    }
  }

  lemma {:induction false} SpellsAfter(group: Bytes, rest: Bytes, bits: seq<bool>, octets: Bytes)
    requires InAlphabet(group) && SextetBits(group) == bits
    requires |octets| >= 3 && OctetBits(octets) == bits + OctetBits(octets[3..])
    requires Spells(rest, octets[3..])
    ensures Spells(group + rest, octets)
  {
    hide LowBits;
    SextetBitsAppend(group, rest);
    FillerRepeats(|octets|);
    Reassociate(bits, OctetBits(octets[3..]), Filler(|octets|));
  }

  /** An encoder never leaves a lone last character. */
  lemma {:induction false} CharactersLength(a: Alphabet, octets: Bytes)
    ensures |Characters(a, octets)| % 4 != 1
  {
    if |octets| >= 3 {
      CharactersLength(a, octets[3..]);
      FourMore(|Characters(a, octets[3..])|);
    }
  }

  lemma FourMore(n: nat)
    ensures (4 + n) % 4 == n % 4
  {
  }

  lemma FillerRepeats(n: nat)
    requires n >= 3
    ensures Filler(n) == Filler(n - 3)
  {
  }

  lemma {:induction false} OneOctetBits(octets: Bytes)
    requires |octets| == 1
    ensures OctetBits(octets) + Filler(1) == LowBits(octets[0] as nat * 16, 12)
  {
    hide LowBits;
    FourZeros(octets[0] as nat, 8);
    assert OctetBits(octets) == LowBits(octets[0] as nat, 8) + [];
  }

  lemma TwoOctetBits(octets: Bytes)
    requires |octets| == 2
    ensures OctetBits(octets) + Filler(2) == LowBits((octets[0] as nat * 256 + octets[1] as nat) * 4, 18)
  {
    hide LowBits;
    var v := octets[0] as nat * 256 + octets[1] as nat;
    assert octets[1..][0] == octets[1] && octets[1..][1..] == [];
    assert OctetBits(octets[1..]) == LowBits(octets[1] as nat, 8) + [];
    OctetPush(octets[0] as nat, octets[1], 8);
    assert OctetBits(octets) == LowBits(v, 16);
    TwoZeros(v, 16);
  }

  lemma ThreeOctetBits(octets: Bytes)
    requires |octets| >= 3
    ensures OctetBits(octets) == LowBits(GroupValue(octets[0], octets[1], octets[2]), 24) + OctetBits(octets[3..])
  {
    var one, two := octets[1..], octets[2..];
    assert one[1..] == two && two[1..] == octets[3..];
    assert OctetBits(one) == LowBits(octets[1] as nat, 8) + OctetBits(two);
    assert OctetBits(two) == LowBits(octets[2] as nat, 8) + OctetBits(octets[3..]);
    GroupBits(octets[0], octets[1], octets[2]);
    var x, y, z := LowBits(octets[0] as nat, 8), LowBits(octets[1] as nat, 8), LowBits(octets[2] as nat, 8);
    Reassociate(y, z, OctetBits(octets[3..]));
    Reassociate(x, y + z, OctetBits(octets[3..]));
  }

  lemma {:induction false} UnpaddedStops(text: Bytes, padding: Bytes)
    requires InAlphabet(text) && (padding == [] || padding[0] == EQUALS)
    ensures Unpadded(text + padding) == text
  {
    if text == [] {
      assert text + padding == padding;
    } else {
      UnpaddedStops(text[1..], padding);
      assert (text + padding)[0] == text[0] && (text + padding)[1..] == text[1..] + padding;
      assert text == [text[0]] + text[1..];
    }
  }

  /** Decoding undoes both encoders, with padding or without it, for every octet string. */
  lemma {:induction false} DecodeUndoesEncode(a: Alphabet, padded: bool, octets: Bytes)
    ensures Decoded64(Encoded64(a, padded, octets)) == Ok(octets)
  {
    var text := Characters(a, octets);
    CharactersSpell(a, octets);
    CharactersLength(a, octets);
    UnpaddedStops(text, if padded then Padding(octets) else []);
    NoForeignIffInAlphabet(text);
    OctetsReadBack(octets, Filler(|octets|));
  }

  /** On text of the alphabets, only a lone last character is refused. */
  lemma AlphabetTextDecodes(text: Bytes)
    requires InAlphabet(text)
    ensures Decoded64(text).Ok? <==> |text| % 4 != 1
    ensures Decoded64(text).Ok? ==> |Decoded64(text).value| == 6 * |text| / 8
  {
    UnpaddedStops(text, []);
    assert text + [] == text;
    NoForeignIffInAlphabet(text);
    OctetsOfLength(SextetBits(text));
  }

  lemma {:induction false} OctetsOfLength(bits: seq<bool>)
    ensures |OctetsOf(bits)| == |bits| / 8
  {
    if |bits| >= 8 {
      OctetsOfLength(bits[8..]);
    }
  }

  // ---------- The application key ----------

  /** "base64:" */
  const BASE64_PREFIX: Bytes := [98, 97, 115, 101, 54, 52, 58]

  /** Key bytes of a configured key: decoded after the prefix, verbatim without it. */
  function DecodedAppKey(key: Bytes): Result<Bytes, Base64Error> {
    if BASE64_PREFIX <= key then Decoded64(key[|BASE64_PREFIX|..]) else Ok(key)
  }

  /** Every key can be configured: in base64 always, verbatim unless it looks like base64. */
  lemma AppKeyRoundTrip(a: Alphabet, padded: bool, key: Bytes)
    ensures DecodedAppKey(BASE64_PREFIX + Encoded64(a, padded, key)) == Ok(key)
    ensures !(BASE64_PREFIX <= key) ==> DecodedAppKey(key) == Ok(key)
  {
    DecodeUndoesEncode(a, padded, key);
    var text := Encoded64(a, padded, key);
    assert (BASE64_PREFIX + text)[|BASE64_PREFIX|..] == text;
  }

  // ---------- The characters themselves ----------

  const CAPITALS := "ABCDEFGHIJKLMNOPQRSTUVWXYZ"
  const SMALL := "abcdefghijklmnopqrstuvwxyz"
  const FIGURES := "0123456789"

  /** The alphabets of tables 1 and 2 of RFC 4648. */
  function Table(a: Alphabet): string {
    CAPITALS + SMALL + FIGURES + if a.Standard? then "+/" else "-_"
  }

  lemma CapitalIs(v: nat)
    requires v < 26
    ensures CAPITALS[v] as int == 65 + v
  {
  }

  lemma SmallIs(v: nat)
    requires v < 26
    ensures SMALL[v] as int == 97 + v
  {
  }

  lemma FigureIs(v: nat)
    requires v < 10
    ensures FIGURES[v] as int == 48 + v
  {
  }

  lemma CharacterIs(a: Alphabet, v: nat)
    requires v < 64
    ensures |Table(a)| == 64 && Character(a, v) as int == Table(a)[v] as int
  {
    if v < 26 {
      CapitalIs(v);
    } else if v < 52 {
      SmallIs(v - 26);
    } else if v < 62 {
      FigureIs(v - 52);
    }
  }

  lemma PrefixIs()
    ensures BASE64_PREFIX == Ascii("base64:")
  {
  }

  /** Exactly the characters of the two alphabets are read, each as its place there. */
  lemma SextetIff(b: byte, v: nat)
    ensures Sextet(b) == Some(v) <==> v < 64 && exists a :: Character(a, v) == b
  {
    if Sextet(b) == Some(v) {
      assert Character(Standard, v) == b || Character(UrlSafe, v) == b;
    }
  }

  ghost predicate InSomeAlphabet(b: byte) {
    exists a, v :: 0 <= v < 64 && Character(a, v) == b
  }

  lemma SextetKnown(b: byte)
    ensures Sextet(b).Some? <==> InSomeAlphabet(b)
  {
    if Sextet(b).Some? {
      SextetIff(b, Sextet(b).value);
    }
    if a, v :| 0 <= v < 64 && Character(a, v) == b {
      CharacterReadsBack(a, v);
    }
  }

  /** The padding, or the end, is met after `n` characters. */
  ghost predicate StopsAfter(s: Bytes, n: nat) {
    n <= |s| && (forall i :: 0 <= i < n ==> s[i] != EQUALS) && (n == |s| || s[n] == EQUALS)
  }

  /** At `i`, before any padding, stands the first character of neither alphabet. */
  ghost predicate FirstStranger(s: Bytes, i: int) {
    && 0 <= i < |s| && s[i] != EQUALS && !InSomeAlphabet(s[i])
    && forall j :: 0 <= j < i ==> s[j] != EQUALS && InSomeAlphabet(s[j])
  }

  lemma {:induction false} ForeignAt(s: Bytes) returns (i: nat)
    requires FirstForeign(Unpadded(s)).Some?
    ensures FirstStranger(s, i) && FirstForeign(Unpadded(s)) == Some(s[i])
  {
    hide Sextet;
    SextetKnown(s[0]);
    assert Unpadded(s)[1..] == Unpadded(s[1..]);
    if Sextet(s[0]).None? {
      i := 0;
    } else {
      var j := ForeignAt(s[1..]);
      i := j + 1;
      forall k | 0 <= k < i ensures s[k] != EQUALS && InSomeAlphabet(s[k]) {
        if k > 0 {
          assert s[k] == s[1..][k - 1];
        }
      }
    }
  }

  lemma {:induction false} StrangerIsForeign(s: Bytes, i: nat)
    requires FirstStranger(s, i)
    ensures FirstForeign(Unpadded(s)) == Some(s[i])
  {
    hide Sextet;
    SextetKnown(s[0]);
    assert s[0] != EQUALS;
    assert Unpadded(s)[1..] == Unpadded(s[1..]);
    if i > 0 {
      forall k | 0 <= k < i - 1 ensures s[1..][k] != EQUALS && InSomeAlphabet(s[1..][k]) {
        assert s[1..][k] == s[k + 1];
      }
      StrangerIsForeign(s[1..], i - 1);
    }
  }

  lemma {:induction false} UnpaddedLength(s: Bytes)
    ensures StopsAfter(s, |Unpadded(s)|)
    ensures forall n :: StopsAfter(s, n) ==> n == |Unpadded(s)|
  {
    UnpaddedPrefix(s);
  }

  /** What is refused: the first character of neither alphabet that stands before any padding; and,
      if there is none, a text whose length before the padding is one more than a multiple of four. */
  lemma RefusedIff(s: Bytes)
    ensures forall c :: Decoded64(s) == Err(InvalidCharacter(c)) <==> exists i :: FirstStranger(s, i) && s[i] == c
    ensures Decoded64(s) == Err(TruncatedGroup) <==>
      (forall i :: !FirstStranger(s, i)) && exists n :: StopsAfter(s, n) && n % 4 == 1
  {
    hide Sextet, FirstForeign;
    UnpaddedLength(s);
    if FirstForeign(Unpadded(s)).Some? {
      var i := ForeignAt(s);
    }
    forall i | FirstStranger(s, i) ensures FirstForeign(Unpadded(s)) == Some(s[i]) {
      StrangerIsForeign(s, i);
    }
  }

  /** What is accepted: the octets are the bits of the sextets, as far as they make whole octets. */
  lemma AcceptedIs(s: Bytes)
    requires Decoded64(s).Ok?
    ensures var octets, bits := Decoded64(s).value, SextetBits(Unpadded(s));
      |octets| == |bits| / 8 && OctetBits(octets) == bits[..8 * |octets|]
  {
    OctetsOfBits(SextetBits(Unpadded(s)));
  }

  lemma {:induction false} OctetsOfBits(bits: seq<bool>)
    ensures |OctetsOf(bits)| == |bits| / 8 && OctetBits(OctetsOf(bits)) == bits[..8 * |OctetsOf(bits)|]
  {
    if |bits| >= 8 {
      var first, rest := bits[..8], bits[8..];
      var octets := OctetsOf(rest);
      OctetsOfBits(rest);
      BitsValueBound(first);
      assert Pow2(8) == 256;
      assert OctetsOf(bits) == [BitsValue(first) as byte] + octets;
      LowBitsReadBack(first);
      assert bits[..8 * (1 + |octets|)] == first + rest[..8 * |octets|];
    }
  }

  lemma {:induction false} LowBitsReadBack(bits: seq<bool>)
    ensures LowBits(BitsValue(bits), |bits|) == bits
  {
    if bits != [] {
      LowBitsReadBack(bits[..|bits| - 1]);
      assert bits == bits[..|bits| - 1] + [bits[|bits| - 1]];
    }
  }

  /** A known pair of section 10 of RFC 4648. */
  lemma FoobIs()
    ensures Encoded64(Standard, true, Ascii("foob")) == Ascii("Zm9vYg==")
  {
    var text := Ascii("foob");
    assert text == [102, 111, 111, 98] && text[3..] == [98];
    var v := GroupValue(102, 111, 111);
    assert v == 6713199;
    GroupOfFour(Standard, 25, 38, 61, 47);
    GroupOfTwo(Standard, 24, 32);
    assert Characters(Standard, [98]) == Group(Standard, [24, 32]);
    assert Characters(Standard, text) == Group(Standard, [25, 38, 61, 47]) + Characters(Standard, [98]);
  }

  lemma GroupOfTwo(a: Alphabet, v: nat, w: nat)
    requires v < 64 && w < 64
    ensures Group(a, [v, w]) == [Character(a, v), Character(a, w)]
  {
    hide Character;
    assert [v, w][..1] == [v] && [v][..0] == [];
    assert Group(a, [v]) == [Character(a, v)];
  }

  lemma GroupOfFour(a: Alphabet, v: nat, w: nat, x: nat, y: nat)
    requires v < 64 && w < 64 && x < 64 && y < 64
    ensures Group(a, [v, w, x, y]) == [Character(a, v), Character(a, w), Character(a, x), Character(a, y)]
  {
    hide Character;
    GroupOfTwo(a, v, w);
    assert [v, w, x][..2] == [v, w] && [v, w, x, y][..3] == [v, w, x];
    assert Group(a, [v, w, x]) == Group(a, [v, w]) + [Character(a, x)];
  }
}
