/**
 UTF-16 strings and their UTF-8 encoding: the text encoder and decoder the
 marshalling code is handed by its host.  Surrogate pairs follow RFC 2781 section
 2.2, byte sequences RFC 3629 sections 3 and 4.  The encoder replaces a surrogate
 that is not part of a pair by U+FFFD; the decoder is the strict one (`fatal`),
 which rejects every byte sequence that is not UTF-8.
 */
module Utf {
  import opened Sequences
  import opened Wrappers

  type CodeUnit = u: int | 0 <= u < 0x1_0000
  type Byte = b: int | 0 <= b < 0x100

  predicate IsHigh(u: int) { 0xD800 <= u < 0xDC00 }
  predicate IsLow(u: int) { 0xDC00 <= u < 0xE000 }

  type Scalar = v: int | 0 <= v < 0x11_0000 && !IsHigh(v) && !IsLow(v)

  const REPLACEMENT: Scalar := 0xFFFD

  // ---------------------------------------------------------------------------
  // UTF-16

  predicate StartsWithPair(s: seq<CodeUnit>) {
    |s| > 1 && IsHigh(s[0]) && IsLow(s[1])
  }

  /** RFC 2781 section 2.2, decoding UTF-16. */
  function PairValue(high: int, low: int): int {
    0x1_0000 + (high - 0xD800) * 0x400 + (low - 0xDC00)
  }

  /** The scalar values of a string, an unpaired surrogate read as U+FFFD. */
  function Scalars(s: seq<CodeUnit>): seq<Scalar> {
    if s == [] then []
    else if StartsWithPair(s) then
      [PairValue(s[0], s[1])] + Scalars(s[2..])
    else if IsHigh(s[0]) || IsLow(s[0]) then [REPLACEMENT] + Scalars(s[1..])
    else [s[0]] + Scalars(s[1..])
  }

  function Units(v: Scalar): (u: seq<CodeUnit>)
    ensures 1 <= |u| <= 2
  {
    if v < 0x1_0000 then [v]
    else [0xD800 + (v - 0x1_0000) / 0x400, 0xDC00 + (v - 0x1_0000) % 0x400]
  }

  function ToUtf16(vs: seq<Scalar>): seq<CodeUnit> {
    if vs == [] then [] else Units(vs[0]) + ToUtf16(vs[1..])
  }

  /** Position `i` holds a surrogate whose partner is missing. */
  predicate Unpaired(s: seq<CodeUnit>, i: nat)
    requires i < |s|
  {
    || (IsHigh(s[i]) && !(i + 1 < |s| && IsLow(s[i + 1])))
    || (IsLow(s[i]) && !(i > 0 && IsHigh(s[i - 1])))
  }

  /** The string with each unpaired surrogate, and nothing else, replaced by U+FFFD. */
  function Sanitized(s: seq<CodeUnit>): (t: seq<CodeUnit>)
    ensures |t| == |s|
  {
    seq(|s|, i requires 0 <= i < |s| => if Unpaired(s, i) then REPLACEMENT else s[i])
  }

  ghost predicate WellFormed(s: seq<CodeUnit>) {
    forall i :: 0 <= i < |s| ==> !Unpaired(s, i)
  }

  lemma SanitizedIsIdentityIffWellFormed(s: seq<CodeUnit>)
    ensures Sanitized(s) == s <==> WellFormed(s)
  {
    if Sanitized(s) == s {
      forall i | 0 <= i < |s|
        ensures !Unpaired(s, i)
      {
        assert Sanitized(s)[i] == s[i];
      }
    }
  }

  lemma SanitizedIsWellFormed(s: seq<CodeUnit>)
    ensures WellFormed(Sanitized(s))
  {
    var t := Sanitized(s);
    forall i | 0 <= i < |t|
      ensures !Unpaired(t, i)
    {
      if IsHigh(t[i]) { assert t[i + 1] == s[i + 1]; }
      if IsLow(t[i]) { assert t[i - 1] == s[i - 1]; }
    }
  }

  lemma SanitizedFirst(s: seq<CodeUnit>)
    requires s != []
    ensures StartsWithPair(s) ==> Sanitized(s) == s[..2] + Sanitized(s[2..])
    ensures !StartsWithPair(s) ==>
      Sanitized(s) == [if IsHigh(s[0]) || IsLow(s[0]) then REPLACEMENT else s[0]] + Sanitized(s[1..])
  {
    if StartsWithPair(s) {
      forall i | 2 <= i < |s|
        ensures Sanitized(s)[i] == Sanitized(s[2..])[i - 2]
      {
        assert s[2..][i - 2] == s[i];
      }
    } else {
      forall i | 1 <= i < |s|
        ensures Sanitized(s)[i] == Sanitized(s[1..])[i - 1]
      {
        assert s[1..][i - 1] == s[i];
      }
    }
  }

  /** Reading the scalar values back as UTF-16 changes only unpaired surrogates. */
  lemma {:induction false} ScalarsToUtf16(s: seq<CodeUnit>)
    ensures ToUtf16(Scalars(s)) == Sanitized(s)
  {
    if s != [] {
      SanitizedFirst(s);
      if StartsWithPair(s) {
        ScalarsToUtf16(s[2..]);
        var v: Scalar := PairValue(s[0], s[1]);
        assert Units(v) == s[..2];
        assert Scalars(s) == [v] + Scalars(s[2..]);
      } else {
        ScalarsToUtf16(s[1..]);
        var v: Scalar := if IsHigh(s[0]) || IsLow(s[0]) then REPLACEMENT else s[0];
        assert Scalars(s) == [v] + Scalars(s[1..]);
      }
    }
  }

  // ---------------------------------------------------------------------------
  // UTF-8 encoding

  function EncodeScalar(v: Scalar): (b: seq<Byte>)
    ensures 1 <= |b| <= 4
  {
    if v < 0x80 then [v]
    else if v < 0x800 then [0xC0 + v / 0x40, 0x80 + v % 0x40]
    else if v < 0x1_0000 then [0xE0 + v / 0x1000, 0x80 + v / 0x40 % 0x40, 0x80 + v % 0x40]
    else [0xF0 + v / 0x4_0000, 0x80 + v / 0x1000 % 0x40, 0x80 + v / 0x40 % 0x40, 0x80 + v % 0x40]
  }

  function EncodeScalars(vs: seq<Scalar>): seq<Byte> {
    if vs == [] then [] else EncodeScalar(vs[0]) + EncodeScalars(vs[1..])
  }

  /** The bytes `TextEncoder.encode` returns. */
  function Encode(s: seq<CodeUnit>): seq<Byte> {
    EncodeScalars(Scalars(s))
  }

  predicate IsAscii(s: seq<CodeUnit>) {
    forall i :: 0 <= i < |s| ==> s[i] <= 0x7F
  }

  lemma EncodeFirst(s: seq<CodeUnit>)
    requires s != []
    ensures StartsWithPair(s) ==>
      exists v: Scalar :: |EncodeScalar(v)| == 4 && Encode(s) == EncodeScalar(v) + Encode(s[2..])
    ensures !StartsWithPair(s) ==>
      exists v: Scalar :: |EncodeScalar(v)| <= 3 && Encode(s) == EncodeScalar(v) + Encode(s[1..])
  {
    var v, rest := Scalars(s)[0], Scalars(s)[1..];
    assert rest == Scalars(if StartsWithPair(s) then s[2..] else s[1..]);
    assert Encode(s) == EncodeScalar(v) + EncodeScalars(rest);
  }

  /** A string of k code units takes between k and 3k bytes. */
  lemma {:induction false} EncodedLength(s: seq<CodeUnit>)
    ensures |s| <= |Encode(s)| <= 3 * |s|
  {
    if s != [] {
      EncodeFirst(s);
      EncodedLength(if StartsWithPair(s) then s[2..] else s[1..]);
    }
  }

  /** An ASCII prefix is its own encoding, and what follows is encoded independently of it. */
  lemma {:induction false} AsciiPrefix(s: seq<CodeUnit>, k: nat)
    requires k <= |s| && IsAscii(s[..k])
    ensures Encode(s) == s[..k] + Encode(s[k..])
  {
    if k == 0 {
      assert s[0..] == s;
    } else {
      assert s[..k][0] == s[0] && !StartsWithPair(s);
      assert s[1..][..k - 1] == s[..k][1..] && s[1..][k - 1..] == s[k..];
      AsciiPrefix(s[1..], k - 1);
      assert Scalars(s) == [s[0]] + Scalars(s[1..]);
      assert Encode(s) == [s[0]] + Encode(s[1..]);
      assert s[..k] == [s[0]] + s[..k][1..];
    }
  }

  // ---------------------------------------------------------------------------
  // UTF-8 decoding

  predicate IsTail(b: int) { 0x80 <= b <= 0xBF }

  function Value2(b0: int, b1: int): int { (b0 - 0xC0) * 0x40 + (b1 - 0x80) }
  function Value3(b0: int, b1: int, b2: int): int { (b0 - 0xE0) * 0x1000 + (b1 - 0x80) * 0x40 + (b2 - 0x80) }
  function Value4(b0: int, b1: int, b2: int, b3: int): int {
    (b0 - 0xF0) * 0x4_0000 + (b1 - 0x80) * 0x1000 + (b2 - 0x80) * 0x40 + (b3 - 0x80)
  }

  /** The first scalar value of a byte sequence and the number of bytes it takes, by the
      table of RFC 3629 section 4. */
  function DecodeFirst(b: seq<Byte>): (r: Option<(Scalar, nat)>)
    requires b != []
    ensures r.Some? ==> 1 <= r.value.1 <= |b|
  {
    if b[0] <= 0x7F then Some((b[0], 1))
    else if 0xC2 <= b[0] <= 0xDF && |b| > 1 && IsTail(b[1]) then
      Some((Value2(b[0], b[1]), 2))
    else if 0xE0 <= b[0] <= 0xEF && |b| > 2
            && (if b[0] == 0xE0 then 0xA0 else 0x80) <= b[1] <= (if b[0] == 0xED then 0x9F else 0xBF)
            && IsTail(b[2]) then
      Some((Value3(b[0], b[1], b[2]), 3))
    else if 0xF0 <= b[0] <= 0xF4 && |b| > 3
            && (if b[0] == 0xF0 then 0x90 else 0x80) <= b[1] <= (if b[0] == 0xF4 then 0x8F else 0xBF)
            && IsTail(b[2]) && IsTail(b[3]) then
      Some((Value4(b[0], b[1], b[2], b[3]), 4))
    else None
  }

  /** All scalar values, or None where the strict decoder throws. */
  function DecodeScalars(b: seq<Byte>): Option<seq<Scalar>> {
    if b == [] then Some([])
    else
      match DecodeFirst(b)
      case None => None
      case Some((v, n)) =>
        match DecodeScalars(b[n..])
        case None => None
        case Some(vs) => Some([v] + vs)
  }

  /** The string `TextDecoder.decode` returns, or None where it throws. */
  function Decode(b: seq<Byte>): Option<seq<CodeUnit>> {
    match DecodeScalars(b)
    case None => None
    case Some(vs) => Some(ToUtf16(vs))
  }

  /** Taking off base-64 digits one at a time. */
  lemma Cascade(v: nat)
    ensures v / 0x1000 == v / 0x40 / 0x40 && v / 0x4_0000 == v / 0x1000 / 0x40
  {
  }

  lemma LastDigit(u: nat, x: nat)
    requires x < 0x40
    ensures (u * 0x40 + x) / 0x40 == u && (u * 0x40 + x) % 0x40 == x
  {
  }

  lemma DigitsOf3(z: nat, y: nat, x: nat)
    requires y < 0x40 && x < 0x40
    ensures var v := z * 0x1000 + y * 0x40 + x;
      v / 0x1000 == z && v / 0x40 % 0x40 == y && v % 0x40 == x
  {
    var u := z * 0x40 + y;
    LastDigit(u, x);
    LastDigit(z, y);
    Cascade(u * 0x40 + x);
  }

  lemma DigitsOf4(w: nat, z: nat, y: nat, x: nat)
    requires z < 0x40 && y < 0x40 && x < 0x40
    ensures var v := w * 0x4_0000 + z * 0x1000 + y * 0x40 + x;
      v / 0x4_0000 == w && v / 0x1000 % 0x40 == z && v / 0x40 % 0x40 == y && v % 0x40 == x
  {
    var u := w * 0x40 + z;
    DigitsOf3(u, y, x);
    LastDigit(w, z);
    Cascade(u * 0x1000 + y * 0x40 + x);
  }

  lemma Encoded3(v: Scalar)
    requires 0x800 <= v < 0x1_0000
    ensures var b0, b1, b2 := 0xE0 + v / 0x1000, 0x80 + v / 0x40 % 0x40, 0x80 + v % 0x40;
      && 0xE0 <= b0 <= 0xEF && Value3(b0, b1, b2) == v
      && (if b0 == 0xE0 then 0xA0 else 0x80) <= b1 <= (if b0 == 0xED then 0x9F else 0xBF)
  {
    Cascade(v);
    assert !IsHigh(v) && !IsLow(v);
  }

  lemma Encoded4(v: Scalar)
    requires 0x1_0000 <= v
    ensures var b0, b1 := 0xF0 + v / 0x4_0000, 0x80 + v / 0x1000 % 0x40;
      var b2, b3 := 0x80 + v / 0x40 % 0x40, 0x80 + v % 0x40;
      && 0xF0 <= b0 <= 0xF4 && Value4(b0, b1, b2, b3) == v
      && (if b0 == 0xF0 then 0x90 else 0x80) <= b1 <= (if b0 == 0xF4 then 0x8F else 0xBF)
  {
    Cascade(v);
  }

  lemma DecodeFirstOfEncoded(v: Scalar, rest: seq<Byte>)
    ensures DecodeFirst(EncodeScalar(v) + rest) == Some((v, |EncodeScalar(v)|))
  {
    if 0x1_0000 <= v {
      Encoded4(v);
    } else if 0x800 <= v {
      Encoded3(v);
    }
  }

  lemma Decoded2(v: Scalar, b0: nat, b1: nat)
    requires 0xC2 <= b0 <= 0xDF && IsTail(b1) && v == Value2(b0, b1)
    ensures EncodeScalar(v) == [b0, b1]
  {
    LastDigit(b0 - 0xC0, b1 - 0x80);
  }

  lemma Decoded3(v: Scalar, b0: nat, b1: nat, b2: nat)
    requires 0xE0 <= b0 <= 0xEF && IsTail(b1) && IsTail(b2) && v == Value3(b0, b1, b2)
    requires b0 == 0xE0 ==> 0xA0 <= b1
    ensures EncodeScalar(v) == [b0, b1, b2]
  {
    DigitsOf3(b0 - 0xE0, b1 - 0x80, b2 - 0x80);
  }

  lemma Decoded4(v: Scalar, b0: nat, b1: nat, b2: nat, b3: nat)
    requires 0xF0 <= b0 && IsTail(b1) && IsTail(b2) && IsTail(b3) && v == Value4(b0, b1, b2, b3)
    requires b0 == 0xF0 ==> 0x90 <= b1
    ensures EncodeScalar(v) == [b0, b1, b2, b3]
  {
    DigitsOf4(b0 - 0xF0, b1 - 0x80, b2 - 0x80, b3 - 0x80);
  }

  lemma EncodedFirstOfDecoded(b: seq<Byte>)
    requires b != [] && DecodeFirst(b).Some?
    ensures var (v, n) := DecodeFirst(b).value; EncodeScalar(v) == b[..n]
  {
    var v, n := DecodeFirst(b).value.0, DecodeFirst(b).value.1;
    if n == 2 {
      Decoded2(v, b[0], b[1]);
    } else if n == 3 {
      Decoded3(v, b[0], b[1], b[2]);
    } else if n == 4 {
      Decoded4(v, b[0], b[1], b[2], b[3]);
    }
  }

  lemma {:induction false} DecodeOfEncode(vs: seq<Scalar>)
    ensures DecodeScalars(EncodeScalars(vs)) == Some(vs)
  {
    if vs != [] {
      var e, rest := EncodeScalar(vs[0]), EncodeScalars(vs[1..]);
      DecodeOfEncode(vs[1..]);
      DecodeFirstOfEncoded(vs[0], rest);
      assert (e + rest)[|e|..] == rest;
      assert vs == [vs[0]] + vs[1..];
    }
  }

  lemma EncodeScalarsFirst(v: Scalar, vs: seq<Scalar>)
    ensures EncodeScalars([v] + vs) == EncodeScalar(v) + EncodeScalars(vs)
  {
  }

  lemma DecodeStep(b: seq<Byte>) returns (v: Scalar, n: nat, vs: seq<Scalar>)
    requires b != [] && DecodeScalars(b).Some?
    ensures 1 <= n <= |b| && EncodeScalar(v) == b[..n]
    ensures DecodeScalars(b[n..]) == Some(vs) && DecodeScalars(b) == Some([v] + vs)
  {
    v, n := DecodeFirst(b).value.0, DecodeFirst(b).value.1;
    vs := DecodeScalars(b[n..]).value;
    EncodedFirstOfDecoded(b);
  }

  /** The strict decoder accepts nothing but what an encoder produces. */
  lemma {:induction false} EncodeOfDecode(b: seq<Byte>)
    requires DecodeScalars(b).Some?
    ensures EncodeScalars(DecodeScalars(b).value) == b
  {
    if b != [] {
      var v, n, vs := DecodeStep(b);
      EncodeOfDecode(b[n..]);
      EncodeScalarsFirst(v, vs);
      assert b == b[..n] + b[n..];
    }
  }

  lemma {:induction false} Utf16ToScalars(vs: seq<Scalar>)
    ensures Scalars(ToUtf16(vs)) == vs
  {
    if vs != [] {
      var v, rest := vs[0], ToUtf16(vs[1..]);
      Utf16ToScalars(vs[1..]);
      var s := Units(v) + rest;
      assert !IsHigh(v) && !IsLow(v);
      if v < 0x1_0000 {
        assert !StartsWithPair(s) && s[1..] == rest;
      } else {
        assert StartsWithPair(s) && s[2..] == rest && PairValue(s[0], s[1]) == v;
      }
      assert vs == [v] + vs[1..];
    }
  }

  /** What the decoder accepts it reads as a well-formed string that encodes to the same bytes;
      so it accepts exactly the encodings. */
  lemma EncodeDecode(b: seq<Byte>)
    ensures Decode(b).Some? ==> Encode(Decode(b).value) == b && WellFormed(Decode(b).value)
    ensures Decode(b).Some? <==> exists s :: Encode(s) == b
  {
    if Decode(b).Some? {
      var s := Decode(b).value;
      EncodeOfDecode(b);
      Utf16ToScalars(DecodeScalars(b).value);
      RoundTripIffWellFormed(s);
    }
    forall s | Encode(s) == b
      ensures Decode(b).Some?
    {
      DecodeEncode(s);
    }
  }

  /** Bytes that were encoded decode to the string with its unpaired surrogates replaced. */
  lemma DecodeEncode(s: seq<CodeUnit>)
    ensures Decode(Encode(s)) == Some(Sanitized(s))
  {
    DecodeOfEncode(Scalars(s));
    ScalarsToUtf16(s);
  }

  /** Encoding and decoding return a string unchanged exactly when it has no unpaired surrogate. */
  lemma RoundTripIffWellFormed(s: seq<CodeUnit>)
    ensures Decode(Encode(s)) == Some(s) <==> WellFormed(s)
  {
    DecodeEncode(s);
    SanitizedIsIdentityIffWellFormed(s);
  }

  /** A string that is lost: a high surrogate alone. */
  lemma LoneSurrogateIsLost()
    ensures Decode(Encode([0xD800])) == Some([0xFFFD])
    ensures !WellFormed([0xD800])
  {
    var s: seq<CodeUnit> := [0xD800];
    DecodeEncode(s);
    assert Unpaired(s, 0);
    assert Sanitized(s) == [0xFFFD];
  }

  // ---------------------------------------------------------------------------
  // The tables of the standards, in their own numbers

  /** RFC 2781 sections 2.1 and 2.2. */
  lemma Utf16Table(v: Scalar)
    ensures v < 0x1_0000 ==> Units(v) == [v]
    ensures v >= 0x1_0000 ==>
      |Units(v)| == 2 &&
      var h: int, l: int := Units(v)[0], Units(v)[1];
      && 0xD800 <= h < 0xDC00 && 0xDC00 <= l < 0xE000
      && 0x1_0000 + (h - 0xD800) * 0x400 + (l - 0xDC00) == v
  {
  }

  /** RFC 3629 section 3: the number of bytes by the range of the value, the leading bits of each
      byte, and the value's own bits in the rest. */
  lemma Utf8Table(v: Scalar)
    ensures v < 0x80 ==> EncodeScalar(v) == [v]
    ensures 0x80 <= v < 0x800 ==>
      |EncodeScalar(v)| == 2 &&
      var b0: int, b1: int := EncodeScalar(v)[0], EncodeScalar(v)[1];
      && 0xC0 <= b0 < 0xE0 && 0x80 <= b1 < 0xC0
      && (b0 - 0xC0) * 0x40 + (b1 - 0x80) == v
    ensures 0x800 <= v < 0x1_0000 ==>
      |EncodeScalar(v)| == 3 &&
      var b0: int, b1: int, b2: int := EncodeScalar(v)[0], EncodeScalar(v)[1], EncodeScalar(v)[2];
      && 0xE0 <= b0 < 0xF0 && 0x80 <= b1 < 0xC0 && 0x80 <= b2 < 0xC0
      && (b0 - 0xE0) * 0x1000 + (b1 - 0x80) * 0x40 + (b2 - 0x80) == v
    ensures 0x1_0000 <= v ==>
      |EncodeScalar(v)| == 4 &&
      var b0: int, b1: int := EncodeScalar(v)[0], EncodeScalar(v)[1];
      var b2: int, b3: int := EncodeScalar(v)[2], EncodeScalar(v)[3];
      && 0xF0 <= b0 < 0xF5 && 0x80 <= b1 < 0xC0 && 0x80 <= b2 < 0xC0 && 0x80 <= b3 < 0xC0
      && (b0 - 0xF0) * 0x4_0000 + (b1 - 0x80) * 0x1000 + (b2 - 0x80) * 0x40 + (b3 - 0x80) == v
  {
    if 0x1_0000 <= v {
      Encoded4(v);
    } else if 0x800 <= v {
      Encoded3(v);
    }
  }

  /** A code unit by itself is its own scalar value, or U+FFFD if it is a surrogate. */
  lemma ScalarOfUnit(u: CodeUnit)
    ensures Scalars([u]) == [if 0xD800 <= u < 0xE000 then 0xFFFD else u]
  {
    assert [u][1..] == [];
  }

  lemma ScalarOfPair(h: CodeUnit, l: CodeUnit)
    requires 0xD800 <= h < 0xDC00 && 0xDC00 <= l < 0xE000
    ensures Scalars([h, l]) == [0x1_0000 + (h - 0xD800) * 0x400 + (l - 0xDC00)]
  {
    assert [h, l][2..] == [];
  }

  /** A string is read from left to right: wherever it is cut, save inside a surrogate pair, its scalar
      values and its encoding are those of the parts, one after the other. */
  lemma {:induction false} ReadInOrder(a: seq<CodeUnit>, b: seq<CodeUnit>)
    requires a == [] || b == [] || !(0xD800 <= a[|a| - 1] < 0xDC00 && 0xDC00 <= b[0] < 0xE000)
    ensures Scalars(a + b) == Scalars(a) + Scalars(b)
    ensures Encode(a + b) == Encode(a) + Encode(b)
  {
    ScalarsInOrder(a, b);
    EncodeScalarsAppend(Scalars(a), Scalars(b));
  }

  lemma {:induction false} ScalarsInOrder(a: seq<CodeUnit>, b: seq<CodeUnit>)
    requires a == [] || b == [] || !(IsHigh(a[|a| - 1]) && IsLow(b[0]))
    ensures Scalars(a + b) == Scalars(a) + Scalars(b)
    decreases |a|
  {
    if a == [] {
      assert a + b == b;
    } else if StartsWithPair(a) {
      assert (a + b)[2..] == a[2..] + b;
      ScalarsInOrder(a[2..], b);
      Assoc([PairValue(a[0], a[1])], Scalars(a[2..]), Scalars(b));
    } else {
      assert (a + b)[1..] == a[1..] + b;
      ScalarsInOrder(a[1..], b);
      Assoc([Scalars(a)[0]], Scalars(a[1..]), Scalars(b));
    }
  }

  lemma {:induction false} EncodeScalarsAppend(vs: seq<Scalar>, ws: seq<Scalar>)
    ensures EncodeScalars(vs + ws) == EncodeScalars(vs) + EncodeScalars(ws)
  {
    if vs == [] {
      assert vs + ws == ws;
    } else {
      EncodeScalarsAppend(vs[1..], ws);
      assert (vs + ws)[1..] == vs[1..] + ws;
      Assoc(EncodeScalar(vs[0]), EncodeScalars(vs[1..]), EncodeScalars(ws));
    }
  }

  /** One character of each length. */
  lemma Utf8Examples()
    ensures Encode([0x41]) == [0x41]
    ensures Encode([0xE9]) == [0xC3, 0xA9]
    ensures Encode([0x20AC]) == [0xE2, 0x82, 0xAC]
    ensures Encode([0xD83D, 0xDE00]) == [0xF0, 0x9F, 0x98, 0x80]
  {
    ScalarOfUnit(0x41);
    ScalarOfUnit(0xE9);
    ScalarOfUnit(0x20AC);
    EncodeOne([0x41], 0x41);
    EncodeOne([0xE9], 0xE9);
    EncodeOne([0x20AC], 0x20AC);
    ScalarOfPair(0xD83D, 0xDE00);
    EncodeOne([0xD83D, 0xDE00], 0x1_F600);
  }

  lemma EncodeOne(s: seq<CodeUnit>, v: Scalar)
    requires Scalars(s) == [v]
    ensures Encode(s) == EncodeScalar(v)
  {
    assert [v][1..] == [] && EncodeScalars([]) == [];
    assert EncodeScalar(v) + [] == EncodeScalar(v);
  }

  // ---------------------------------------------------------------------------
  // Encoding into a buffer of limited size

  /** `TextEncoder.encodeInto`: how many code units it reads and which bytes it writes when
      there is room for `room` bytes.  It stops before the first scalar value that does not fit. */
  function EncodeInto(s: seq<CodeUnit>, room: nat): (r: (nat, seq<Byte>))
    ensures |r.1| <= room
  {
    if s == [] then (0, [])
    else
      var n := if StartsWithPair(s) then 2 else 1;
      var e := EncodeScalar(Scalars(s)[0]);
      if |e| > room then (0, [])
      else
        var (read, bytes) := EncodeInto(s[n..], room - |e|);
        (n + read, e + bytes)
  }

  /** Nothing is cut off exactly when the whole encoding fits. */
  lemma {:induction false} EncodeIntoIsCompleteIffFits(s: seq<CodeUnit>, room: nat)
    ensures |Encode(s)| <= room ==> EncodeInto(s, room) == (|s|, Encode(s))
    ensures |Encode(s)| > room ==> EncodeInto(s, room).0 < |s|
  {
    if s != [] {
      var n := if StartsWithPair(s) then 2 else 1;
      var e := EncodeScalar(Scalars(s)[0]);
      assert Scalars(s)[1..] == Scalars(s[n..]);
      assert Encode(s) == e + Encode(s[n..]);
      if |e| <= room {
        EncodeIntoIsCompleteIffFits(s[n..], room - |e|);
      }
    }
  }

  /** The first `read` code units are encoded in `bytes`, and the next character does not fit. */
  ghost predicate LongestPrefix(s: seq<CodeUnit>, room: nat, read: nat, bytes: seq<Byte>) {
    && read <= |s| && bytes == Encode(s[..read])
    && (read < |s| ==> |bytes| + |EncodeScalar(Scalars(s[read..])[0])| > room)
  }

  lemma {:induction false} EncodeIntoIsLongestPrefix(s: seq<CodeUnit>, room: nat)
    ensures LongestPrefix(s, room, EncodeInto(s, room).0, EncodeInto(s, room).1)
  {
    if s == [] || |EncodeScalar(Scalars(s)[0])| > room {
      NothingFits(s, room);
    } else {
      var n, e := if StartsWithPair(s) then 2 else 1, EncodeScalar(Scalars(s)[0]);
      EncodeIntoIsLongestPrefix(s[n..], room - |e|);
      var (read, bytes) := EncodeInto(s[n..], room - |e|);
      PrefixGrows(s, n, room, read, bytes);
      assert EncodeInto(s, room) == (n + read, e + bytes);
    }
  }

  lemma NothingFits(s: seq<CodeUnit>, room: nat)
    requires s != [] ==> |EncodeScalar(Scalars(s)[0])| > room
    ensures LongestPrefix(s, room, 0, [])
  {
    assert s[..0] == [] && s[0..] == s;
  }

  lemma PrefixGrows(s: seq<CodeUnit>, n: nat, room: nat, read: nat, bytes: seq<Byte>)
    requires s != [] && n == (if StartsWithPair(s) then 2 else 1)
    requires var e := EncodeScalar(Scalars(s)[0]); |e| <= room && LongestPrefix(s[n..], room - |e|, read, bytes)
    ensures LongestPrefix(s, room, n + read, EncodeScalar(Scalars(s)[0]) + bytes)
  {
    assert s[..n + read] == s[..n] + s[n..][..read] && s[n..][read..] == s[n + read..];
    EncodeFrom(s, n, s[n..][..read]);
  }

  /** The first character, and whatever follows it in place of the rest. */
  lemma EncodeFrom(s: seq<CodeUnit>, n: nat, more: seq<CodeUnit>)
    requires s != [] && n == (if StartsWithPair(s) then 2 else 1) && more <= s[n..]
    ensures Encode(s[..n] + more) == EncodeScalar(Scalars(s)[0]) + Encode(more)
  {
    ScalarsFrom(s, n, more);
    EncodeScalarsFirst(Scalars(s)[0], Scalars(more));
  }

  lemma ScalarsFrom(s: seq<CodeUnit>, n: nat, more: seq<CodeUnit>)
    requires s != [] && n == (if StartsWithPair(s) then 2 else 1) && more <= s[n..]
    ensures Scalars(s[..n] + more) == [Scalars(s)[0]] + Scalars(more)
  {
    var t := s[..n] + more;
    assert t[n..] == more && t[0] == s[0];
    if more != [] { assert t[n] == more[0] == s[n..][0]; }
    assert StartsWithPair(t) == StartsWithPair(s);
  }
}
