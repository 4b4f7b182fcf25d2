/** The UTF-8 bytes of an ECMAScript string, as hashing and byte counting see them. */
module Utf8 {
  import opened Strings

  predicate IsHigh(u: Unit) { 0xD800 <= u < 0xDC00 }

  predicate IsLow(u: Unit) { 0xDC00 <= u < 0xE000 }

  /** The two units of a character beyond U+FFFF. */
  predicate IsPair(t: Text) {
    |t| > 1 && IsHigh(t[0]) && IsLow(t[1])
  }

  function CodePoint(high: Unit, low: Unit): (c: int)
    requires IsHigh(high) && IsLow(low)
    ensures 0x1_0000 <= c < 0x11_0000
  {
    0x1_0000 + (high - 0xD800) * 1024 + (low - 0xDC00)
  }

  function Four(c: int): (b: Bytes)
    requires 0x1_0000 <= c < 0x11_0000
    ensures |b| == 4
  {
    [0xF0 + c / 0x4_0000, 0x80 + c / 4096 % 64, 0x80 + c / 64 % 64, 0x80 + c % 64]
  }

  /** One unit on its own; a lone surrogate becomes U+FFFD. */
  function One(u: Unit): (b: Bytes)
    ensures b != []
  {
    if u < 0x80 then [u]
    else if u < 0x800 then [0xC0 + u / 64, 0x80 + u % 64]
    else if IsHigh(u) || IsLow(u) then [0xEF, 0xBF, 0xBD]
    else [0xE0 + u / 4096, 0x80 + u / 64 % 64, 0x80 + u % 64]
  }

  /** `Buffer.from(t)`; its length is `Buffer.byteLength(t)`. */
  function Encode(t: Text): Bytes {
    if t == [] then []
    else if IsPair(t) then Four(CodePoint(t[0], t[1])) + Encode(t[2..])
    else One(t[0]) + Encode(t[1..])
  }

  /** Reading the bytes back. The result is meaningful for the encoding of a well-formed text. */
  function Decode(b: Bytes): Text {
    if b == [] then []
    else if b[0] < 0x80 then [b[0]] + Decode(b[1..])
    else if b[0] < 0xE0 && |b| >= 2 then [Low16((b[0] as int - 0xC0) * 64 + (b[1] as int - 0x80))] + Decode(b[2..])
    else if b[0] < 0xF0 && |b| >= 3 then
      [Low16((b[0] as int - 0xE0) * 4096 + (b[1] as int - 0x80) * 64 + (b[2] as int - 0x80))] + Decode(b[3..])
    else if |b| >= 4 then
      var c := (b[0] as int - 0xF0) * 0x4_0000 + (b[1] as int - 0x80) * 4096 + (b[2] as int - 0x80) * 64 +
               (b[3] as int - 0x80) - 0x1_0000;
      [Low16(0xD800 + c / 1024), Low16(0xDC00 + c % 1024)] + Decode(b[4..])
    else []
  }

  function Low16(n: int): Unit {
    n % 0x1_0000
  }

  /** No surrogate stands alone. */
  predicate WellFormed(t: Text) {
    t == [] || (if IsPair(t) then WellFormed(t[2..]) else !IsHigh(t[0]) && !IsLow(t[0]) && WellFormed(t[1..]))
  }

  lemma DecodeTwo(u: Unit, rest: Bytes)
    requires 0x80 <= u < 0x800
    ensures Decode([0xC0 + u / 64, 0x80 + u % 64] + rest) == [u] + Decode(rest)
  {
    var b: Bytes := [0xC0 + u / 64, 0x80 + u % 64] + rest;
    assert b[2..] == rest;
    assert u == u / 64 * 64 + u % 64;
  }

  lemma DecodeThree(u: Unit, rest: Bytes)
    requires 0x800 <= u
    ensures Decode([0xE0 + u / 4096, 0x80 + u / 64 % 64, 0x80 + u % 64] + rest) == [u] + Decode(rest)
  {
    var b: Bytes := [0xE0 + u / 4096, 0x80 + u / 64 % 64, 0x80 + u % 64] + rest;
    assert b[3..] == rest;
    assert u / 64 == u / 4096 * 64 + u / 64 % 64;
    assert u == u / 4096 * 4096 + u / 64 % 64 * 64 + u % 64;
  }

  lemma DecodeOne(u: Unit, rest: Bytes)
    requires !IsHigh(u) && !IsLow(u)
    ensures Decode(One(u) + rest) == [u] + Decode(rest)
  {
    if u < 0x80 {
      assert ([u as int] + rest)[1..] == rest;
    } else {
      hide Decode;
      if u < 0x800 {
        DecodeTwo(u, rest);
      } else {
        DecodeThree(u, rest);
      }
    }
  }

  lemma DecodeFour(high: Unit, low: Unit, rest: Bytes)
    requires IsHigh(high) && IsLow(low)
    ensures Decode(Four(CodePoint(high, low)) + rest) == [high, low] + Decode(rest)
  {
    hide Decode, Four;
    var c := CodePoint(high, low);
    FourDecoded(c, rest);
    assert c - 0x1_0000 == (high - 0xD800) * 1024 + (low - 0xDC00);
    assert (c - 0x1_0000) / 1024 == high - 0xD800 && (c - 0x1_0000) % 1024 == low - 0xDC00;
  }

  lemma FourDecoded(c: int, rest: Bytes)
    requires 0x1_0000 <= c < 0x11_0000
    ensures Decode(Four(c) + rest) ==
            [Low16(0xD800 + (c - 0x1_0000) / 1024), Low16(0xDC00 + (c - 0x1_0000) % 1024)] + Decode(rest)
  {
    FourParts(c);
    var b := Four(c) + rest;
    assert b[4..] == rest;
    assert b[0] == 0xF0 + c / 0x4_0000 && b[1] == 0x80 + c / 4096 % 64;
    assert b[2] == 0x80 + c / 64 % 64 && b[3] == 0x80 + c % 64;
    hide Low16;
    DecodeLong(b);
  }

  lemma DecodeLong(b: Bytes)
    requires |b| >= 4 && b[0] >= 0xF0
    ensures var c := (b[0] as int - 0xF0) * 0x4_0000 + (b[1] as int - 0x80) * 4096 + (b[2] as int - 0x80) * 64 +
                     (b[3] as int - 0x80) - 0x1_0000;
            Decode(b) == [Low16(0xD800 + c / 1024), Low16(0xDC00 + c % 1024)] + Decode(b[4..])
  {
    hide Low16;
  }

  lemma FourParts(c: int)
    requires 0x1_0000 <= c < 0x11_0000
    ensures c / 0x4_0000 * 0x4_0000 + c / 4096 % 64 * 4096 + c / 64 % 64 * 64 + c % 64 == c
  {
    assert c / 64 / 64 == c / 4096 && c / 4096 / 64 == c / 0x4_0000;
  }

  lemma {:induction false} DecodeEncode(t: Text)
    requires WellFormed(t)
    ensures Decode(Encode(t)) == t
  {
    hide Decode, One, Four;
    if t == [] {
      DecodeNothing();
    } else if IsPair(t) {
      DecodeEncode(t[2..]);
      DecodeFour(t[0], t[1], Encode(t[2..]));
      assert t == [t[0], t[1]] + t[2..];
    } else {
      DecodeEncode(t[1..]);
      DecodeOne(t[0], Encode(t[1..]));
      assert t == [t[0]] + t[1..];
    }
  }

  lemma DecodeNothing()
    ensures Decode([]) == []
  {
  }

  /** Different well-formed texts have different bytes. */
  lemma EncodeInjective(a: Text, b: Text)
    requires WellFormed(a) && WellFormed(b)
    ensures Encode(a) == Encode(b) <==> a == b
  {
    DecodeEncode(a);
    DecodeEncode(b);
  }

  /** Without well-formedness this fails: two lone surrogates look alike as bytes. */
  lemma LoneSurrogatesCollide(a: Unit, b: Unit)
    requires (IsHigh(a) || IsLow(a)) && (IsHigh(b) || IsLow(b))
    ensures Encode([a]) == Encode([b])
  {
    assert Encode([a][1..]) == [] && Encode([b][1..]) == [];
  }

  lemma {:induction false} WellFormedAppend(a: Text, b: Text)
    requires WellFormed(a) && WellFormed(b)
    ensures WellFormed(a + b)
  {
    if a == [] {
      assert a + b == b;
    } else if IsPair(a) {
      WellFormedAppend(a[2..], b);
      assert (a + b)[2..] == a[2..] + b;
    } else {
      WellFormedAppend(a[1..], b);
      assert (a + b)[1..] == a[1..] + b;
    }
  }

  lemma {:induction false} PlainWellFormed(t: Text)
    requires forall i :: 0 <= i < |t| ==> !IsHigh(t[i]) && !IsLow(t[i])
    ensures WellFormed(t)
  {
    if t != [] {
      PlainWellFormed(t[1..]);
    }
  }

  /** ASCII text is its own encoding. */
  lemma {:induction false} EncodeAscii(t: Text)
    requires forall i :: 0 <= i < |t| ==> t[i] < 0x80
    ensures |Encode(t)| == |t| && forall i :: 0 <= i < |t| ==> Encode(t)[i] == t[i]
  {
    if t != [] {
      EncodeAscii(t[1..]);
    }
  }

  // ------------------------------------------------- the bytes of one character

  /** Section 3 of RFC 3629: a leading byte and continuation bytes that carry the number in six-bit steps. */
  predicate TwoBytes(b: Bytes, c: int) {
    |b| == 2 && 0xC0 <= b[0] <= 0xDF && 0x80 <= b[1] <= 0xBF && c == (b[0] as int - 0xC0) * 64 + (b[1] as int - 0x80)
  }

  predicate ThreeBytes(b: Bytes, c: int) {
    && |b| == 3 && 0xE0 <= b[0] <= 0xEF && 0x80 <= b[1] <= 0xBF && 0x80 <= b[2] <= 0xBF
    && c == (b[0] as int - 0xE0) * 4096 + (b[1] as int - 0x80) * 64 + (b[2] as int - 0x80)
  }

  predicate FourBytes(b: Bytes, c: int) {
    && |b| == 4 && 0xF0 <= b[0] <= 0xF4 && 0x80 <= b[1] <= 0xBF && 0x80 <= b[2] <= 0xBF && 0x80 <= b[3] <= 0xBF
    && c == (b[0] as int - 0xF0) * 262144 + (b[1] as int - 0x80) * 4096 + (b[2] as int - 0x80) * 64 +
       (b[3] as int - 0x80)
  }

  /** Main result: what every character is encoded as; a surrogate without its other half becomes U+FFFD. */
  lemma CharacterBytes(u: Unit)
    ensures u < 0x80 ==> Encode([u]) == [u]
    ensures 0x80 <= u < 0x800 ==> TwoBytes(Encode([u]), u)
    ensures 0xD800 <= u <= 0xDFFF ==> Encode([u]) == [0xEF, 0xBF, 0xBD]
    ensures 0x800 <= u && !(0xD800 <= u <= 0xDFFF) ==> ThreeBytes(Encode([u]), u)
  {
    assert [u][1..] == [];
    assert Encode([u]) == One(u);
    hide Encode;
    if 0x800 <= u && !(0xD800 <= u <= 0xDFFF) {
      ThreeParts(u);
    }
  }

  lemma ThreeParts(u: Unit)
    ensures u == u / 4096 * 4096 + u / 64 % 64 * 64 + u % 64
  {
    assert u / 64 == u / 4096 * 64 + u / 64 % 64;
  }

  lemma PairBytes(high: Unit, low: Unit)
    requires 0xD800 <= high <= 0xDBFF && 0xDC00 <= low <= 0xDFFF
    ensures FourBytes(Encode([high, low]), 65536 + (high - 0xD800) * 1024 + (low - 0xDC00))
  {
    assert [high, low][2..] == [];
    var c := CodePoint(high, low);
    assert Encode([high, low]) == Four(c);
    hide Encode;
    FourParts(c);
  }

  /** Characters are encoded one after the other, as long as no pair is cut in two. */
  lemma {:induction false} EncodeAppend(a: Text, b: Text)
    requires a == [] || b == [] || !IsHigh(a[|a| - 1]) || !IsLow(b[0])
    ensures Encode(a + b) == Encode(a) + Encode(b)
  {
    hide Encode, One, Four;
    EncodeStep(a);
    EncodeStep(a + b);
    if a == [] {
      assert a + b == b;
    } else if IsPair(a) {
      EncodeAppend(a[2..], b);
      assert (a + b)[2..] == a[2..] + b;
    } else {
      EncodeAppend(a[1..], b);
      assert (a + b)[1..] == a[1..] + b;
    }
  }

  lemma EncodeStep(t: Text)
    ensures Encode(t) ==
            if t == [] then [] else if IsPair(t) then Four(CodePoint(t[0], t[1])) + Encode(t[2..])
            else One(t[0]) + Encode(t[1..])
  {
    hide One, Four;
  }
}
