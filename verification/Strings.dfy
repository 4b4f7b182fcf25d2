/** ECMAScript strings as sequences of UTF-16 code units, with the few operations the release scripts rely on. */
module Strings {

  /** One UTF-16 code unit. */
  type Unit = u: int | 0 <= u < 0x1_0000

  type Text = seq<Unit>

  type Byte = b: int | 0 <= b < 256

  type Bytes = seq<Byte>

  datatype Option<+T> = None | Some(value: T)

  // Units that the scripts name.
  const SPACE: Unit := 32
  const QUOTE: Unit := 34
  const AMPERSAND: Unit := 38
  const APOSTROPHE: Unit := 39
  const PLUS: Unit := 43
  const COMMA: Unit := 44
  const MINUS: Unit := 45
  const DOT: Unit := 46
  const SLASH: Unit := 47
  const ZERO: Unit := 48
  const NINE: Unit := 57
  const COLON: Unit := 58
  const LESS: Unit := 60
  const GREATER: Unit := 62
  const UPPER_A: Unit := 65
  const UPPER_F: Unit := 70
  const UPPER_Z: Unit := 90
  const LEFT_BRACKET: Unit := 91
  const BACKSLASH: Unit := 92
  const RIGHT_BRACKET: Unit := 93
  const UNDERSCORE: Unit := 95
  const LOWER_A: Unit := 97
  const LOWER_B: Unit := 98
  const LOWER_E: Unit := 101
  const LOWER_F: Unit := 102
  const LOWER_N: Unit := 110
  const LOWER_R: Unit := 114
  const LOWER_T: Unit := 116
  const LOWER_U: Unit := 117
  const LOWER_Z: Unit := 122
  const LEFT_BRACE: Unit := 123
  const RIGHT_BRACE: Unit := 125

  /** A literal, written as a Dafny string of characters below U+10000. */
  function Lit(s: string): (t: Text)
    ensures |t| == |s|
    ensures forall i :: 0 <= i < |s| ==> t[i] == s[i] as int % 0x1_0000
  {
    seq(|s|, i requires 0 <= i < |s| => s[i] as int % 0x1_0000)
  }

  predicate IsDigit(u: Unit) {
    ZERO <= u <= NINE
  }

  predicate IsLetter(u: Unit) {
    LOWER_A <= u <= LOWER_Z || UPPER_A <= u <= UPPER_Z
  }

  predicate AllDigits(t: Text) {
    forall i :: 0 <= i < |t| ==> IsDigit(t[i])
  }

  /** The digits at the front of a text. */
  function DigitRun(t: Text): (k: nat)
    ensures k <= |t| && AllDigits(t[..k])
    ensures k < |t| ==> !IsDigit(t[k])
  {
    if t == [] || !IsDigit(t[0]) then 0
    else
      var k := 1 + DigitRun(t[1..]);
      assert t[..k] == [t[0]] + t[1..][..k - 1];
      k
  }

  lemma DigitRunIs(digits: Text, rest: Text)
    requires AllDigits(digits) && (rest == [] || !IsDigit(rest[0]))
    ensures DigitRun(digits + rest) == |digits|
  {
    var s := digits + rest;
    var k := DigitRun(s);
    assert forall i :: 0 <= i < |digits| ==> s[i] == digits[i];
    assert rest != [] ==> s[|digits|] == rest[0];
    forall i | 0 <= i < k ensures IsDigit(s[i]) {
      assert s[..k][i] == s[i];
    }
  }

  /** The position of the first `u`, or the length. */
  function IndexOf(t: Text, u: Unit): (k: nat)
    ensures k <= |t|
    ensures k < |t| ==> t[k] == u
    ensures forall i :: 0 <= i < k ==> t[i] != u
  {
    if t == [] || t[0] == u then 0 else 1 + IndexOf(t[1..], u)
  }

  predicate StartsWith(t: Text, prefix: Text) {
    |prefix| <= |t| && t[..|prefix|] == prefix
  }

  predicate EndsWith(t: Text, tail: Text) {
    |tail| <= |t| && t[|t| - |tail|..] == tail
  }

  // ---------------------------------------------------------------- order

  /** The `<` of two strings: unit by unit, a proper prefix first. */
  predicate LexLess(a: Text, b: Text) {
    if b == [] then false
    else if a == [] then true
    else if a[0] != b[0] then a[0] < b[0]
    else LexLess(a[1..], b[1..])
  }

  lemma {:induction false} LexIrreflexive(a: Text)
    ensures !LexLess(a, a)
  {
    if a != [] {
      LexIrreflexive(a[1..]);
    }
  }

  lemma {:induction false} LexTransitive(a: Text, b: Text, c: Text)
    requires LexLess(a, b) && LexLess(b, c)
    ensures LexLess(a, c)
  {
    if a != [] && a[0] == b[0] && b[0] == c[0] {
      LexTransitive(a[1..], b[1..], c[1..]);
    }
  }

  lemma {:induction false} LexTotal(a: Text, b: Text)
    ensures LexLess(a, b) || LexLess(b, a) || a == b
  {
    if a != [] && b != [] && a[0] == b[0] {
      LexTotal(a[1..], b[1..]);
      assert a == [a[0]] + a[1..] && b == [b[0]] + b[1..];
    }
  }

  // ------------------------------------------------------------- numerals

  /** The decimal numeral of a natural number, without leading zeros. */
  function Decimal(n: nat): (t: Text)
    ensures t != [] && AllDigits(t)
  {
    if n < 10 then [ZERO + n] else Decimal(n / 10) + [ZERO + n % 10]
  }

  /** The value of a string of decimal digits, leading zeros allowed. */
  function ReadDecimal(t: Text): nat
    requires AllDigits(t)
  {
    if t == [] then 0 else 10 * ReadDecimal(t[..|t| - 1]) + (t[|t| - 1] - ZERO)
  }

  /** A numeral as `Decimal` prints it: `0`, or digits that do not start with a zero. */
  predicate IsNumeral(t: Text) {
    t != [] && AllDigits(t) && (t[0] == ZERO ==> |t| == 1)
  }

  lemma {:induction false} ReadDecimalOfDecimal(n: nat)
    ensures IsNumeral(Decimal(n)) && ReadDecimal(Decimal(n)) == n
    ensures n > 0 ==> Decimal(n)[0] != ZERO
  {
    if n >= 10 {
      ReadDecimalOfDecimal(n / 10);
      assert Decimal(n)[..|Decimal(n)| - 1] == Decimal(n / 10);
    }
  }

  lemma {:induction false} DecimalOfReadDecimal(t: Text)
    requires IsNumeral(t)
    ensures Decimal(ReadDecimal(t)) == t
    ensures t[0] != ZERO ==> ReadDecimal(t) > 0
  {
    var init, last := t[..|t| - 1], t[|t| - 1];
    if |t| == 1 {
      assert ReadDecimal(init) == 0;
    } else {
      DecimalOfReadDecimal(init);
      assert t == init + [last];
    }
  }

  function Power10(k: nat): nat {
    if k == 0 then 1 else 10 * Power10(k - 1)
  }

  lemma {:induction false} DecimalLength(n: nat, k: nat)
    requires k >= 1 && n < Power10(k)
    ensures |Decimal(n)| <= k
  {
    if n >= 10 {
      DecimalLength(n / 10, k - 1);
    }
  }

  // ------------------------------------------------------- split and join

  /** `s.split(separator)` for a separator of one unit. */
  function Split<T(==)>(s: seq<T>, separator: T): (parts: seq<seq<T>>)
    ensures parts != []
  {
    if s == [] then [[]]
    else
      var rest := Split(s[1..], separator);
      if s[0] == separator then [[]] + rest else [[s[0]] + rest[0]] + rest[1..]
  }

  function Join<T>(parts: seq<seq<T>>, separator: T): seq<T> {
    if parts == [] then []
    else if |parts| == 1 then parts[0]
    else parts[0] + [separator] + Join(parts[1..], separator)
  }

  ghost predicate FreeOf<T>(parts: seq<seq<T>>, separator: T) {
    forall i :: 0 <= i < |parts| ==> separator !in parts[i]
  }

  lemma {:induction false} JoinSplit<T>(s: seq<T>, separator: T)
    ensures Join(Split(s, separator), separator) == s
    ensures FreeOf(Split(s, separator), separator)
  {
    if s != [] {
      JoinSplit(s[1..], separator);
      var rest := Split(s[1..], separator);
      if s[0] != separator {
        var parts := [[s[0]] + rest[0]] + rest[1..];
        assert parts[1..] == rest[1..];
        assert separator !in rest[0];
      } else {
        assert ([[]] + rest)[1..] == rest;
      }
    }
  }

  lemma {:induction false} SplitJoin<T>(parts: seq<seq<T>>, separator: T)
    requires parts != [] && FreeOf(parts, separator)
    ensures Split(Join(parts, separator), separator) == parts
    decreases |parts|, |parts[0]|
  {
    var s := Join(parts, separator);
    if parts[0] == [] {
      if |parts| > 1 {
        assert s == [separator] + Join(parts[1..], separator);
        assert s[1..] == Join(parts[1..], separator);
        SplitJoin(parts[1..], separator);
      } else {
        assert parts == [[]];
      }
    } else {
      var shorter := [parts[0][1..]] + parts[1..];
      assert parts[0] == [parts[0][0]] + parts[0][1..];
      assert shorter[1..] == parts[1..];
      assert forall i :: 0 <= i < |shorter| ==> separator !in shorter[i] by {
        forall i | 0 <= i < |shorter| ensures separator !in shorter[i] {
          assert separator !in parts[i];
        }
      }
      assert s == [parts[0][0]] + Join(shorter, separator);
      assert s[1..] == Join(shorter, separator);
      assert s[0] in parts[0];
      SplitJoin(shorter, separator);
      assert parts == [[s[0]] + shorter[0]] + shorter[1..];
    }
  }

  // --------------------------------------------------------- order in full

  /** At some position the texts part: one has ended, or has the smaller unit there. */
  ghost predicate PartsAt(a: Text, b: Text, k: nat) {
    && k <= |a| && k < |b| && a[..k] == b[..k]
    && (k == |a| || a[k] < b[k])
  }

  /** Main result: a text is before another exactly when it is a proper prefix of it, or has the smaller unit where they
      first differ. */
  lemma {:induction false} LexLessExactly(a: Text, b: Text)
    ensures LexLess(a, b) <==> exists k :: PartsAt(a, b, k)
  {
    if b == [] {
    } else if a == [] {
      assert PartsAt(a, b, 0);
    } else {
      LexLessExactly(a[1..], b[1..]);
      if LexLess(a, b) {
        if a[0] != b[0] {
          assert PartsAt(a, b, 0);
        } else {
          var k :| PartsAt(a[1..], b[1..], k);
          PartsLater(a, b, k);
        }
      }
      if k :| PartsAt(a, b, k) {
        if k > 0 {
          PartsEarlier(a, b, k);
        }
      }
    }
  }

  lemma PartsLater(a: Text, b: Text, k: nat)
    requires a != [] && b != [] && a[0] == b[0] && PartsAt(a[1..], b[1..], k)
    ensures PartsAt(a, b, k + 1)
  {
    assert a[..k + 1] == [a[0]] + a[1..][..k] && b[..k + 1] == [b[0]] + b[1..][..k];
  }

  lemma PartsEarlier(a: Text, b: Text, k: nat)
    requires k > 0 && PartsAt(a, b, k)
    ensures a[0] == b[0] && PartsAt(a[1..], b[1..], k - 1)
  {
    assert a[0] == a[..k][0] && b[0] == b[..k][0];
    assert a[1..][..k - 1] == a[..k][1..] && b[1..][..k - 1] == b[..k][1..];
  }
}
