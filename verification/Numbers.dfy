/** Finite numbers as exact decimals: how ECMA-262 prints them, and how JSON spells them. */
module Numbers {
  import opened Strings

  const UPPER_E: Unit := 69

  type Digits = t: Text | AllDigits(t)

  /** The magnitude `0.digits` times ten to the power `point`. */
  datatype Decimals = Decimals(negative: bool, digits: Digits, point: int)

  /** Neither end of the digits is a zero, and not all of them lie before the point: not an integer. */
  predicate IsFraction(d: Decimals) {
    && d.digits != [] && d.point < |d.digits|
    && d.digits[0] != ZERO && d.digits[|d.digits| - 1] != ZERO
  }

  type FractionValue = d: Decimals | IsFraction(d) witness Decimals(false, [ZERO + 5], 0)

  /** A number by its value, so `-0` is `Whole(0)`. */
  datatype Number = Whole(n: int) | Fraction(d: FractionValue) | NotFinite

  /** `Number.MAX_SAFE_INTEGER`. */
  const MAX_SAFE := 9_007_199_254_740_991

  function Zeros(k: nat): (t: Digits)
    ensures |t| == k
  {
    seq(k, _ => ZERO)
  }

  /** Without the zeros at the end. */
  function DropEnd(t: Digits): (r: Digits)
    ensures |r| <= |t| && r == t[..|r|]
    ensures r != [] ==> r[|r| - 1] != ZERO
    ensures forall i :: |r| <= i < |t| ==> t[i] == ZERO
  {
    if t != [] && t[|t| - 1] == ZERO then DropEnd(t[..|t| - 1]) else t
  }

  /** Without the zeros at the start. */
  function DropStart(t: Digits): (r: Digits)
    ensures |r| <= |t| && r == t[|t| - |r|..]
    ensures r != [] ==> r[0] != ZERO
  {
    if t != [] && t[0] == ZERO then DropStart(t[1..]) else t
  }

  function Trimmed(t: Digits): (r: Digits)
    ensures r != [] ==> r[0] != ZERO && r[|r| - 1] != ZERO
  {
    DropEnd(DropStart(t))
  }

  // -------------------------------------------------------------- printing

  /** The exponent form of `Number::toString` in ECMA-262. */
  function ExponentText(digits: Digits, point: int): Text
    requires digits != []
  {
    var e := point - 1;
    digits[..1] + (if |digits| == 1 then [] else [DOT] + digits[1..]) +
    [LOWER_E] + (if e < 0 then [MINUS] + Decimal(-e) else [PLUS] + Decimal(e))
  }

  function FractionDigits(digits: Digits, point: int): Text
    requires digits != [] && point < |digits|
  {
    if 0 < point <= 21 then digits[..point] + [DOT] + digits[point..]
    else if -6 < point <= 0 then [ZERO, DOT] + Zeros(-point) + digits
    else ExponentText(digits, point)
  }

  function WholeDigits(n: nat): Text {
    var t := Decimal(n);
    if |t| <= 21 || DropEnd(t) == [] then t else ExponentText(DropEnd(t), |t|)
  }

  function Signed(negative: bool, t: Text): Text {
    if negative then [MINUS] + t else t
  }

  /** `Number::toString` in base ten. */
  function NumberText(n: Number): Text {
    match n
    case Whole(i) => Signed(i < 0, WholeDigits(if i < 0 then -i else i))
    case Fraction(d) => Signed(d.negative, FractionDigits(d.digits, d.point))
    case NotFinite => Lit("null")
  }

  // --------------------------------------------------------------- reading

  predicate IsNumberUnit(u: Unit) {
    IsDigit(u) || u == MINUS || u == PLUS || u == DOT || u == LOWER_E || u == UPPER_E
  }

  /** The exponent part, if there is one: the point moves. */
  function ReadExponent(digits: Digits, point: int, tail: Text): Option<(Digits, int)> {
    if tail == [] then Some((digits, point))
    else if tail[0] != LOWER_E && tail[0] != UPPER_E then None
    else
      var negative := |tail| > 1 && tail[1] == MINUS;
      var power := if |tail| > 1 && (tail[1] == MINUS || tail[1] == PLUS) then tail[2..] else tail[1..];
      if power == [] || !AllDigits(power) then None
      else Some((digits, if negative then point - ReadDecimal(power) else point + ReadDecimal(power)))
  }

  /** A JSON number without its sign, section 6 of RFC 8259: its digits, and how many stand before the point. */
  function ReadMagnitude(t: Text): Option<(Digits, int)> {
    var k := DigitRun(t);
    var whole, tail := t[..k], t[k..];
    if !IsNumeral(whole) then None
    else if tail != [] && tail[0] == DOT then
      var rest := tail[1..];
      var l := DigitRun(rest);
      if l == 0 then None else ReadExponent(whole + rest[..l], k, rest[l..])
    else ReadExponent(whole, k, tail)
  }

  function WithSign(negative: bool, n: int): int {
    if negative then -n else n
  }

  /** The number with this value. */
  function ValueOf(negative: bool, digits: Digits, point: int): Number {
    var d, p := Trimmed(digits), point - (|digits| - |DropStart(digits)|);
    if d == [] then Whole(0)
    else if |d| <= p then
      Whole(WithSign(negative, ReadDecimal(d + Zeros(p - |d|))))
    else Fraction(Decimals(negative, d, p))
  }

  /** The value of a JSON number, exactly. */
  function ReadNumber(t: Text): Option<Number> {
    var negative := t != [] && t[0] == MINUS;
    var magnitude := if negative then t[1..] else t;
    match ReadMagnitude(magnitude)
    case None => None
    case Some((digits, point)) => Some(ValueOf(negative, digits, point))
  }

  // ------------------------------------------------------------- inversion

  lemma ReadExponentText(digits: Digits, point: int, e: int, rest: Text)
    requires rest == [LOWER_E] + (if e < 0 then [MINUS] + Decimal(-e) else [PLUS] + Decimal(e))
    ensures ReadExponent(digits, point, rest) == Some((digits, point + e))
    ensures rest[0] == LOWER_E
  {
    hide IsDigit, Decimal, ReadDecimal;
    if e < 0 {
      ReadDecimalOfDecimal(-e);
      assert rest[2..] == Decimal(-e);
    } else {
      ReadDecimalOfDecimal(e);
      assert rest[2..] == Decimal(e);
    }
  }

  /** The parts of a number are found where they were put. */
  lemma ReadParts(whole: Digits, fraction: Digits, tail: Text)
    requires IsNumeral(whole) && (tail == [] || !IsDigit(tail[0]))
    ensures fraction != [] ==>
              ReadMagnitude(whole + [DOT] + fraction + tail) == ReadExponent(whole + fraction, |whole|, tail)
    ensures tail == [] || tail[0] != DOT ==> ReadMagnitude(whole + tail) == ReadExponent(whole, |whole|, tail)
  {
    hide ReadExponent;
    DigitRunIs(whole, tail);
    assert (whole + tail)[..|whole|] == whole && (whole + tail)[|whole|..] == tail;
    if fraction != [] {
      var after := [DOT] + (fraction + tail);
      var t := whole + [DOT] + fraction + tail;
      assert t == whole + after;
      DigitRunIs(whole, after);
      assert t[..|whole|] == whole && t[|whole|..] == after;
      assert after[1..] == fraction + tail;
      DigitRunIs(fraction, tail);
      assert (fraction + tail)[..|fraction|] == fraction && (fraction + tail)[|fraction|..] == tail;
    }
  }

  lemma ReadExponentForm(digits: Digits, point: int)
    requires digits != [] && digits[0] != ZERO
    ensures ReadMagnitude(ExponentText(digits, point)) == Some((digits, point))
  {
    hide ReadMagnitude, ReadExponent;
    var e := point - 1;
    var tail := [LOWER_E] + (if e < 0 then [MINUS] + Decimal(-e) else [PLUS] + Decimal(e));
    ReadExponentText(digits, 1, e, tail);
    ReadParts(digits[..1], digits[1..], tail);
    assert digits == digits[..1] + digits[1..];
    if |digits| == 1 {
      assert digits[..1] == digits;
      assert ExponentText(digits, point) == digits[..1] + tail;
    } else {
      assert ExponentText(digits, point) == digits[..1] + [DOT] + digits[1..] + tail;
    }
  }

  /** Digits without zeros at the ends are kept as they are. */
  lemma Untouched(digits: Digits)
    requires digits != [] && digits[0] != ZERO && digits[|digits| - 1] != ZERO
    ensures DropStart(digits) == digits && DropEnd(digits) == digits
  {
  }

  lemma {:induction false} LeadingZeros(k: nat, digits: Digits)
    requires digits != [] && digits[0] != ZERO
    ensures DropStart(Zeros(k) + digits) == digits
  {
    hide IsDigit, Zeros;
    ZerosStep(k, digits);
    if k > 0 {
      LeadingZeros(k - 1, digits);
    }
  }

  lemma ZerosStep(k: nat, digits: Digits)
    ensures var t := Zeros(k) + digits;
            if k == 0 then t == digits else t[0] == ZERO && t[1..] == Zeros(k - 1) + digits
  {
    hide IsDigit;
  }

  /** Zeros before the first digit do not change a value. */
  lemma FractionValueOf(d: FractionValue, k: nat)
    ensures ValueOf(d.negative, Zeros(k) + d.digits, d.point + k) == Fraction(d)
  {
    hide DropStart, Trimmed, IsDigit, ValueOf, Zeros;
    TrimmedZeros(k, d.digits);
    TrimmedValueOf(d, Zeros(k) + d.digits, d.point + k);
  }

  lemma TrimmedValueOf(d: FractionValue, padded: Digits, point: int)
    requires DropStart(padded) == d.digits && Trimmed(padded) == d.digits
    requires point - (|padded| - |d.digits|) == d.point
    ensures ValueOf(d.negative, padded, point) == Fraction(d)
  {
    hide DropStart, Trimmed, IsDigit, ReadDecimal, AllDigits, Zeros;
  }

  lemma TrimmedZeros(k: nat, digits: Digits)
    requires digits != [] && digits[0] != ZERO && digits[|digits| - 1] != ZERO
    ensures DropStart(Zeros(k) + digits) == digits && Trimmed(Zeros(k) + digits) == digits
  {
    hide DropStart, DropEnd, IsDigit;
    LeadingZeros(k, digits);
    Untouched(digits);
  }

  lemma PointInside(digits: Digits, point: nat)
    requires 0 < point < |digits| && digits[0] != ZERO
    ensures ReadMagnitude(digits[..point] + [DOT] + digits[point..]) == Some((digits, point))
  {
    hide ReadMagnitude;
    ReadParts(digits[..point], digits[point..], []);
    var t := digits[..point] + [DOT] + digits[point..];
    assert t + [] == t && digits[..point] + digits[point..] == digits;
  }

  lemma PointBefore(digits: Digits, zeros: nat)
    requires digits != []
    ensures ReadMagnitude([ZERO, DOT] + Zeros(zeros) + digits) == Some((Zeros(zeros + 1) + digits, 1))
  {
    hide ReadMagnitude;
    var fraction := Zeros(zeros) + digits;
    ReadParts([ZERO], fraction, []);
    assert [ZERO, DOT] + Zeros(zeros) + digits == [ZERO] + [DOT] + fraction + [];
    assert [ZERO] + fraction == Zeros(zeros + 1) + digits;
  }

  lemma FractionReads(d: FractionValue)
    ensures ReadMagnitude(FractionDigits(d.digits, d.point)).Some?
    ensures var (digits, point) := ReadMagnitude(FractionDigits(d.digits, d.point)).value;
            ValueOf(d.negative, digits, point) == Fraction(d)
  {
    hide ReadMagnitude, ValueOf, ExponentText;
    if -6 < d.point <= 0 {
      PointBefore(d.digits, -d.point);
      FractionValueOf(d, 1 - d.point);
    } else {
      FractionValueOf(d, 0);
      assert Zeros(0) + d.digits == d.digits;
      if 0 < d.point <= 21 {
        PointInside(d.digits, d.point);
      } else {
        ReadExponentForm(d.digits, d.point);
      }
    }
  }

  /** A numeral determines its number, also without the zeros at its end. */
  lemma NumeralValue(t: Digits, kept: Digits, negative: bool)
    requires IsNumeral(t) && t[0] != ZERO && |DropEnd(t)| <= |kept| <= |t| && kept == t[..|kept|]
    ensures ValueOf(negative, kept, |t|) == Whole(WithSign(negative, ReadDecimal(t)))
  {
    hide IsDigit, DropEnd, DropStart, ReadDecimal, ValueOf, Zeros;
    assert kept[0] == t[0];
    StartStays(kept);
    EndKept(t, kept);
    ZerosBack(t);
    WholeValueOf(negative, kept, |t|);
  }

  lemma WholeValueOf(negative: bool, kept: Digits, point: nat)
    requires DropStart(kept) == kept && DropEnd(kept) != [] && |DropEnd(kept)| <= point
    ensures ValueOf(negative, kept, point) ==
            Whole(WithSign(negative, ReadDecimal(DropEnd(kept) + Zeros(point - |DropEnd(kept)|))))
  {
    hide IsDigit, DropEnd, DropStart, ReadDecimal, AllDigits, Zeros;
  }

  lemma ZerosBack(t: Digits)
    ensures |DropEnd(t)| <= |t| && DropEnd(t) + Zeros(|t| - |DropEnd(t)|) == t
    ensures t != [] && t[0] != ZERO ==> DropEnd(t) != []
  {
    hide IsDigit;
  }

  lemma {:induction false} EndKept(t: Digits, kept: Digits)
    requires |DropEnd(t)| <= |kept| <= |t| && kept == t[..|kept|]
    ensures DropEnd(kept) == DropEnd(t)
    decreases |t|
  {
    if |kept| < |t| {
      assert t[|t| - 1] == ZERO;
      assert kept == t[..|t| - 1][..|kept|];
      EndKept(t[..|t| - 1], kept);
    } else {
      assert kept == t;
    }
  }

  lemma StartStays(t: Digits)
    requires t != [] && t[0] != ZERO
    ensures DropStart(t) == t
  {
  }

  lemma WholeReads(i: int)
    ensures ReadMagnitude(WholeDigits(if i < 0 then -i else i)).Some?
    ensures var (digits, point) := ReadMagnitude(WholeDigits(if i < 0 then -i else i)).value;
            ValueOf(i < 0, digits, point) == Whole(i)
  {
    hide ReadMagnitude, ValueOf, DropEnd;
    var n := if i < 0 then -i else i;
    var t := Decimal(n);
    ReadDecimalOfDecimal(n);
    if n == 0 {
      ZeroReads();
    } else {
      var d := DropEnd(t);
      NumeralValue(t, t, i < 0);
      NumeralValue(t, d, i < 0);
      if |t| <= 21 || d == [] {
        NumeralReads(t);
      } else {
        assert d[0] == t[0];
        ReadExponentForm(d, |t|);
      }
    }
  }

  lemma NumeralReads(t: Digits)
    requires IsNumeral(t)
    ensures ReadMagnitude(t) == Some((t, |t|))
  {
    hide ReadMagnitude;
    ReadParts(t, [], []);
    assert t + [] == t;
  }

  lemma ZeroReads()
    ensures WholeDigits(0) == [ZERO] && ReadMagnitude([ZERO]) == Some(([ZERO], 1)) &&
            ValueOf(false, [ZERO], 1) == Whole(0)
  {
    NumeralReads([ZERO]);
    assert [ZERO][1..] == [];
    assert DropStart([ZERO]) == DropStart([]);
  }

  /** Printed numbers use the units of numbers and start with a digit or a minus sign. */
  predicate NumberShaped(t: Text) {
    t != [] && (IsDigit(t[0]) || t[0] == MINUS) && forall i :: 0 <= i < |t| ==> IsNumberUnit(t[i])
  }

  predicate MagnitudeShaped(t: Text) {
    NumberShaped(t) && IsDigit(t[0])
  }

  lemma ExponentShaped(digits: Digits, point: int)
    requires digits != []
    ensures MagnitudeShaped(ExponentText(digits, point))
  {
    hide Decimal;
  }

  lemma FractionShaped(d: FractionValue)
    ensures MagnitudeShaped(FractionDigits(d.digits, d.point))
  {
    hide ExponentText;
    ExponentShaped(d.digits, d.point);
  }

  lemma WholeShaped(n: nat)
    ensures MagnitudeShaped(WholeDigits(n))
  {
    hide Decimal, DropEnd, ExponentText;
    var d := DropEnd(Decimal(n));
    if d != [] {
      ExponentShaped(d, |Decimal(n)|);
    }
  }

  lemma SignedReads(negative: bool, t: Text)
    requires MagnitudeShaped(t) && ReadMagnitude(t).Some?
    ensures NumberShaped(Signed(negative, t))
    ensures var (digits, point) := ReadMagnitude(t).value;
            ReadNumber(Signed(negative, t)) == Some(ValueOf(negative, digits, point))
  {
    hide ReadMagnitude, ValueOf;
    assert ([MINUS] + t)[1..] == t;
  }

  /** Main result: what is printed is read back as the number it was. */
  lemma ReadNumberText(n: Number)
    requires !n.NotFinite?
    ensures ReadNumber(NumberText(n)) == Some(n)
    ensures NumberShaped(NumberText(n))
  {
    hide ReadNumber, ReadMagnitude, ValueOf, WholeDigits, FractionDigits;
    match n
    case Whole(i) =>
      WholeShaped(if i < 0 then -i else i);
      WholeReads(i);
      SignedReads(i < 0, WholeDigits(if i < 0 then -i else i));
    case Fraction(d) =>
      FractionShaped(d);
      FractionReads(d);
      SignedReads(d.negative, FractionDigits(d.digits, d.point));
  }

  // ---------------------------------------------------- other spellings of a number

  lemma {:induction false} EndZeros(t: Digits, k: nat)
    ensures DropEnd(t + Zeros(k)) == DropEnd(t)
    decreases k
  {
    hide IsDigit;
    var s := t + Zeros(k);
    if k == 0 {
      assert s == t;
    } else {
      assert s[..|s| - 1] == t + Zeros(k - 1);
      EndZeros(t, k - 1);
    }
  }

  lemma {:induction false} OnlyZeros(k: nat)
    ensures DropStart(Zeros(k)) == []
  {
    if k > 0 {
      assert Zeros(k)[1..] == Zeros(k - 1);
      OnlyZeros(k - 1);
    }
  }

  lemma ZerosAreZero(k: nat, point: int)
    ensures ValueOf(false, Zeros(k), point) == Whole(0)
  {
    hide DropStart, Zeros;
    OnlyZeros(k);
  }

  lemma ZeroFractionValue(n: nat, k: nat)
    ensures ValueOf(false, Decimal(n) + Zeros(k), |Decimal(n)|) == Whole(n)
  {
    hide ValueOf, DropStart, DropEnd, IsDigit, Zeros, Decimal;
    var t := Decimal(n);
    ReadDecimalOfDecimal(n);
    if n == 0 {
      ZerosAreZero(k + 1, 1);
      ZeroThenZeros(k);
    } else {
      StartStays(t + Zeros(k));
      EndZeros(t, k);
      ZerosBack(t);
      WholeValueOf(false, t + Zeros(k), |t|);
    }
  }

  /** A number that starts with a digit is read without a sign. */
  lemma ReadUnsigned(t: Text)
    requires t != [] && IsDigit(t[0])
    ensures ReadNumber(t) ==
            match ReadMagnitude(t)
            case None => None
            case Some((digits, point)) => Some(ValueOf(false, digits, point))
  {
    hide ReadMagnitude, ValueOf;
  }

  /** A whole number spelled with a fraction of zeros is that whole number. */
  lemma ZeroFraction(n: nat, k: nat)
    requires k > 0
    ensures ReadNumber(Decimal(n) + [DOT] + Zeros(k)) == Some(Whole(n))
  {
    hide ReadNumber, ReadMagnitude, ValueOf, Zeros, Decimal, ReadDecimal;
    var t := Decimal(n);
    var spelled := t + [DOT] + Zeros(k);
    ReadDecimalOfDecimal(n);
    ReadParts(t, Zeros(k), []);
    assert spelled + [] == spelled && spelled[0] == t[0];
    ReadUnsigned(spelled);
    ZeroFractionValue(n, k);
  }

  lemma ZeroThenZeros(k: nat)
    ensures Decimal(0) == [ZERO] && [ZERO] + Zeros(k) == Zeros(k + 1)
  {
  }

  /** Two points are too many. */
  lemma TwoPointsRefused(whole: Digits, fraction: Digits, tail: Text)
    requires IsNumeral(whole) && fraction != []
    ensures ReadNumber(whole + [DOT] + fraction + ([DOT] + tail)) == None
  {
    hide ReadNumber, ReadMagnitude, ValueOf;
    var t := whole + [DOT] + fraction + ([DOT] + tail);
    ReadParts(whole, fraction, [DOT] + tail);
    assert t[0] == whole[0];
    ReadUnsigned(t);
  }

  // ------------------------------------------------------------- the grammar

  /** Section 6 of RFC 8259: an exponent part, or none. */
  ghost predicate SpellsExponent(t: Text, e: int) {
    || (t == [] && e == 0)
    || (t != [] && (t[0] == 101 || t[0] == 69)
        && exists negative, power: Digits ::
             power != [] && e == WithSign(negative, ReadDecimal(power)) && SpellsPower(t[1..], negative, power))
  }

  predicate SpellsPower(t: Text, negative: bool, power: Digits) {
    if negative then t == [45] + power else t == [43] + power || t == power
  }

  /** The parts of a JSON number, and its value. */
  ghost predicate NumberParts(t: Text, n: Number, negative: bool, whole: Digits, fraction: Digits, tail: Text, e: int) {
    && IsNumeral(whole) && SpellsExponent(tail, e)
    && t == (if negative then [45] else []) + (whole + (if fraction == [] then [] else [46] + fraction) + tail)
    && n == ValueOf(negative, whole + fraction, |whole| + e)
  }

  ghost predicate SpellsNumber(t: Text, n: Number) {
    exists negative, whole: Digits, fraction: Digits, tail, e :: NumberParts(t, n, negative, whole, fraction, tail, e)
  }

  lemma PowerUnits(t: Text, negative: bool, power: Digits)
    requires power != [] && SpellsPower(t, negative, power)
    ensures t != [] && forall i :: 0 <= i < |t| ==> IsNumberUnit(t[i])
  {
  }

  lemma ExponentReads(digits: Digits, point: int, tail: Text, e: int)
    requires SpellsExponent(tail, e)
    ensures ReadExponent(digits, point, tail) == Some((digits, point + e))
    ensures tail != [] ==> !IsDigit(tail[0]) && tail[0] != DOT
    ensures forall i :: 0 <= i < |tail| ==> IsNumberUnit(tail[i])
  {
    hide ReadDecimal;
    if tail != [] {
      var negative, power: Digits :|
        power != [] && e == WithSign(negative, ReadDecimal(power)) && SpellsPower(tail[1..], negative, power);
      PowerUnits(tail[1..], negative, power);
      assert forall i :: 1 <= i < |tail| ==> tail[i] == tail[1..][i - 1];
      PowerReads(digits, point, tail, negative, power);
    }
  }

  lemma PowerReads(digits: Digits, point: int, tail: Text, negative: bool, power: Digits)
    requires tail != [] && (tail[0] == LOWER_E || tail[0] == UPPER_E)
    requires power != [] && SpellsPower(tail[1..], negative, power)
    ensures ReadExponent(digits, point, tail) == Some((digits, point + WithSign(negative, ReadDecimal(power))))
  {
    hide ReadDecimal;
    assert tail[1..] != [] && tail[1] == tail[1..][0];
    if tail[1..] == power {
      assert IsDigit(power[0]);
    } else {
      assert tail[2..] == tail[1..][1..] == power;
    }
  }

  lemma MagnitudeUnits(whole: Digits, fraction: Digits, tail: Text)
    requires whole != [] && forall i :: 0 <= i < |tail| ==> IsNumberUnit(tail[i])
    ensures MagnitudeShaped(whole + (if fraction == [] then [] else [DOT] + fraction) + tail)
  {
  }

  lemma PartsRead(t: Text, n: Number, negative: bool, whole: Digits, fraction: Digits, tail: Text, e: int)
    requires NumberParts(t, n, negative, whole, fraction, tail, e)
    ensures ReadNumber(t) == Some(n) && NumberShaped(t)
  {
    hide SpellsExponent, ReadNumber, ReadMagnitude, ValueOf, ReadExponent, NumberShaped, IsDigit;
    ExponentReads(whole + fraction, |whole|, tail, e);
    ReadParts(whole, fraction, tail);
    MagnitudeUnits(whole, fraction, tail);
    var magnitude := whole + (if fraction == [] then [] else [DOT] + fraction) + tail;
    if fraction == [] {
      assert magnitude == whole + tail && whole + fraction == whole;
    } else {
      assert magnitude == whole + [DOT] + fraction + tail;
    }
    assert t == Signed(negative, magnitude) by {
      assert [] + magnitude == magnitude;
    }
    SignedReads(negative, magnitude);
  }

  lemma SpelledNumberShaped(t: Text, n: Number)
    requires SpellsNumber(t, n)
    ensures NumberShaped(t)
  {
    hide NumberParts, NumberShaped;
    var negative, whole: Digits, fraction: Digits, tail, e :| NumberParts(t, n, negative, whole, fraction, tail, e);
    PartsRead(t, n, negative, whole, fraction, tail, e);
  }

  lemma ReadExponentSpells(digits: Digits, point: int, tail: Text) returns (e: int)
    requires ReadExponent(digits, point, tail).Some?
    ensures SpellsExponent(tail, e) && ReadExponent(digits, point, tail) == Some((digits, point + e))
  {
    hide ReadDecimal;
    if tail == [] {
      e := 0;
    } else {
      var negative := |tail| > 1 && tail[1] == MINUS;
      var power: Digits := if |tail| > 1 && (tail[1] == MINUS || tail[1] == PLUS) then tail[2..] else tail[1..];
      e := WithSign(negative, ReadDecimal(power));
      if |tail| > 1 && (tail[1] == MINUS || tail[1] == PLUS) {
        assert tail[1..] == [tail[1]] + power;
      }
      assert SpellsPower(tail[1..], negative, power);
    }
  }

  lemma ReadMagnitudeSpells(t: Text) returns (whole: Digits, fraction: Digits, tail: Text, e: int)
    requires ReadMagnitude(t).Some?
    ensures IsNumeral(whole) && SpellsExponent(tail, e)
    ensures t == whole + (if fraction == [] then [] else [DOT] + fraction) + tail
    ensures ReadMagnitude(t) == Some((whole + fraction, |whole| + e))
  {
    hide ReadExponent, SpellsExponent, IsDigit;
    var k := DigitRun(t);
    whole, tail, fraction := t[..k], t[k..], [];
    if tail != [] && tail[0] == DOT {
      var rest := tail[1..];
      var l := DigitRun(rest);
      fraction := rest[..l];
      assert tail == [DOT] + fraction + rest[l..];
      tail := rest[l..];
    } else {
      assert whole + fraction == whole && whole + [] + tail == t;
    }
    e := ReadExponentSpells(whole + fraction, k, tail);
  }

  /** Main result: the numbers that are read, and their values, are exactly those of the grammar. */
  lemma ReadNumberExactly(t: Text, n: Number)
    ensures ReadNumber(t) == Some(n) <==> SpellsNumber(t, n)
  {
    hide ReadMagnitude, ValueOf, SpellsExponent, NumberShaped;
    if SpellsNumber(t, n) {
      var negative, whole: Digits, fraction: Digits, tail, e :| NumberParts(t, n, negative, whole, fraction, tail, e);
      PartsRead(t, n, negative, whole, fraction, tail, e);
    }
    if ReadNumber(t) == Some(n) {
      var negative := t != [] && t[0] == MINUS;
      var magnitude := if negative then t[1..] else t;
      var whole, fraction, tail, e := ReadMagnitudeSpells(magnitude);
      assert t == Signed(negative, magnitude);
      assert NumberParts(t, n, negative, whole, fraction, tail, e);
    }
  }

  // --------------------------------------------------------------- the value

  lemma {:induction false} TrailingZeros(t: Digits, k: nat)
    ensures ReadDecimal(t + Zeros(k)) == ReadDecimal(t) * Power10(k)
    decreases k
  {
    hide IsDigit;
    var s := t + Zeros(k);
    if k == 0 {
      assert s == t;
    } else {
      assert s[..|s| - 1] == t + Zeros(k - 1) && s[|s| - 1] == ZERO;
      TrailingZeros(t, k - 1);
    }
  }

  lemma {:induction false} StartDropped(t: Digits)
    ensures ReadDecimal(DropStart(t)) == ReadDecimal(t)
  {
    hide IsDigit;
    if t != [] && t[0] == ZERO {
      StartDropped(t[1..]);
      FirstZero(t[1..]);
      assert t == [ZERO] + t[1..];
    }
  }

  lemma {:induction false} FirstZero(t: Digits)
    ensures ReadDecimal([ZERO] + t) == ReadDecimal(t)
    decreases |t|
  {
    hide IsDigit;
    var s := [ZERO] + t;
    if t == [] {
      assert s[..|s| - 1] == [];
    } else {
      assert s[..|s| - 1] == [ZERO] + t[..|t| - 1];
      FirstZero(t[..|t| - 1]);
    }
  }

  /** Main result: digits with a power of ten denote a whole number when the zeros at their end make up for a
      negative power, and otherwise the fraction of the remaining digits; in both cases the value is the same. */
  lemma ValueInFull(negative: bool, digits: Digits, point: int) returns (kept: Digits, zeros: nat)
    ensures ReadDecimal(digits) == ReadDecimal(kept) * Power10(zeros)
    ensures var power, n := point - |digits| + zeros, ValueOf(negative, digits, point);
            if kept == [] then n == Whole(0)
            else if power >= 0 then n == Whole(WithSign(negative, ReadDecimal(kept) * Power10(power)))
            else n.Fraction? && n.d.negative == negative && n.d.digits == kept && n.d.point - |kept| == power
  {
    hide IsDigit, ReadDecimal, DropEnd, DropStart, Zeros;
    var started := DropStart(digits);
    kept, zeros := DropEnd(started), |started| - |DropEnd(started)|;
    StartDropped(digits);
    ZerosBack(started);
    TrailingZeros(kept, zeros);
    if kept != [] && point - |digits| + zeros >= 0 {
      TrailingZeros(kept, point - |digits| + zeros);
    }
  }
}
