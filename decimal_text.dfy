/** Decimal numerals as the exchange writes them ("0.00100000", "1.00000000"),
    and the three pieces of Python text handling the lot-size code relies on:
    `float(text)` on such numerals, `text.rstrip("0").split(".")`, and the
    fixed-precision rendering `f"{x:.{places}f}"`. Numbers are exact reals. */
module DecimalText {
  import opened Results

  function Pow10(n: nat): (p: nat)
    ensures p > 0
  {
    if n == 0 then 1 else 10 * Pow10(n - 1)
  }

  lemma {:induction false} Pow10Add(a: nat, b: nat)
    ensures Pow10(a + b) == Pow10(a) * Pow10(b)
  {
    if b > 0 {
      Pow10Add(a, b - 1);
      calc {
        Pow10(a + b);
        10 * Pow10(a + b - 1);
        10 * (Pow10(a) * Pow10(b - 1));
        Pow10(a) * (10 * Pow10(b - 1));
        Pow10(a) * Pow10(b);
      }
    }
  }

  /** 10^n as a real. */
  function TenTo(n: nat): (p: real)
    ensures p >= 1.0
  {
    Pow10(n) as real
  }

  /** True when `x` has no fractional part. */
  predicate IsInteger(x: real) {
    x == x.Floor as real
  }

  /** True when `x` can be written exactly with `places` decimals. */
  predicate HasPlaces(x: real, places: nat) {
    IsInteger(x * TenTo(places))
  }

  // ---------------------------------------------------------------------------
  // Scaled integers: `a / 10^places`, the value of a decimal numeral and of a
  // rounded rendering. The lemmas below take plain variables; callers
  // instantiate them, which keeps the solver away from products of larger terms.

  /** The integer `a` with the decimal point moved `places` digits to the left. */
  function Shift(a: int, places: nat): real {
    a as real / TenTo(places)
  }

  lemma DivOfProduct(x: real, d: real)
    requires d > 0.0
    ensures (x * d) / d == x
  {
  }

  lemma DivNegate(a: real, d: real)
    requires d > 0.0
    ensures (-a) / d == -(a / d)
  {
  }

  lemma CastProduct(a: nat, b: nat)
    ensures (a * b) as real == a as real * b as real
  {
  }

  lemma ScaleMonotone(x: real, y: real, p: real)
    requires x <= y && p > 0.0
    ensures x * p <= y * p
  {
  }

  /** Moving the point back again gives the integer. */
  lemma ShiftTimes(a: int, places: nat)
    ensures Shift(a, places) * TenTo(places) == a as real
  {
  }

  /** `a` is `x` written with `places` decimals exactly when `a == x * 10^places`. */
  lemma ShiftOfScaled(x: real, a: int, places: nat)
    requires a as real == x * TenTo(places)
    ensures Shift(a, places) == x
  {
    DivOfProduct(x, TenTo(places));
  }

  /** A shifted integer has at most `places` decimals. */
  lemma ShiftHasPlaces(x: real, a: int, places: nat)
    requires x == Shift(a, places)
    ensures HasPlaces(x, places)
  {
    assert x * TenTo(places) == a as real;
  }

  lemma ShiftNegate(a: int, places: nat)
    ensures Shift(-a, places) == -Shift(a, places)
  {
    DivNegate(a as real, TenTo(places));
  }

  lemma ShiftZero(a: int, places: nat)
    requires Shift(a, places) == 0.0
    ensures a == 0
  {
    ShiftTimes(a, places);
  }

  lemma DivMonotone(x: real, y: real, d: real)
    requires x <= y && d > 0.0
    ensures x / d <= y / d
  {
  }

  lemma ShiftMonotone(a: int, b: int, places: nat)
    requires a <= b
    ensures Shift(a, places) <= Shift(b, places)
  {
    DivMonotone(a as real, b as real, TenTo(places));
  }

  lemma QuotientCancel(a: real, d: real, b: real, p: real, q: real)
    requires a == b * q && d == p * q && p > 0.0 && q > 0.0
    ensures a / d == b / p
  {
  }

  lemma ShiftCancel(a: int, b: int, x: nat, y: nat, k: nat)
    requires a as real == b as real * TenTo(k)
    requires TenTo(x) == TenTo(y) * TenTo(k)
    ensures Shift(a, x) == Shift(b, y)
  {
    QuotientCancel(a as real, TenTo(x), b as real, TenTo(y), TenTo(k));
  }

  lemma CastScaled(a: nat, b: nat, k: nat)
    requires a == b * Pow10(k)
    ensures a as real == b as real * TenTo(k)
  {
    CastProduct(b, Pow10(k));
  }

  lemma TenToAdd(x: nat, k: nat)
    ensures TenTo(x + k) == TenTo(x) * TenTo(k)
  {
    Pow10Add(x, k);
    CastProduct(Pow10(x), Pow10(k));
  }

  /** Appending `k` zero digits and `k` places leaves the value alone. */
  lemma ShiftRescale(a: nat, b: nat, places: nat, k: nat)
    requires a == b * Pow10(k)
    ensures Shift(a, places + k) == Shift(b, places)
  {
    CastScaled(a, b, k);
    TenToAdd(places, k);
    ShiftCancel(a, b, places + k, places, k);
  }

  // ---------------------------------------------------------------------------
  // Digits

  predicate IsDigit(c: char) {
    '0' <= c <= '9'
  }

  predicate AllDigits(s: string) {
    forall i :: 0 <= i < |s| ==> IsDigit(s[i])
  }

  function DigitValue(c: char): nat
    requires IsDigit(c)
  {
    c as int - '0' as int
  }

  function DigitChar(d: nat): (c: char)
    requires d < 10
    ensures IsDigit(c) && DigitValue(c) == d
  {
    ('0' as int + d) as char
  }

  /** The value of a string of decimal digits, most significant first. */
  function DigitsValue(s: string): nat
    requires AllDigits(s)
  {
    if s == [] then 0 else 10 * DigitsValue(s[..|s| - 1]) + DigitValue(s[|s| - 1])
  }

  /** The shortest decimal digits of `n`; reading them back gives `n`. */
  function NatToDigits(n: nat): (s: string)
    ensures |s| > 0 && AllDigits(s)
    ensures DigitsValue(s) == n
    decreases n
  {
    if n < 10 then
      [DigitChar(n)]
    else
      var s := NatToDigits(n / 10) + [DigitChar(n % 10)];
      assert s[..|s| - 1] == NatToDigits(n / 10);
      s
  }

  function Zeros(k: nat): (z: string)
    ensures |z| == k && forall i :: 0 <= i < k ==> z[i] == '0'
  {
    if k == 0 then [] else Zeros(k - 1) + ['0']
  }

  lemma AppendZero(u: string)
    requires AllDigits(u)
    ensures AllDigits(u + ['0'])
    ensures DigitsValue(u + ['0']) == 10 * DigitsValue(u)
  {
    assert (u + ['0'])[..|u|] == u;
  }

  lemma ShiftTen(a: nat, b: nat)
    ensures 10 * (a * b) == a * (10 * b)
  {
  }

  lemma {:induction false} TrailingZeros(s: string, k: nat)
    requires AllDigits(s)
    ensures AllDigits(s + Zeros(k))
    ensures DigitsValue(s + Zeros(k)) == DigitsValue(s) * Pow10(k)
  {
    if k == 0 {
      assert s + Zeros(k) == s;
    } else {
      TrailingZeros(s, k - 1);
      var u := s + Zeros(k - 1);
      assert s + Zeros(k) == u + ['0'];
      AppendZero(u);
      ShiftTen(DigitsValue(s), Pow10(k - 1));
    }
  }

  lemma {:induction false} LeadingZeros(k: nat, s: string)
    requires AllDigits(s)
    ensures AllDigits(Zeros(k) + s)
    ensures DigitsValue(Zeros(k) + s) == DigitsValue(s)
  {
    if s == [] {
      TrailingZeros([], k);
      assert Zeros(k) + s == [] + Zeros(k);
    } else {
      LeadingZeros(k, s[..|s| - 1]);
      var t := Zeros(k) + s;
      assert t[..|t| - 1] == Zeros(k) + s[..|s| - 1];
    }
  }

  /** Zero-padding on the left to at least `width` digits, as the format
      specification does for the integer part. */
  function PadLeft(s: string, width: nat): (r: string)
    requires AllDigits(s)
    ensures |r| >= width && |r| >= |s| && AllDigits(r)
    ensures DigitsValue(r) == DigitsValue(s)
  {
    if |s| >= width then s
    else
      LeadingZeros(width - |s|, s);
      Zeros(width - |s|) + s
  }

  // ---------------------------------------------------------------------------
  // Searching and splitting

  /** The index of the first occurrence of `c` in `s`, like Python's `str.find`. */
  function IndexOf(s: string, c: char): (r: Option<nat>)
    ensures r.None? <==> c !in s
    ensures r.Some? ==> r.value < |s| && s[r.value] == c && c !in s[..r.value]
  {
    if s == [] then None
    else if s[0] == c then Some(0)
    else
      match IndexOf(s[1..], c)
      case None => None
      case Some(i) =>
        assert s[..i + 1] == [s[0]] + s[1..][..i];
        Some(i + 1)
  }

  /** IndexOf finds the first occurrence, and only it. */
  lemma IndexOfFirst(s: string, c: char, i: nat)
    requires i < |s| && s[i] == c && c !in s[..i]
    ensures IndexOf(s, c) == Some(i)
  {
    assert s[i] in s;
  }

  /** Python's `s.split(sep)` for a one-character separator. */
  function Split(s: string, sep: char): (parts: seq<string>)
    ensures |parts| >= 1 && |parts[0]| <= |s|
    ensures sep in s <==> |parts| >= 2
    ensures forall k :: 0 <= k < |parts| ==> sep !in parts[k]
    decreases |s|
  {
    match IndexOf(s, sep)
    case None => [s]
    case Some(i) => [s[..i]] + Split(s[i + 1..], sep)
  }

  /** Python's `sep.join(parts)`. */
  function Join(parts: seq<string>, sep: char): string
    requires |parts| >= 1
  {
    if |parts| == 1 then parts[0] else parts[0] + [sep] + Join(parts[1..], sep)
  }

  /** Splitting loses nothing: joining the parts back gives the text. */
  lemma {:induction false} JoinSplit(s: string, sep: char)
    ensures Join(Split(s, sep), sep) == s
    decreases |s|
  {
    match IndexOf(s, sep)
    case None =>
    case Some(i) =>
      JoinSplit(s[i + 1..], sep);
      assert s == s[..i] + [sep] + s[i + 1..];
  }

  /** Python's `s.rstrip("0")`: the longest prefix not ending in '0' whose
      removed tail is all '0'. */
  function RStripZeros(s: string): (r: string)
    ensures r <= s
    ensures forall i :: |r| <= i < |s| ==> s[i] == '0'
    ensures r == [] || r[|r| - 1] != '0'
  {
    if |s| > 0 && s[|s| - 1] == '0' then RStripZeros(s[..|s| - 1]) else s
  }

  /** The three properties of RStripZeros's contract determine its result. */
  lemma RStripZerosUnique(s: string, t: string)
    requires t <= s
    requires forall i :: |t| <= i < |s| ==> s[i] == '0'
    requires t == [] || t[|t| - 1] != '0'
    ensures t == RStripZeros(s)
  {
  }

  // ---------------------------------------------------------------------------
  // float() on decimal text

  /** A numeral as written: its sign, its digits with the '.' removed, and how
      many of those digits stood after the '.'. */
  datatype Numeral = Numeral(negative: bool, digits: string, places: nat)

  /** The text after an optional leading sign. */
  function Unsigned(text: string): string {
    if |text| > 0 && (text[0] == '-' || text[0] == '+') then text[1..] else text
  }

  function WholeDigits(body: string): string {
    match IndexOf(body, '.')
    case None => body
    case Some(i) => body[..i]
  }

  function FractionDigits(body: string): string {
    match IndexOf(body, '.')
    case None => []
    case Some(i) => body[i + 1..]
  }

  /** Reads a plain decimal numeral: an optional sign, digits, an optional '.',
      digits, with at least one digit in all. */
  function Lex(text: string): (r: Option<Numeral>)
    ensures r.Some? ==> AllDigits(r.value.digits) && r.value.places <= |r.value.digits|
  {
    var body := Unsigned(text);
    var whole := WholeDigits(body);
    var fraction := FractionDigits(body);
    if AllDigits(whole) && AllDigits(fraction) && |whole| + |fraction| > 0 then
      assert AllDigits(whole + fraction);
      Some(Numeral(|text| > 0 && text[0] == '-', whole + fraction, |fraction|))
    else
      None
  }

  /** The value of a numeral's digits with the '.' put back, ignoring the sign. */
  function Magnitude(n: Numeral): real
    requires AllDigits(n.digits)
  {
    Shift(DigitsValue(n.digits), n.places)
  }

  /** The exact value a numeral denotes. */
  function Value(n: Numeral): real
    requires AllDigits(n.digits)
  {
    if n.negative then -Magnitude(n) else Magnitude(n)
  }

  /** Python's `float(text)` on a plain decimal numeral; any other text is
      refused (None). */
  function ParseNumber(text: string): Option<real> {
    match Lex(text)
    case None => None
    case Some(n) => Some(Value(n))
  }

  /** Trailing '0's after the point do not change a numeral's value. */
  lemma ValueTrailingZeros(negative: bool, digits: string, places: nat, k: nat)
    requires AllDigits(digits)
    ensures AllDigits(digits + Zeros(k))
    ensures Value(Numeral(negative, digits + Zeros(k), places + k)) == Value(Numeral(negative, digits, places))
  {
    TrailingZeros(digits, k);
    ShiftRescale(DigitsValue(digits + Zeros(k)), DigitsValue(digits), places, k);
  }

  /** A numeral's value times 10^places is a whole number. */
  lemma ValueHasPlaces(n: Numeral)
    requires AllDigits(n.digits)
    ensures HasPlaces(Value(n), n.places)
  {
    var a: int := DigitsValue(n.digits);
    if n.negative {
      ShiftNegate(a, n.places);
      ShiftHasPlaces(Value(n), -a, n.places);
    } else {
      ShiftHasPlaces(Value(n), a, n.places);
    }
  }

  /** Only a numeral whose digits are all '0' has the value 0. */
  lemma ValueZero(n: Numeral)
    requires AllDigits(n.digits) && Value(n) == 0.0
    ensures forall i :: 0 <= i < |n.digits| ==> n.digits[i] == '0'
  {
    ShiftZero(DigitsValue(n.digits), n.places);
    ZeroValueDigits(n.digits);
  }

  /** Every '0' digit string has value 0, and only those. */
  lemma {:induction false} ZeroValueDigits(s: string)
    requires AllDigits(s)
    ensures DigitsValue(s) == 0 <==> forall i :: 0 <= i < |s| ==> s[i] == '0'
  {
    if s != [] {
      ZeroValueDigits(s[..|s| - 1]);
      assert forall i :: 0 <= i < |s| - 1 ==> s[..|s| - 1][i] == s[i];
    }
  }

  // ---------------------------------------------------------------------------
  // Decimal places of a step size

  /** The decimal places the lot-size code reads off the step text: the
      length of `text.rstrip("0").split(".")[1]` when the text holds a '.',
      and 0 otherwise. */
  function FractionDigitCount(stepText: string): (r: nat)
    ensures '.' !in stepText ==> r == 0
    ensures '.' in stepText ==> r <= |stepText| - IndexOf(stepText, '.').value - 1
  {
    if '.' in stepText then
      var stripped := RStripZeros(stepText);
      var i := IndexOf(stepText, '.').value;
      assert stripped[i] == '.';
      assert Split(stripped, '.')[1] == Split(stripped[i + 1..], '.')[0] by {
        assert stripped[..i] == stepText[..i];
        IndexOfFirst(stripped, '.', i);
      }
      |Split(stripped, '.')[1]|
    else
      0
  }

  /** With exactly one '.', at index `i`, the count is the number of characters
      after the '.' once trailing '0's are stripped from the whole text, which
      is the fraction's length once its own trailing '0's are stripped. */
  lemma FractionDigitCountAfterPoint(s: string, i: nat)
    requires i < |s| && s[i] == '.'
    requires '.' !in s[..i] && '.' !in s[i + 1..]
    ensures FractionDigitCount(s) == |RStripZeros(s)| - i - 1
    ensures FractionDigitCount(s) == |RStripZeros(s[i + 1..])|
  {
    var r := RStripZeros(s);
    assert r[i] == '.';
    assert r[..i] == s[..i];
    IndexOfFirst(r, '.', i);
    var tail := r[i + 1..];
    assert forall k :: 0 <= k < |tail| ==> tail[k] == s[i + 1..][k];
    assert '.' !in tail;
    assert Split(r, '.') == [r[..i]] + Split(tail, '.');
    assert Split(tail, '.') == [tail];
    RStripZerosUnique(s[i + 1..], tail);
  }

  /** A step of "0.00100000" counts three decimals. */
  lemma FractionDigitCountOfStep()
    ensures FractionDigitCount("0.00100000") == 3
  {
    FractionDigitCountAfterPoint("0.00100000", 1);
    RStripZerosUnique("00100000", "001");
  }

  /** A whole-number step, with or without a '.', counts none. */
  lemma FractionDigitCountOfWhole()
    ensures FractionDigitCount("1.00000000") == 0
    ensures FractionDigitCount("1") == 0
  {
    FractionDigitCountAfterPoint("1.00000000", 1);
    RStripZerosUnique("00000000", "");
  }

  /** A zero step counts none: everything after the '.' is stripped. */
  lemma FractionDigitCountOfZero()
    ensures FractionDigitCount("0.00000000") == 0
  {
    FractionDigitCountAfterPoint("0.00000000", 1);
    RStripZerosUnique("00000000", "");
  }

  /** What Lex reads: the digits before and after the '.' of the unsigned text. */
  lemma LexParts(text: string)
    requires Lex(text).Some?
    ensures var n := Lex(text).value;
            var body := Unsigned(text);
            && AllDigits(FractionDigits(body))
            && n.digits == WholeDigits(body) + FractionDigits(body)
            && n.places == |FractionDigits(body)|
  {
  }

  /** The text holds a '.' exactly when its unsigned part does. */
  lemma PointInUnsigned(text: string)
    ensures '.' in text <==> '.' in Unsigned(text)
  {
    if |text| > 0 && (text[0] == '-' || text[0] == '+') {
      assert text == [text[0]] + Unsigned(text);
    }
  }

  /** Where the '.' of a numeral stands in the text: after the sign, if any,
      and the whole digits; the fraction digits follow it. */
  lemma PointInText(text: string)
    requires '.' in text
    ensures var body := Unsigned(text);
            var j := |text| - |body| + IndexOf(body, '.').value;
            && j < |text| && text[j] == '.' && '.' !in text[..j]
            && text[j + 1..] == FractionDigits(body)
  {
    var body := Unsigned(text);
    var off := |text| - |body|;
    assert text[off..] == body;
    PointInUnsigned(text);
    var i := IndexOf(body, '.').value;
    var j := off + i;
    assert '.' !in text[..off];
    assert text[..j] == text[..off] + body[..i];
  }

  /** For a numeral with a '.', the count is taken over its fraction digits. */
  lemma CountOverFraction(text: string)
    requires Lex(text).Some? && '.' in text
    ensures FractionDigitCount(text) == |RStripZeros(FractionDigits(Unsigned(text)))|
  {
    var body := Unsigned(text);
    PointInText(text);
    LexParts(text);
    NoPointInDigits(FractionDigits(body));
    FractionDigitCountAfterPoint(text, |text| - |body| + IndexOf(body, '.').value);
  }

  /** A numeral's places are the digits after its '.', and its digits end with
      them; the count is taken over those digits, and is 0 without a '.'. */
  lemma LexFraction(text: string)
    requires Lex(text).Some?
    ensures var n := Lex(text).value;
            var fraction := FractionDigits(Unsigned(text));
            && n.places == |fraction|
            && n.digits[|n.digits| - n.places..] == fraction
            && ('.' in text ==> FractionDigitCount(text) == |RStripZeros(fraction)|)
            && ('.' !in text ==> FractionDigitCount(text) == 0 && n.places == 0)
  {
    var body := Unsigned(text);
    LexParts(text);
    var whole, fraction := WholeDigits(body), FractionDigits(body);
    assert (whole + fraction)[|whole|..] == fraction;
    PointInUnsigned(text);
    if '.' in text {
      CountOverFraction(text);
    }
  }

  /** The same numeral with the trailing '0's of its fraction dropped: what
      remains has exactly the places the lot-size code counts, and the same value. */
  lemma Significant(text: string) returns (m: Numeral)
    requires Lex(text).Some?
    ensures AllDigits(m.digits)
    ensures m.places == FractionDigitCount(text)
    ensures Value(m) == Value(Lex(text).value)
  {
    LexFraction(text);
    if '.' !in text {
      m := Lex(text).value;
    } else {
      m := DropTrailingZeros(Lex(text).value, FractionDigits(Unsigned(text)));
    }
  }

  /** Dropping the '0's that end a numeral's fraction keeps its value. */
  lemma DropTrailingZeros(n: Numeral, fraction: string) returns (m: Numeral)
    requires AllDigits(n.digits) && n.places == |fraction| <= |n.digits|
    requires n.digits[|n.digits| - n.places..] == fraction
    ensures AllDigits(m.digits)
    ensures m.places == |RStripZeros(fraction)|
    ensures Value(m) == Value(n)
  {
    var kept := RStripZeros(fraction);
    var k := |fraction| - |kept|;
    var digits := n.digits[..|n.digits| - n.places] + kept;
    assert n.digits == digits + Zeros(k) by {
      StripsToZeros(fraction);
      assert n.digits == n.digits[..|n.digits| - n.places] + fraction;
    }
    assert AllDigits(digits);
    ValueTrailingZeros(n.negative, digits, |kept|, k);
    m := Numeral(n.negative, digits, |kept|);
    assert n == Numeral(n.negative, digits + Zeros(k), |kept| + k);
  }

  /** What `rstrip("0")` removes is a run of '0's. */
  lemma StripsToZeros(s: string)
    ensures s == RStripZeros(s) + Zeros(|s| - |RStripZeros(s)|)
  {
    var r := RStripZeros(s);
    var z := Zeros(|s| - |r|);
    assert forall i :: 0 <= i < |s| ==> s[i] == (r + z)[i];
  }


  /** The step's value scaled by 10^places is a whole number: the places the
      lot-size code counts are enough to write the step exactly. */
  lemma StepHasPlaces(text: string, v: real)
    requires ParseNumber(text) == Some(v)
    ensures HasPlaces(v, FractionDigitCount(text))
  {
    var m := Significant(text);
    ValueHasPlaces(m);
  }

  /** A step written with only zero digits ("0.00000000", "0") has no decimal places. */
  lemma ZeroStepHasNoPlaces(text: string)
    requires ParseNumber(text) == Some(0.0)
    ensures FractionDigitCount(text) == 0
  {
    var n := Lex(text).value;
    LexFraction(text);
    if '.' in text {
      ValueZero(n);
      ZeroTail(n.digits, n.places);
    }
  }

  /** The last `places` digits of an all-'0' digit string strip to nothing. */
  lemma ZeroTail(digits: string, places: nat)
    requires places <= |digits|
    requires forall i :: 0 <= i < |digits| ==> digits[i] == '0'
    ensures RStripZeros(digits[|digits| - places..]) == []
  {
    var tail := digits[|digits| - places..];
    assert forall i :: 0 <= i < |tail| ==> tail[i] == '0';
    RStripZerosUnique(tail, []);
  }

  // ---------------------------------------------------------------------------
  // Fixed-precision rendering

  /** Rounding to the nearest integer, ties to the even one (Python's rule
      when formatting an exactly representable tie). */
  function RoundHalfEven(x: real): (n: int)
    ensures x - 0.5 <= n as real <= x + 0.5
    ensures (n as real - x == 0.5 || x - n as real == 0.5) ==> n % 2 == 0
  {
    var f := x.Floor;
    var gap := x - f as real;
    if gap < 0.5 then f
    else if gap > 0.5 then f + 1
    else if f % 2 == 0 then f
    else f + 1
  }

  lemma RoundHalfEvenMonotone(x: real, y: real)
    requires x <= y
    ensures RoundHalfEven(x) <= RoundHalfEven(y)
  {
  }

  lemma RoundHalfEvenOfInteger(x: real)
    requires IsInteger(x)
    ensures RoundHalfEven(x) as real == x
  {
    var n, m := RoundHalfEven(x), x.Floor;
    assert -0.5 <= (n - m) as real <= 0.5;
  }

  /** The exact value of `f"{x:.{places}f}"`. */
  function Render(x: real, places: nat): real {
    Shift(RoundHalfEven(x * TenTo(places)), places)
  }

  /** A value already written with at most `places` decimals renders unchanged. */
  lemma RenderExact(x: real, places: nat)
    requires HasPlaces(x, places)
    ensures Render(x, places) == x
  {
    assert RoundHalfEven(x * TenTo(places)) as real == x * TenTo(places) by {
      RoundHalfEvenOfInteger(x * TenTo(places));
    }
    ShiftOfScaled(x, RoundHalfEven(x * TenTo(places)), places);
  }

  lemma RenderMonotone(x: real, y: real, places: nat)
    requires x <= y
    ensures Render(x, places) <= Render(y, places)
  {
    assert RoundHalfEven(x * TenTo(places)) <= RoundHalfEven(y * TenTo(places)) by {
      ScaleMonotone(x, y, TenTo(places));
      RoundHalfEvenMonotone(x * TenTo(places), y * TenTo(places));
    }
    ShiftMonotone(RoundHalfEven(x * TenTo(places)), RoundHalfEven(y * TenTo(places)), places);
  }

  /** A rendered value has at most `places` decimals. */
  lemma RenderHasPlaces(x: real, places: nat)
    ensures HasPlaces(Render(x, places), places)
  {
    ShiftHasPlaces(Render(x, places), RoundHalfEven(x * TenTo(places)), places);
  }

  /** At no decimal places the rendering is the nearest whole number. */
  lemma RenderAtNoPlaces(x: real)
    ensures Render(x, 0) == RoundHalfEven(x) as real
  {
    var n := RoundHalfEven(x);
    assert TenTo(0) == 1.0;
    assert x * TenTo(0) == x;
    ShiftOfScaled(n as real, n, 0);
  }

  /** Digits with a '.' before the last `places` of them (none when `places` is 0). */
  function PointAt(digits: string, places: nat): string
    requires |digits| > places
  {
    var cut := |digits| - places;
    if places == 0 then digits else digits[..cut] + "." + digits[cut..]
  }

  /** Python's `f"{x:.{places}f}"`: a '-' for a negative rounded value, the
      rounded digits padded to at least one integer digit, and a '.' before
      the last `places` digits when `places > 0`. */
  function FormatFixed(x: real, places: nat): string {
    var n := RoundHalfEven(x * TenTo(places));
    var digits := PadLeft(NatToDigits(if n < 0 then -n else n), places + 1);
    (if n < 0 then "-" else "") + PointAt(digits, places)
  }

  lemma NoPointInDigits(s: string)
    requires AllDigits(s)
    ensures '.' !in s && IndexOf(s, '.') == None
  {
  }

  lemma LexUnsigned(negative: bool, body: string)
    requires |body| > 0 && IsDigit(body[0])
    ensures var text := (if negative then "-" else "") + body;
            Unsigned(text) == body && (|text| > 0 && text[0] == '-' <==> negative)
  {
  }

  lemma PointAtParts(digits: string, places: nat)
    requires AllDigits(digits) && |digits| > places
    ensures var body := PointAt(digits, places);
            && |body| > 0 && IsDigit(body[0])
            && AllDigits(WholeDigits(body)) && AllDigits(FractionDigits(body))
            && WholeDigits(body) + FractionDigits(body) == digits
            && |FractionDigits(body)| == places
  {
    var body := PointAt(digits, places);
    var cut := |digits| - places;
    if places == 0 {
      NoPointInDigits(body);
      assert digits + [] == digits;
    } else {
      assert WholeDigits(body) == digits[..cut] && FractionDigits(body) == digits[cut..] by {
        NoPointInDigits(digits[..cut]);
        assert body == digits[..cut] + ['.'] + digits[cut..];
        assert body[..cut] == digits[..cut];
        IndexOfFirst(body, '.', cut);
        assert body[cut + 1..] == digits[cut..];
      }
      assert AllDigits(digits[..cut]) && AllDigits(digits[cut..]);
      assert digits[..cut] + digits[cut..] == digits;
    }
  }

  lemma LexPointAt(negative: bool, digits: string, places: nat)
    requires AllDigits(digits) && |digits| > places
    ensures Lex((if negative then "-" else "") + PointAt(digits, places))
              == Some(Numeral(negative, digits, places))
  {
    PointAtParts(digits, places);
    LexUnsigned(negative, PointAt(digits, places));
  }

  lemma PointFractionLex(f: string)
    requires AllDigits(f) && |f| > 0
    ensures AllDigits("0" + f)
    ensures Lex("0." + f) == Some(Numeral(false, "0" + f, |f|))
  {
    var digits := "0" + f;
    assert AllDigits(digits) by {
      assert forall i :: 1 <= i < |digits| ==> digits[i] == f[i - 1];
    }
    assert PointAt(digits, |f|) == "0." + f by {
      assert digits[..1] == "0" && digits[1..] == f;
      assert "0" + "." + f == "0." + f;
    }
    assert "" + ("0." + f) == "0." + f;
    LexPointAt(false, digits, |f|);
  }

  /** `float("0." + f)` for a string of digits `f`. */
  lemma ParsePointFraction(f: string)
    requires AllDigits(f) && |f| > 0
    ensures ParseNumber("0." + f) == Some(Shift(DigitsValue(f), |f|))
  {
    PointFractionLex(f);
    assert DigitsValue("0" + f) == DigitsValue(f) by {
      LeadingZeros(1, f);
      assert Zeros(1) == "0";
    }
  }

  /** The numeral the fixed-precision rendering writes for the integer `n`
      scaled by 10^-places denotes exactly that value. */
  lemma SignedNumeralValue(n: int, places: nat)
    ensures var m: nat := if n < 0 then -n else n;
            var digits := PadLeft(NatToDigits(m), places + 1);
            Value(Numeral(n < 0, digits, places)) == Shift(n, places)
  {
    var m: nat := if n < 0 then -n else n;
    var digits := PadLeft(NatToDigits(m), places + 1);
    assert DigitsValue(digits) == m;
    if n < 0 {
      ShiftNegate(m, places);
    }
  }

  /** `float(f"{x:.{places}f}")` reads back exactly the rounded value. */
  lemma FormatFixedRoundTrip(x: real, places: nat)
    ensures ParseNumber(FormatFixed(x, places)) == Some(Render(x, places))
  {
    var n := RoundHalfEven(x * TenTo(places));
    var m: nat := if n < 0 then -n else n;
    var digits := PadLeft(NatToDigits(m), places + 1);
    assert FormatFixed(x, places) == (if n < 0 then "-" else "") + PointAt(digits, places);
    LexPointAt(n < 0, digits, places);
    SignedNumeralValue(n, places);
  }

  /** The lot-size code's `float(f"{qty:.{decimals}f}")`. */
  function Reformat(x: real, places: nat): (r: real)
    ensures r == Render(x, places)
  {
    FormatFixedRoundTrip(x, places);
    ParseNumber(FormatFixed(x, places)).value
  }
}
