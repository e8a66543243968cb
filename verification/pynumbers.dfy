/** Which cell texts Python's `int(x)` and `float(x)` accept, and the decimal
    text `"%d" % n` produces. Only ASCII digits are modelled: surrounding
    whitespace, an optional sign, decimal digits with single
    underscores between digits, and for `float` a fraction, an exponent and the
    case-insensitive words `inf`, `infinity` and `nan`. */
module PyNumbers {
  import opened PyText

  predicate IsDigit(c: char) {
    '0' <= c <= '9'
  }

  /** A run of decimal digits in which an underscore may stand between two
      digits (Python's `digitpart`). */
  predicate IsDigitPart(s: string) {
    && |s| > 0
    && forall i {:trigger s[i]} :: 0 <= i < |s| ==>
         IsDigit(s[i]) || (s[i] == '_' && 0 < i < |s| - 1 && IsDigit(s[i - 1]) && IsDigit(s[i + 1]))
  }

  /** `s` without one leading `+` or `-`. */
  function DropSign(s: string): (r: string)
    ensures |s| > 0 && (s[0] == '+' || s[0] == '-') ==> r == s[1..]
    ensures !(|s| > 0 && (s[0] == '+' || s[0] == '-')) ==> r == s
  {
    if |s| > 0 && (s[0] == '+' || s[0] == '-') then s[1..] else s
  }

  /** The characters `int()` and `float()` skip around a number. Below U+007F
      CPython accepts only space, tab, line feed, vertical tab, form feed and
      carriage return; every character above it that `str.isspace` accepts is
      first turned into a space. So these are the `str.isspace` characters
      without the separators U+001C to U+001F. */
  predicate IsNumberSpace(c: char) {
    IsSpace(c) && !('\U{1c}' <= c <= '\U{1f}')
  }

  /** The text `int()` and `float()` parse: the cell without the number
      whitespace at either end. */
  function NumberText(s: string): string {
    StripWith(s, IsNumberSpace)
  }

  /** `int(s)` does not raise `ValueError` (base 10). */
  predicate IsIntLiteral(s: string) {
    IsDigitPart(DropSign(NumberText(s)))
  }

  function AsciiLower(c: char): char {
    if 'A' <= c <= 'Z' then (c as int + 32) as char else c
  }

  function Lower(s: string): (r: string)
    ensures |r| == |s|
  {
    seq(|s|, i requires 0 <= i < |s| => AsciiLower(s[i]))
  }

  /** The spelled-out floats, matched without regard to case. */
  predicate IsSpecialFloat(t: string) {
    var l := Lower(t);
    l == "inf" || l == "infinity" || l == "nan"
  }

  /** Index of the first `c` in `s`, or `|s|` when there is none. */
  function IndexOf(s: string, c: char): (k: nat)
    ensures k <= |s|
    ensures k < |s| ==> s[k] == c
    ensures forall i :: 0 <= i < k ==> s[i] != c
    decreases |s|
  {
    if |s| == 0 then 0
    else if s[0] == c then 0
    else 1 + IndexOf(s[1..], c)
  }

  /** Index of the first `e` or `E` in `s`, or `|s|` when there is none. */
  function ExponentStart(s: string): (k: nat)
    ensures k <= |s|
    ensures k < |s| ==> s[k] == 'e' || s[k] == 'E'
    ensures forall i :: 0 <= i < k ==> s[i] != 'e' && s[i] != 'E'
    decreases |s|
  {
    if |s| == 0 then 0
    else if s[0] == 'e' || s[0] == 'E' then 0
    else 1 + ExponentStart(s[1..])
  }

  /** `digitpart "." [digitpart]`, `"." digitpart` or `digitpart`. */
  predicate IsMantissa(m: string) {
    var d := IndexOf(m, '.');
    if d == |m| then IsDigitPart(m)
    else
      || (IsDigitPart(m[..d]) && (d + 1 == |m| || IsDigitPart(m[d + 1..])))
      || (d == 0 && IsDigitPart(m[1..]))
  }

  /** `("e" | "E") ["+" | "-"] digitpart` */
  predicate IsExponent(x: string) {
    |x| >= 2 && (x[0] == 'e' || x[0] == 'E') && IsDigitPart(DropSign(x[1..]))
  }

  /** A decimal float without sign: mantissa, then an optional exponent. */
  predicate IsDecimalFloat(t: string) {
    var e := ExponentStart(t);
    IsMantissa(t[..e]) && (e == |t| || IsExponent(t[e..]))
  }

  /** `float(s)` does not raise `ValueError`. */
  predicate IsFloatLiteral(s: string) {
    var t := DropSign(NumberText(s));
    IsSpecialFloat(t) || IsDecimalFloat(t)
  }

  /** Whatever `int` accepts, `float` accepts too: the fact that makes trying
      INTEGER before REAL meaningful. */
  lemma IntIsFloat(s: string)
    requires IsIntLiteral(s)
    ensures IsFloatLiteral(s)
  {
    var t := DropSign(NumberText(s));
    assert IsDigitPart(t);
    assert ExponentStart(t) == |t|;
    assert t[..|t|] == t;
    assert IndexOf(t, '.') == |t|;
  }

  /** A blank cell (empty or all `str.isspace` whitespace, the separators
      U+001C to U+001F included) is neither an int nor a float. */
  lemma BlankIsNotNumber(s: string)
    requires forall i :: 0 <= i < |s| ==> IsSpace(s[i])
    ensures !IsIntLiteral(s) && !IsFloatLiteral(s)
  {
    var r := NumberText(s);
    StripTrims(s, IsNumberSpace);
    var a: nat :| TrimmedAt(s, a, r, IsNumberSpace);
    if r == [] {
      assert DropSign(r) == [];
      assert Lower([]) == [];
      assert ExponentStart([]) == 0;
      assert IndexOf([], '.') == 0;
    } else {
      assert r[0] == s[a];
      SpaceFirstIsNotNumber(r);
    }
  }

  /** Text that starts with whitespace is no number once the sign is dropped. */
  lemma SpaceFirstIsNotNumber(r: string)
    requires |r| > 0 && IsSpace(r[0])
    ensures !IsDigitPart(DropSign(r))
    ensures !IsSpecialFloat(DropSign(r)) && !IsDecimalFloat(DropSign(r))
  {
    assert DropSign(r) == r;
    assert Lower(r)[0] == r[0];
    SpaceFirstIsNotDecimal(r);
  }

  /** Text that starts with whitespace has no mantissa in front. */
  lemma SpaceFirstIsNotDecimal(r: string)
    requires |r| > 0 && IsSpace(r[0])
    ensures !IsDecimalFloat(r)
  {
    var e := ExponentStart(r);
    assert e > 0;
    var m := r[..e];
    assert m[0] == r[0];
    var d := IndexOf(m, '.');
    assert d > 0;
    if d < |m| {
      assert m[..d][0] == r[0];
    }
  }

  /** An information separator (U+001C to U+001F) in front of a cell makes
      `int()` and `float()` raise, although `str.strip()` would remove it. */
  lemma SeparatorFirstIsNotNumber(s: string)
    requires |s| > 0 && '\U{1c}' <= s[0] <= '\U{1f}'
    ensures !IsIntLiteral(s) && !IsFloatLiteral(s)
  {
    var r := NumberText(s);
    StripTrims(s, IsNumberSpace);
    var a: nat :| TrimmedAt(s, a, r, IsNumberSpace);
    assert a == 0 && |r| > 0;
    assert r[0] == s[0];
    SpaceFirstIsNotNumber(r);
  }

  function DigitChar(d: nat): char
    requires d < 10
  {
    ('0' as int + d) as char
  }

  predicate AllDigits(s: string) {
    forall i :: 0 <= i < |s| ==> IsDigit(s[i])
  }

  /** The number a string of decimal digits denotes. */
  function DigitsValue(s: string): nat
    requires AllDigits(s)
    decreases |s|
  {
    if |s| == 0 then 0
    else DigitsValue(s[..|s| - 1]) * 10 + (s[|s| - 1] as int - '0' as int)
  }

  /** `"%d" % n` for a non-negative `n`: decimal digits without leading
      zeros that denote `n`. */
  function NatToString(n: nat): (r: string)
    ensures |r| > 0 && AllDigits(r)
    ensures DigitsValue(r) == n
    ensures r[0] == '0' ==> r == "0"
    decreases n
  {
    if n < 10 then [DigitChar(n)]
    else
      var r := NatToString(n / 10) + [DigitChar(n % 10)];
      assert r[..|r| - 1] == NatToString(n / 10);
      r
  }

  /** The decimal text of a row index is itself an int literal. */
  lemma NatToStringIsInt(n: nat)
    ensures IsIntLiteral(NatToString(n))
  {
    var r := NatToString(n);
    assert !IsNumberSpace(r[0]) && !IsNumberSpace(r[|r| - 1]);
    StripUntouched(r, IsNumberSpace);
    assert r[0] != '+' && r[0] != '-';
    assert DropSign(r) == r;
    assert IsDigitPart(r);
  }
}
