/** The pieces of java.lang the core relies on, stated in Dafny's terms:
    nullable strings, String.isBlank, String.startsWith, the exceptions the
    services throw, 32-bit int arithmetic, Integer.parseInt and
    Integer.toString. */
module JavaLang {
  import opened Wrappers

  /** A Java String reference: None stands for null. */
  type JString = Option<string>

  /** The exceptions the services and repositories throw, with their messages. */
  datatype Exception =
    | IllegalArgument(message: string)
    | Runtime(message: string)
    | NullPointer

  // ---------------------------------------------------------------------
  // Strings

  /** Character.isWhitespace: the Unicode space, line and paragraph
      separators except the three non-breaking spaces, plus the ASCII
      controls U+0009..U+000D and U+001C..U+001F. */
  predicate IsWhitespace(c: char) {
    || '\U{0009}' <= c <= '\U{000D}'
    || '\U{001C}' <= c <= '\U{0020}'
    || c == '\U{1680}'
    || '\U{2000}' <= c <= '\U{2006}'
    || '\U{2008}' <= c <= '\U{200A}'
    || c == '\U{2028}' || c == '\U{2029}'
    || c == '\U{205F}' || c == '\U{3000}'
  }

  /** String.isBlank: empty or only whitespace code points. */
  predicate IsBlank(s: string) {
    forall i :: 0 <= i < |s| ==> IsWhitespace(s[i])
  }

  /** The recurring guard `s == null || s.isBlank()`. */
  predicate NullOrBlank(s: JString) {
    s.None? || IsBlank(s.value)
  }

  /** The recurring guard `s != null && s.isBlank()`. */
  predicate PresentButBlank(s: JString) {
    s.Some? && IsBlank(s.value)
  }

  /** String.valueOf, as string concatenation renders a reference. */
  function StringValueOf(s: JString): string {
    if s.Some? then s.value else "null"
  }

  /** The setter guarded by `if (incoming != null)`: a null incoming value
      keeps the current one. */
  function Overwrite<T>(current: Option<T>, incoming: Option<T>): Option<T> {
    if incoming.Some? then incoming else current
  }

  /** String.startsWith: a literal prefix test. */
  predicate StartsWith(s: string, prefix: string) {
    |prefix| <= |s| && s[..|prefix|] == prefix
  }

  lemma {:induction false} StartsWithConcat(prefix: string, rest: string)
    ensures StartsWith(prefix + rest, prefix)
    ensures (prefix + rest)[|prefix|..] == rest
  {
    assert (prefix + rest)[..|prefix|] == prefix;
  }

  lemma StartsWithExtend(s: string, prefix: string, more: string)
    requires StartsWith(s, prefix)
    ensures StartsWith(s + more, prefix)
  {
    assert (s + more)[..|prefix|] == s[..|prefix|];
  }

  // ---------------------------------------------------------------------
  // 32-bit int

  const INT_MIN: int := -0x8000_0000
  const INT_MAX: int := 0x7FFF_FFFF

  predicate IsInt32(x: int) {
    INT_MIN <= x <= INT_MAX
  }

  /** Two's-complement wrap-around of Java `int` arithmetic. */
  function Wrap32(x: int): (r: int)
    ensures IsInt32(r)
    ensures IsInt32(x) ==> r == x
    ensures (r - x) % 0x1_0000_0000 == 0
  {
    (x - INT_MIN) % 0x1_0000_0000 + INT_MIN
  }

  // ---------------------------------------------------------------------
  // Decimal text

  predicate IsDigit(c: char) {
    '0' <= c <= '9'
  }

  predicate AllDigits(s: string) {
    forall i :: 0 <= i < |s| ==> IsDigit(s[i])
  }

  function DigitValue(c: char): (d: nat)
    requires IsDigit(c)
    ensures d < 10
  {
    (c as int) - ('0' as int)
  }

  function DigitChar(d: nat): (c: char)
    requires d < 10
    ensures IsDigit(c) && DigitValue(c) == d
  {
    (('0' as int) + d) as char
  }

  /** The value of a string of decimal digits, most significant first. */
  function DigitsValue(s: string): nat
    requires AllDigits(s)
  {
    if |s| == 0 then 0 else DigitsValue(s[..|s| - 1]) * 10 + DigitValue(s[|s| - 1])
  }

  /** Whether s starts with a sign character. */
  predicate HasSign(s: string) {
    |s| > 0 && (s[0] == '-' || s[0] == '+')
  }

  /** The text after an optional leading sign. */
  function Magnitude(s: string): string {
    if HasSign(s) then s[1..] else s
  }

  /** Decimal notation: an optional sign and at least one digit after it. */
  predicate IsDecimal(s: string) {
    |Magnitude(s)| > 0 && AllDigits(Magnitude(s))
  }

  /** The value decimal notation denotes, whatever its size. */
  function DecimalValue(s: string): int
    requires IsDecimal(s)
  {
    var magnitude: int := DigitsValue(Magnitude(s));
    if HasSign(s) && s[0] == '-' then -magnitude else magnitude
  }

  /** Integer.parseInt(s) in radix 10: an optional leading '+' or '-'
      followed by at least one digit, and a value that fits in an int.
      None stands for the NumberFormatException thrown otherwise. */
  function ParseInt(s: string): (r: Option<int>)
    ensures r.Some? ==> IsInt32(r.value)
    ensures r.Some? ==> |s| > 0
  {
    if |s| == 0 then None
    else if s[0] == '-' || s[0] == '+' then
      if |s| == 1 || !AllDigits(s[1..]) then None
      else
        var magnitude: int := DigitsValue(s[1..]);
        var v: int := if s[0] == '-' then -magnitude else magnitude;
        if IsInt32(v) then Some(v) else None
    else if AllDigits(s) then
      var v := DigitsValue(s);
      if IsInt32(v) then Some(v) else None
    else None
  }

  /** The decimal digits of n, with no leading zero. */
  function NatToString(n: nat): (s: string)
    ensures |s| > 0 && AllDigits(s)
    ensures |s| > 1 ==> s[0] != '0'
  {
    if n < 10 then [DigitChar(n)] else NatToString(n / 10) + [DigitChar(n % 10)]
  }

  /** Integer.toString(n) (and String.valueOf, string concatenation of an int). */
  function IntToString(n: int): (s: string)
    ensures |s| > 0
  {
    if n < 0 then "-" + NatToString(-n) else NatToString(n)
  }

  /** Appending a digit to a positive number appends its character. */
  lemma NatToStringAppend(n: nat, d: nat)
    requires 0 < n && d < 10
    ensures NatToString(10 * n + d) == NatToString(n) + [DigitChar(d)]
  {
    assert (10 * n + d) / 10 == n && (10 * n + d) % 10 == d;
  }

  lemma {:induction false} DigitsValueOfNatToString(n: nat)
    ensures DigitsValue(NatToString(n)) == n
  {
    var s := NatToString(n);
    if n >= 10 {
      DigitsValueOfNatToString(n / 10);
      assert s[..|s| - 1] == NatToString(n / 10);
    }
  }

  /** Integer.parseInt succeeds exactly on decimal notation whose value fits
      in an int, and then yields that value: an empty text, a lone sign, a
      non-digit or an out-of-range value fails. */
  lemma ParseIntSucceedsOnDecimal(s: string)
    ensures ParseInt(s).Some? <==> IsDecimal(s) && IsInt32(DecimalValue(s))
    ensures ParseInt(s).Some? ==> ParseInt(s).value == DecimalValue(s)
  {
    if |s| > 0 && !HasSign(s) {
      assert Magnitude(s) == s;
    }
  }

  /** A decimal numeral above Integer.MAX_VALUE does not parse. */
  lemma ParseIntRejectsOverflow(n: nat)
    requires n > INT_MAX
    ensures ParseInt(NatToString(n)) == None
  {
    DigitsValueOfNatToString(n);
    assert IsDigit(NatToString(n)[0]);
    ParseIntSucceedsOnDecimal(NatToString(n));
  }

  /** Integer.parseInt inverts Integer.toString on every int. */
  lemma ParseIntToString(n: int)
    requires IsInt32(n)
    ensures ParseInt(IntToString(n)) == Some(n)
  {
    var s := IntToString(n);
    if n < 0 {
      assert s[1..] == NatToString(-n);
      DigitsValueOfNatToString(-n);
    } else {
      DigitsValueOfNatToString(n);
      assert IsDigit(s[0]);
    }
  }
}
