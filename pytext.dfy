/**
 * The few Python string built-ins the core relies on, written out as Dafny
 * functions over `string` (a sequence of Unicode scalar values):
 * `str.isspace` (the `\s` class of `re`), the `\w` class, `str.lower`,
 * the `in` operator on strings and `str(int)`.
 */
module PyText {
  import opened Wrappers

  // ---------------------------------------------------------------------
  // Character classes
  // ---------------------------------------------------------------------

  /** `\s` in a `str` pattern: exactly the characters for which `str.isspace()` holds. */
  predicate IsSpace(c: char) {
    || ('\t' <= c <= '\r')               // \t \n \v \f \r
    || ('\U{1C}' <= c <= '\U{1F}')       // file, group, record and unit separators
    || c == ' '
    || c == '\U{85}' || c == '\U{A0}' || c == '\U{1680}'
    || ('\U{2000}' <= c <= '\U{200A}')
    || c == '\U{2028}' || c == '\U{2029}' || c == '\U{202F}' || c == '\U{205F}' || c == '\U{3000}'
  }

  predicate IsAsciiLetter(c: char) {
    ('a' <= c <= 'z') || ('A' <= c <= 'Z')
  }

  predicate IsDigit(c: char) {
    '0' <= c <= '9'
  }

  /** `[a-zA-Z0-9_]` read as plain ASCII. */
  predicate IsAsciiWordChar(c: char) {
    IsAsciiLetter(c) || IsDigit(c) || c == '_'
  }

  /**
   * The four non-ASCII letters that a `[a-z]` or `[A-Z]` range also matches
   * once `re.IGNORECASE` is set on a `str` pattern: U+0130 (capital I with
   * dot above), U+0131 (dotless i), U+017F (long s) and U+212A (Kelvin sign).
   */
  predicate IsCaseFoldedLatin(c: char) {
    c == '\U{130}' || c == '\U{131}' || c == '\U{17F}' || c == '\U{212A}'
  }

  /** `\w` in a `str` pattern (see the README for the non-ASCII letters left out). */
  predicate IsWordChar(c: char) {
    IsAsciiWordChar(c) || IsCaseFoldedLatin(c)
  }

  // ---------------------------------------------------------------------
  // str.lower
  // ---------------------------------------------------------------------

  function LowerChar(c: char): (r: char)
    ensures 'A' <= c <= 'Z' ==> r as int == c as int + 32
    ensures !('A' <= c <= 'Z') ==> r == c
  {
    if 'A' <= c <= 'Z' then (c as int + 32) as char else c
  }

  /** `s.lower()`, on the ASCII letters. */
  function Lower(s: string): string {
    seq(|s|, i requires 0 <= i < |s| => LowerChar(s[i]))
  }

  // ---------------------------------------------------------------------
  // needle in hay
  // ---------------------------------------------------------------------

  /** `needle` occurs in `hay` starting at index `i`. */
  ghost predicate OccursAt(hay: string, needle: string, i: int) {
    0 <= i && i + |needle| <= |hay| && hay[i..i + |needle|] == needle
  }

  /** Scans `hay` left to right from index `i` for an occurrence of `needle`. */
  function ContainsFrom(hay: string, needle: string, i: nat): bool
    requires i <= |hay|
    decreases |hay| - i
  {
    if i + |needle| > |hay| then false
    else if hay[i..i + |needle|] == needle then true
    else i < |hay| && ContainsFrom(hay, needle, i + 1)
  }

  lemma {:induction false} ContainsFromFindsOccurrence(hay: string, needle: string, i: nat)
    requires i <= |hay|
    ensures ContainsFrom(hay, needle, i) <==> exists j :: i <= j && OccursAt(hay, needle, j)
    decreases |hay| - i
  {
    if i + |needle| > |hay| {
    } else if hay[i..i + |needle|] == needle {
      assert OccursAt(hay, needle, i);
    } else if i < |hay| {
      ContainsFromFindsOccurrence(hay, needle, i + 1);
      assert !OccursAt(hay, needle, i);
    }
  }

  /** Python's `needle in hay` for two strings. */
  function Contains(hay: string, needle: string): bool {
    ContainsFrom(hay, needle, 0)
  }

  /** `needle in hay` holds exactly when `needle` occurs somewhere in `hay`. */
  lemma ContainsIsSubstring(hay: string, needle: string)
    ensures Contains(hay, needle) <==> exists j :: OccursAt(hay, needle, j)
  {
    ContainsFromFindsOccurrence(hay, needle, 0);
  }

  // ---------------------------------------------------------------------
  // str(int) and its inverse
  // ---------------------------------------------------------------------

  predicate AllDigits(s: string) {
    forall i :: 0 <= i < |s| ==> IsDigit(s[i])
  }

  function DigitChar(d: nat): (c: char)
    requires d < 10
    ensures IsDigit(c) && c as int - '0' as int == d
  {
    ('0' as int + d) as char
  }

  /** Decimal digits of `n`, most significant first, with no leading zero. */
  function NatToDecimal(n: nat): (s: string)
    ensures |s| >= 1 && AllDigits(s)
    ensures |s| > 1 ==> s[0] != '0'
    ensures n < 10 <==> |s| == 1
  {
    if n < 10 then [DigitChar(n)] else NatToDecimal(n / 10) + [DigitChar(n % 10)]
  }

  /** `str(n)` / `f"{n}"` for a Python `int`. */
  function IntToDecimal(n: int): (s: string)
    ensures |s| >= 1
    ensures forall i :: 0 <= i < |s| ==> s[i] != ' '
    ensures n >= 0 <==> s[0] != '-'
  {
    if n < 0 then "-" + NatToDecimal(-n) else NatToDecimal(n)
  }

  /**
   * The default of `sys.get_int_max_str_digits()`: converting an `int` with
   * more decimal digits than this to `str` raises `ValueError`.
   */
  const IntMaxStrDigits := 4300

  /** Number of decimal digits of `n`, sign not counted. */
  function DigitCount(n: int): nat {
    |NatToDecimal(if n < 0 then -n else n)|
  }

  function Pow10(k: nat): (r: nat)
    ensures r >= 1
  {
    if k == 0 then 1 else 10 * Pow10(k - 1)
  }

  lemma {:induction false} NatDigitsBound(n: nat, k: nat)
    requires k >= 1
    ensures |NatToDecimal(n)| <= k <==> n < Pow10(k)
  {
    if n >= 10 {
      if k == 1 {
        assert Pow10(1) == 10;
      } else {
        NatDigitsBound(n / 10, k - 1);
        assert n / 10 < Pow10(k - 1) <==> n < 10 * Pow10(k - 1);
      }
    } else {
      Pow10AtLeastTen(k);
    }
  }

  lemma {:induction false} Pow10AtLeastTen(k: nat)
    requires k >= 1
    ensures Pow10(k) >= 10
  {
    if k > 1 {
      Pow10AtLeastTen(k - 1);
    }
  }

  /** `n` has at most `k` decimal digits exactly when its magnitude is below `10^k`. */
  lemma DigitCountBound(n: int, k: nat)
    requires k >= 1
    ensures DigitCount(n) <= k <==> 0 - Pow10(k) < n < Pow10(k)
  {
    NatDigitsBound(if n < 0 then -n else n, k);
  }

  /** The value of a string of decimal digits. */
  function DecimalValue(s: string): nat
    requires AllDigits(s)
  {
    if s == [] then 0 else 10 * DecimalValue(s[..|s| - 1]) + (s[|s| - 1] as int - '0' as int)
  }

  /** `int(s)` restricted to an optional minus sign followed by decimal digits. */
  function ParseInt(s: string): (r: Option<int>)
    ensures r.Some? ==> |s| >= 1
  {
    if |s| >= 2 && s[0] == '-' && AllDigits(s[1..]) then Some(-(DecimalValue(s[1..]) as int))
    else if |s| >= 1 && AllDigits(s) then Some(DecimalValue(s))
    else None
  }

  lemma {:induction false} NatToDecimalValue(n: nat)
    ensures DecimalValue(NatToDecimal(n)) == n
  {
    var s := NatToDecimal(n);
    if n >= 10 {
      NatToDecimalValue(n / 10);
      assert s[..|s| - 1] == NatToDecimal(n / 10);
    }
  }

  /** `int(str(n)) == n`: the decimal rendering of an integer loses nothing. */
  lemma IntDecimalRoundTrip(n: int)
    ensures ParseInt(IntToDecimal(n)) == Some(n)
  {
    if n < 0 {
      NatToDecimalValue(-n);
      assert IntToDecimal(n)[1..] == NatToDecimal(-n);
    } else {
      NatToDecimalValue(n);
    }
  }
}
