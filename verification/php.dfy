/**
 * The pieces of PHP and WordPress string semantics the plugin relies on:
 * truthiness and `empty()`, `trim`, `sanitize_text_field`, `intval`/`absint`,
 * loose `==` between strings (as `in_array` uses it), and single-needle `str_replace`.
 */
module Php {
  import Decimal

  /** A string converts to `false` (and `empty()` holds of it) exactly when it is "" or "0". */
  predicate Falsy(s: string) {
    s == "" || s == "0"
  }

  /** The characters `trim()` strips by default: space, tab, LF, CR, NUL and vertical tab. */
  predicate IsTrimChar(c: char) {
    c == ' ' || c == '\t' || c == '\n' || c == '\r' || c == '\0' || c as int == 11
  }

  /** How many trim characters `s` starts with. */
  function LeadingTrim(s: string): (n: nat)
    ensures n <= |s|
    ensures forall i :: 0 <= i < n ==> IsTrimChar(s[i])
    ensures n == |s| || !IsTrimChar(s[n])
    decreases |s|
  {
    if s != [] && IsTrimChar(s[0]) then 1 + LeadingTrim(s[1..]) else 0
  }

  /** How many trim characters `s` ends with. */
  function TrailingTrim(s: string): (n: nat)
    ensures n <= |s|
    ensures forall i :: |s| - n <= i < |s| ==> IsTrimChar(s[i])
    ensures n == |s| || !IsTrimChar(s[|s| - n - 1])
    decreases |s|
  {
    if s != [] && IsTrimChar(s[|s| - 1]) then 1 + TrailingTrim(s[..|s| - 1]) else 0
  }

  /**
   * `trim($s)`: `s` without its leading and trailing trim characters;
   * only trim characters are removed.
   */
  function Trim(s: string): (r: string)
    ensures r == [] || (!IsTrimChar(r[0]) && !IsTrimChar(r[|r| - 1]))
    ensures forall i :: 0 <= i < LeadingTrim(s) ==> IsTrimChar(s[i])
    ensures forall i :: LeadingTrim(s) + |r| <= i < |s| ==> IsTrimChar(s[i])
  {
    var a := LeadingTrim(s);
    var t := s[a..];
    var b := TrailingTrim(t);
    var r := t[..|t| - b];
    forall i | a + |r| <= i < |s| ensures IsTrimChar(s[i]) {
      assert s[i] == t[i - a];
    }
    r
  }

  /** A string that neither starts nor ends with a trim character is its own trim. */
  lemma TrimOfTrimmed(s: string)
    requires s == [] || (!IsTrimChar(s[0]) && !IsTrimChar(s[|s| - 1]))
    ensures Trim(s) == s
  {
  }

  /** The characters `sanitize_text_field` folds into a single space. */
  predicate IsCollapsible(c: char) {
    c == '\r' || c == '\n' || c == '\t' || c == ' '
  }

  /** The characters of `s` that are not collapsible whitespace, in order. */
  function Visible(s: string): string
    decreases |s|
  {
    if s == [] then [] else (if IsCollapsible(s[0]) then [] else [s[0]]) + Visible(s[1..])
  }

  /** How many collapsible whitespace characters `s` starts with. */
  function RunLength(s: string): (n: nat)
    ensures n <= |s|
    ensures forall i :: 0 <= i < n ==> IsCollapsible(s[i])
    ensures n == |s| || !IsCollapsible(s[n])
    decreases |s|
  {
    if s != [] && IsCollapsible(s[0]) then 1 + RunLength(s[1..]) else 0
  }

  /** `s` without its leading run of collapsible whitespace. */
  function DropRun(s: string): (r: string)
    ensures r == [] || !IsCollapsible(r[0])
    ensures s != [] && IsCollapsible(s[0]) ==> |r| < |s|
  {
    s[RunLength(s)..]
  }

  /** Dropping leading whitespace keeps every visible character. */
  lemma {:induction false} DropRunVisible(s: string)
    ensures Visible(DropRun(s)) == Visible(s)
    decreases |s|
  {
    if s != [] && IsCollapsible(s[0]) {
      DropRunVisible(s[1..]);
    }
  }

  /**
   * `preg_replace('/[\r\n\t ]+/', ' ', $s)`: every maximal run of line
   * breaks, tabs and spaces becomes one space; everything else is kept in order.
   */
  function Collapse(s: string): (r: string)
    ensures r == [] <==> s == []
    ensures r != [] ==> (r[0] == ' ' <==> IsCollapsible(s[0]))
    decreases |s|
  {
    if s == [] then []
    else if IsCollapsible(s[0]) then [' '] + Collapse(DropRun(s))
    else [s[0]] + Collapse(s[1..])
  }

  /** The result of collapsing has no line break, no tab and no two adjacent spaces. */
  lemma {:induction false} CollapseIsCollapsed(s: string)
    ensures Collapsed(Collapse(s))
    decreases |s|
  {
    if s != [] {
      var r := Collapse(s);
      if IsCollapsible(s[0]) {
        CollapseIsCollapsed(DropRun(s));
        assert r[1..] == Collapse(DropRun(s));
      } else {
        CollapseIsCollapsed(s[1..]);
        assert r[1..] == Collapse(s[1..]);
      }
    }
  }

  /** Collapsing keeps every character other than whitespace, in order. */
  lemma {:induction false} CollapseKeepsVisible(s: string)
    ensures Visible(Collapse(s)) == Visible(s)
    decreases |s|
  {
    if s != [] {
      var r := Collapse(s);
      if IsCollapsible(s[0]) {
        var rest := DropRun(s);
        CollapseKeepsVisible(rest);
        DropRunVisible(s);
        assert r[1..] == Collapse(rest);
        assert Visible(s) == Visible(s[1..]);
      } else {
        CollapseKeepsVisible(s[1..]);
        assert r[1..] == Collapse(s[1..]);
      }
    }
  }

  predicate IsBreak(c: char) {
    c == '\r' || c == '\n' || c == '\t'
  }

  /** No line break, tab, or pair of adjacent spaces. */
  predicate Collapsed(s: string) {
    && (forall i :: 0 <= i < |s| ==> !IsBreak(s[i]))
    && (forall i :: 0 <= i < |s| - 1 ==> s[i] != ' ' || s[i + 1] != ' ')
  }

  /** Collapsing whitespace changes nothing in a string that has no run to collapse. */
  lemma {:induction false} CollapseOfCollapsed(s: string)
    requires Collapsed(s)
    ensures Collapse(s) == s
    decreases |s|
  {
    if s != [] {
      assert Collapsed(s[1..]);
      CollapseOfCollapsed(s[1..]);
      if IsCollapsible(s[0]) {
        assert s[0] == ' ';
        assert DropRun(s) == s[1..];
      }
    }
  }

  /**
   * The whitespace part of WordPress's `sanitize_text_field`: runs of
   * whitespace become one space and the ends are trimmed.
   */
  function SanitizeText(s: string): string {
    Trim(Collapse(s))
  }

  /** The sanitised text has no whitespace run and no whitespace at either end. */
  lemma SanitizeTextSpec(s: string)
    ensures Collapsed(SanitizeText(s))
    ensures var r := SanitizeText(s); r == [] || (!IsTrimChar(r[0]) && !IsTrimChar(r[|r| - 1]))
  {
    var c := Collapse(s);
    var r := Trim(c);
    CollapseIsCollapsed(s);
    CollapsedSlice(c, LeadingTrim(c), r);
  }

  /** Any contiguous piece of a collapsed string is collapsed. */
  lemma CollapsedSlice(c: string, k: nat, r: string)
    requires Collapsed(c) && k + |r| <= |c| && r == c[k..k + |r|]
    ensures Collapsed(r)
  {
    forall i | 0 <= i < |r| ensures r[i] == c[k + i] {
    }
  }

  /** Sanitising twice is sanitising once. */
  lemma SanitizeTextIdempotent(s: string)
    ensures SanitizeText(SanitizeText(s)) == SanitizeText(s)
  {
    var r := SanitizeText(s);
    SanitizeTextSpec(s);
    CollapseOfCollapsed(r);
    TrimOfTrimmed(r);
  }

  /** The part of `sanitize_textarea_field` modelled here: line breaks are kept, the ends are trimmed. */
  function SanitizeTextarea(s: string): (r: string)
    ensures r == [] || (!IsTrimChar(r[0]) && !IsTrimChar(r[|r| - 1]))
  {
    Trim(s)
  }

  lemma SanitizeTextareaIdempotent(s: string)
    ensures SanitizeTextarea(SanitizeTextarea(s)) == SanitizeTextarea(s)
  {
    TrimOfTrimmed(SanitizeTextarea(s));
  }

  /** The whitespace PHP skips before the digits of a numeric string. */
  predicate IsNumericSpace(c: char) {
    c == ' ' || c == '\t' || c == '\n' || c == '\r' || c as int == 11 || c as int == 12
  }

  /** How many digits `s` starts with. */
  function DigitCount(s: string): (n: nat)
    ensures n <= |s|
    ensures forall i :: 0 <= i < n ==> Decimal.IsDigit(s[i])
    ensures n == |s| || !Decimal.IsDigit(s[n])
    decreases |s|
  {
    if s != [] && Decimal.IsDigit(s[0]) then 1 + DigitCount(s[1..]) else 0
  }

  /** The longest prefix of `s` made of digits. */
  function LeadingDigits(s: string): (r: string)
    ensures Decimal.AllDigits(r)
    ensures |r| <= |s|
  {
    s[..DigitCount(s)]
  }

  /**
   * The exponent a numeric string may carry after its digits: `e` or `E`,
   * an optional sign, then digits. Anything else, including an `e` with no
   * digit after it, is worth 0.
   */
  function ExponentOf(s: string): int {
    if s == [] || (s[0] != 'e' && s[0] != 'E') then 0
    else
      var t := s[1..];
      var signed := t != [] && (t[0] == '-' || t[0] == '+');
      var v := Decimal.Value(LeadingDigits(if signed then t[1..] else t));
      if t != [] && t[0] == '-' then 0 - v else v
  }

  /** `v` times `10` raised to `k`, the fraction dropped when `k` is negative. */
  function Scale(v: nat, k: int): nat
    decreases if k < 0 then -k else k
  {
    if k == 0 then v
    else if k > 0 then Scale(10 * v, k - 1)
    else Scale(v / 10, k + 1)
  }

  /** Scaling up multiplies by a power of ten. */
  lemma {:induction false} ScaleUp(v: nat, k: nat)
    ensures Scale(v, k) == v * Decimal.Pow10(k)
    decreases k
  {
    if k > 0 {
      ScaleUp(10 * v, k - 1);
      assert (10 * v) * Decimal.Pow10(k - 1) == v * (10 * Decimal.Pow10(k - 1));
    }
  }

  /** Scaling down divides by a power of ten and drops the remainder. */
  lemma {:induction false} ScaleDown(v: nat, k: nat)
    ensures Scale(v, -(k as int)) == v / Decimal.Pow10(k)
    decreases k
  {
    if k > 0 {
      var p := Decimal.Pow10(k - 1);
      ScaleDown(v / 10, k - 1);
      NestedDiv(v, p);
    }
  }

  /** Dividing by 10 and then by `p` is dividing by `10 * p`. */
  lemma NestedDiv(v: nat, p: nat)
    requires p >= 1
    ensures (v / 10) / p == v / (10 * p)
  {
    var w := v / 10;
    var q := w / p;
    var r := w % p;
    assert w == q * p + r;
    assert v == 10 * w + v % 10;
    var s := 10 * r + v % 10;
    assert s < 10 * p;
    assert v == q * (10 * p) + s;
    DivUnique(v, 10 * p, q, s);
  }

  /** The quotient is the one `q` that leaves a remainder below the divisor. */
  lemma DivUnique(v: int, d: int, q: int, r: int)
    requires d > 0 && 0 <= r < d && v == q * d + r
    ensures v / d == q
  {
    var q', r' := v / d, v % d;
    assert v == q' * d + r';
    assert (q - q') * d == r' - r;
    if q' != q {
      MultipleAtLeast(q - q', d);
    }
  }

  /** A non-zero multiple of `d` is at least `d` in size. */
  lemma MultipleAtLeast(n: int, d: int)
    requires n != 0 && d > 0
    ensures n * d >= d || n * d <= -d
  {
  }

  /**
   * The magnitude PHP reads from the numeric prefix of an unsigned string:
   * digits, then optionally `.` and more digits, then optionally an
   * exponent, truncated toward zero. Without a digit before the exponent
   * the string is not numeric and reads as 0.
   */
  function Magnitude(u: string): nat {
    var whole := LeadingDigits(u);
    var rest := u[|whole|..];
    var point := rest != [] && rest[0] == '.';
    var fraction := if point then LeadingDigits(rest[1..]) else [];
    var tail := if point then rest[1 + |fraction|..] else rest;
    if whole == [] && fraction == [] then 0
    else
      Decimal.ValueConcat(whole, fraction);
      Scale(Decimal.Value(whole + fraction), ExponentOf(tail) - |fraction|)
  }

  /**
   * `(int)$s` / `intval($s)` on a string (PHP 7.1 and later): leading
   * whitespace is skipped, then an optional sign applies to the magnitude of
   * the numeric prefix, so `1e3` reads as 1000, `2.9` as 2 and `12px` as
   * 12; a string with no digit there reads as 0.
   */
  function IntVal(s: string): (n: int)
    ensures s != [] && Decimal.AllDigits(s) ==> n == Decimal.Value(s)
    decreases |s|
  {
    if s != [] && IsNumericSpace(s[0]) then IntVal(s[1..])
    else if s != [] && s[0] == '-' then 0 - Magnitude(s[1..])
    else if s != [] && s[0] == '+' then Magnitude(s[1..])
    else
      NumeralReadsWhole(s);
      Magnitude(s)
  }

  /** A non-empty digit string is read whole: no fraction, no exponent. */
  lemma NumeralReadsWhole(s: string)
    ensures s != [] && Decimal.AllDigits(s) ==> Magnitude(s) == Decimal.Value(s)
  {
    if s != [] && Decimal.AllDigits(s) {
      AllDigitsCounted(s);
      assert LeadingDigits(s) == s;
      assert s + [] == s;
    }
  }

  /** A numeral followed by a character that is not a digit: its digits are exactly the numeral. */
  lemma {:induction false} DigitsThenStop(d: string, r: string)
    requires Decimal.AllDigits(d)
    requires r != [] && !Decimal.IsDigit(r[0])
    ensures LeadingDigits(d + r) == d
    decreases |d|
  {
    if d == [] {
      assert d + r == r;
    } else {
      assert (d + r)[1..] == d[1..] + r;
      DigitsThenStop(d[1..], r);
    }
  }

  lemma {:induction false} AllDigitsCounted(s: string)
    requires Decimal.AllDigits(s)
    ensures DigitCount(s) == |s|
    decreases |s|
  {
    if s != [] {
      assert Decimal.IsDigit(s[0]);
      AllDigitsCounted(s[1..]);
    }
  }

  /**
   * `intval` reads the scientific spellings as PHP 7.1 and later do: the
   * exponent scales the number by a power of ten, and the fraction a
   * negative exponent leaves is dropped.
   */
  lemma IntValOfScientific(m: nat, k: nat)
    ensures IntVal(Decimal.Digits(m) + "e" + Decimal.Digits(k)) == m * Decimal.Pow10(k)
    ensures IntVal(Decimal.Digits(m) + "E+" + Decimal.Digits(k)) == m * Decimal.Pow10(k)
    ensures IntVal(Decimal.Digits(m) + "e-" + Decimal.Digits(k)) == m / Decimal.Pow10(k)
  {
    ExponentScalesUp(m, k, "e");
    ExponentScalesUp(m, k, "E+");
    ExponentScalesDown(m, k);
  }

  lemma ExponentScalesUp(m: nat, k: nat, marker: string)
    requires marker == "e" || marker == "E+"
    ensures IntVal(Decimal.Digits(m) + marker + Decimal.Digits(k)) == m * Decimal.Pow10(k)
  {
    var d, dk := Decimal.Digits(m), Decimal.Digits(k);
    Decimal.ValueOfDigits(m);
    Decimal.ValueOfDigits(k);
    ScientificRead(d, marker, dk);
    assert IntVal(d + marker + dk) == Scale(m, k);
    ScaleUp(m, k);
  }

  lemma ExponentScalesDown(m: nat, k: nat)
    ensures IntVal(Decimal.Digits(m) + "e-" + Decimal.Digits(k)) == m / Decimal.Pow10(k)
  {
    var d, dk := Decimal.Digits(m), Decimal.Digits(k);
    Decimal.ValueOfDigits(m);
    Decimal.ValueOfDigits(k);
    NegativeExponentRead(d, dk);
  }

  /** A numeral with a negative exponent reads as the numeral divided by that power of ten. */
  lemma NegativeExponentRead(d: string, dk: string)
    requires d != [] && Decimal.AllDigits(d)
    requires dk != [] && Decimal.AllDigits(dk)
    ensures IntVal(d + "e-" + dk) == Decimal.Value(d) / Decimal.Pow10(Decimal.Value(dk))
  {
    ScientificRead(d, "e-", dk);
    ScaleDown(Decimal.Value(d), Decimal.Value(dk));
  }

  /** `intval` drops a fraction, and a minus sign in front applies to the whole. */
  lemma IntValOfFraction(m: nat, f: string)
    requires Decimal.AllDigits(f)
    ensures IntVal(Decimal.Digits(m) + "." + f) == m
    ensures IntVal("-" + Decimal.Digits(m) + "." + f) == 0 - m
  {
    var d := Decimal.Digits(m);
    Decimal.ValueOfDigits(m);
    var p := d + "." + f;
    FractionRead(d, f);
    assert p[0] == d[0];
    NegatedRead(p);
    assert "-" + d + "." + f == "-" + p;
  }

  /** A numeral, an exponent marker and the exponent's digits. */
  lemma ScientificRead(d: string, marker: string, dk: string)
    requires d != [] && Decimal.AllDigits(d)
    requires marker == "e" || marker == "E+" || marker == "e-"
    requires dk != [] && Decimal.AllDigits(dk)
    ensures marker != "e-" ==> IntVal(d + marker + dk) == Scale(Decimal.Value(d), Decimal.Value(dk))
    ensures marker == "e-" ==> IntVal(d + marker + dk) == Scale(Decimal.Value(d), -(Decimal.Value(dk) as int))
  {
    var tail := marker + dk;
    assert tail[0] == marker[0];
    assert tail != [] && (tail[0] == 'e' || tail[0] == 'E');
    assert d + marker + dk == d + tail;
    ExponentDigits(marker, dk);
    ExponentRead(d, tail);
  }

  /** The value of an exponent part: its digits, negated after `-`. */
  lemma ExponentDigits(marker: string, dk: string)
    requires marker == "e" || marker == "E+" || marker == "e-"
    requires dk != [] && Decimal.AllDigits(dk)
    ensures marker != "e-" ==> ExponentOf(marker + dk) == Decimal.Value(dk)
    ensures marker == "e-" ==> ExponentOf(marker + dk) == -(Decimal.Value(dk) as int)
  {
    AllDigitsCounted(dk);
    assert LeadingDigits(dk) == dk;
    var t := (marker + dk)[1..];
    if marker == "e" {
      assert t == dk;
      assert Decimal.IsDigit(t[0]);
    } else {
      assert t == [marker[1]] + dk && t[1..] == dk;
    }
  }

  /** A numeral followed by an exponent part reads as the numeral scaled by the exponent. */
  lemma ExponentRead(d: string, tail: string)
    requires d != [] && Decimal.AllDigits(d)
    requires tail != [] && (tail[0] == 'e' || tail[0] == 'E')
    ensures IntVal(d + tail) == Scale(Decimal.Value(d), ExponentOf(tail))
  {
    var s := d + tail;
    UnsignedRead(s);
    DigitsThenStop(d, tail);
    assert s[|d|..] == tail;
    assert d + [] == d;
  }

  /** `intval` skips any run of leading whitespace: what follows reads the same with it or without it. */
  lemma {:induction false} IntValSkipsSpace(ws: string, s: string)
    requires forall i :: 0 <= i < |ws| ==> IsNumericSpace(ws[i])
    ensures IntVal(ws + s) == IntVal(s)
    decreases |ws|
  {
    if ws == [] {
      assert ws + s == s;
    } else {
      assert IsNumericSpace((ws + s)[0]);
      assert (ws + s)[1..] == ws[1..] + s;
      IntValSkipsSpace(ws[1..], s);
    }
  }

  /**
   * `intval` reads a printed number followed by text that cannot continue
   * it (no digit, `.` or exponent) as that number: `12px` reads as 12.
   */
  lemma IntValOfNumeralPrefix(n: nat, t: string)
    requires t == [] || (!Decimal.IsDigit(t[0]) && t[0] != '.' && t[0] != 'e' && t[0] != 'E')
    ensures IntVal(Decimal.Digits(n) + t) == n
  {
    var d := Decimal.Digits(n);
    Decimal.ValueOfDigits(n);
    if t == [] {
      assert d + t == d;
      AbsIntOfNumeral(n);
    } else {
      NumeralThenText(d, t);
    }
  }

  /** A numeral followed by text that cannot continue it reads as the numeral. */
  lemma NumeralThenText(d: string, t: string)
    requires d != [] && Decimal.AllDigits(d)
    requires t != [] && !Decimal.IsDigit(t[0]) && t[0] != '.' && t[0] != 'e' && t[0] != 'E'
    ensures IntVal(d + t) == Decimal.Value(d)
  {
    var s := d + t;
    UnsignedRead(s);
    DigitsThenStop(d, t);
    assert s[|d|..] == t;
    assert ExponentOf(t) == 0;
    assert d + [] == d;
  }

  /** A string that starts with a digit is read as its magnitude. */
  lemma UnsignedRead(s: string)
    requires s != [] && Decimal.IsDigit(s[0])
    ensures IntVal(s) == Magnitude(s)
  {
    assert !IsNumericSpace(s[0]);
  }

  /** A minus sign in front of a string that starts with a digit negates its reading. */
  lemma NegatedRead(s: string)
    requires s != [] && Decimal.IsDigit(s[0])
    ensures IntVal("-" + s) == 0 - IntVal(s)
  {
    UnsignedRead(s);
    var n := "-" + s;
    assert !IsNumericSpace(n[0]) && n[1..] == s;
  }

  /** A numeral followed by a point and digits reads as the numeral. */
  lemma FractionRead(d: string, f: string)
    requires d != [] && Decimal.AllDigits(d) && Decimal.AllDigits(f)
    ensures IntVal(d + "." + f) == Decimal.Value(d)
  {
    var s := d + ("." + f);
    assert d + "." + f == s;
    UnsignedRead(s);
    FractionMagnitude(d, f);
    DropFraction(d, f);
  }

  /** The magnitude of a numeral with a fraction scales the joined digits down by the fraction's length. */
  lemma FractionMagnitude(d: string, f: string)
    requires d != [] && Decimal.AllDigits(d) && Decimal.AllDigits(f)
    ensures Decimal.AllDigits(d + f)
    ensures Magnitude(d + ("." + f)) == Scale(Decimal.Value(d + f), -(|f| as int))
  {
    var rest := "." + f;
    var s := d + rest;
    DigitsThenStop(d, rest);
    assert s[|d|..] == rest && rest[1..] == f;
    AllDigitsCounted(f);
    assert LeadingDigits(f) == f;
    assert rest[1 + |f|..] == [];
  }

  /** Dropping the fraction digits of a numeral leaves its whole part. */
  lemma DropFraction(d: string, f: string)
    requires Decimal.AllDigits(d) && Decimal.AllDigits(f)
    ensures Decimal.AllDigits(d + f)
    ensures Scale(Decimal.Value(d + f), -(|f| as int)) == Decimal.Value(d)
  {
    Decimal.ValueConcat(d, f);
    Decimal.ValueBound(f);
    ScaleDown(Decimal.Value(d + f), |f|);
    DivUnique(Decimal.Value(d + f), Decimal.Pow10(|f|), Decimal.Value(d), Decimal.Value(f));
  }

  /** WordPress `absint`: the absolute value of `intval`. */
  function AbsInt(s: string): nat {
    var n := IntVal(s);
    if n < 0 then -n else n
  }

  /** `absint` of a string `intval` reads as a natural number is that number. */
  lemma AbsIntOfNatural(s: string, n: nat)
    requires IntVal(s) == n
    ensures AbsInt(s) == n
  {
  }

  /** Printing a number and reading it back with `intval` or `absint` gives it back. */
  lemma AbsIntOfNumeral(n: nat)
    ensures IntVal(Decimal.Digits(n)) == n
    ensures AbsInt(Decimal.Digits(n)) == n
  {
    Decimal.ValueOfDigits(n);
    NumeralReadsWhole(Decimal.Digits(n));
  }

  /** A minus sign in front of a numeral makes `intval` negative and leaves `absint` unchanged. */
  lemma AbsIntOfNegativeNumeral(n: nat)
    ensures IntVal("-" + Decimal.Digits(n)) == 0 - n
    ensures AbsInt("-" + Decimal.Digits(n)) == n
  {
    var d := Decimal.Digits(n);
    Decimal.ValueOfDigits(n);
    NumeralReadsWhole(d);
    var m := "-" + d;
    assert !IsNumericSpace(m[0]);
    assert m[0..][1..] == d;
  }

  /** An integer numeric string: an optional sign followed by at least one digit. */
  predicate IsIntegerString(s: string) {
    || (s != [] && Decimal.AllDigits(s))
    || (|s| > 1 && (s[0] == '-' || s[0] == '+') && Decimal.AllDigits(s[1..]))
  }

  function IntegerValue(s: string): int
    requires IsIntegerString(s)
  {
    if s[0] == '-' then 0 - Decimal.Value(s[1..])
    else if s[0] == '+' then Decimal.Value(s[1..])
    else Decimal.Value(s)
  }

  /**
   * PHP 8 `==` between two strings: two integer numeric strings compare by
   * value, any other pair compares character by character.
   */
  predicate LooseEquals(a: string, b: string) {
    if IsIntegerString(a) && IsIntegerString(b) then IntegerValue(a) == IntegerValue(b) else a == b
  }

  /** Loose equality identifies a numeral with its zero-padded and signed spellings. */
  lemma LooseEqualsNumerals(n: nat, k: nat)
    ensures LooseEquals(Decimal.Zeros(k) + Decimal.Digits(n), Decimal.Digits(n))
    ensures LooseEquals("+" + Decimal.Digits(n), Decimal.Digits(n))
  {
    var d := Decimal.Digits(n);
    Decimal.LeadingZeros(k, d);
    assert Decimal.AllDigits(Decimal.Zeros(k) + d);
    assert ("+" + d)[1..] == d;
  }

  predicate IsPrefix(t: string, s: string) {
    |t| <= |s| && s[..|t|] == t
  }

  /**
   * `str_replace($needle, $rep, $s)`: every occurrence of `needle`, found
   * scanning left to right without overlap, is replaced by `rep`; an empty
   * needle leaves the subject unchanged.
   */
  function ReplaceAll(s: string, needle: string, rep: string): string
    decreases |s|
  {
    if needle == [] || s == [] then s
    else if IsPrefix(needle, s) then rep + ReplaceAll(s[|needle|..], needle, rep)
    else [s[0]] + ReplaceAll(s[1..], needle, rep)
  }

  /** A subject in which the needle occurs nowhere comes back unchanged. */
  lemma {:induction false} ReplaceAllWithoutNeedle(s: string, needle: string, rep: string)
    requires forall k :: 0 <= k < |s| ==> !IsPrefix(needle, s[k..])
    ensures ReplaceAll(s, needle, rep) == s
    decreases |s|
  {
    if needle != [] && s != [] {
      assert s[0..] == s;
      forall k | 0 <= k < |s| - 1 ensures !IsPrefix(needle, s[1..][k..]) {
        assert s[1..][k..] == s[k + 1..];
      }
      ReplaceAllWithoutNeedle(s[1..], needle, rep);
    }
  }
}
