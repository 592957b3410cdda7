/**
 * The plugin's date placeholders: `{date}`, `{date_only}`, `{time_only}`,
 * `{year}`, `{month}` and `{day}`, filled in from the site-local time.
 */
module Placeholders {
  import Decimal
  import Calendar
  import Substitution
  import Php

  /** The placeholder tokens, in the order the plugin lists them. */
  const Tokens: seq<string> := ["{date}", "{date_only}", "{time_only}", "{year}", "{month}", "{day}"]

  /**
   * `get_datetime_replacements`: each token paired with what it stands for,
   * `date()` of the site-local time in the formats `Y-m-d H:i`, `Y-m-d`,
   * `H:i`, `Y`, `m` and `d`.
   */
  function Replacements(now: Calendar.DateTime): (rules: seq<Substitution.Rule>)
    ensures |rules| == 6
  {
    [ Substitution.Rule(Tokens[0], Calendar.Stamp(now)),
      Substitution.Rule(Tokens[1], Calendar.DateOnly(now.date)),
      Substitution.Rule(Tokens[2], Calendar.TimeOnly(now)),
      Substitution.Rule(Tokens[3], Calendar.Year(now.date)),
      Substitution.Rule(Tokens[4], Calendar.Month(now.date)),
      Substitution.Rule(Tokens[5], Calendar.Day(now.date)) ]
  }

  /** `replace_placeholders`: one array `str_replace` over the table. */
  function Render(text: string, now: Calendar.DateTime): string {
    Substitution.ApplyInOrder(text, Replacements(now))
  }

  predicate IsTokenChar(c: char) {
    c == '{' || c == '}' || c == '_' || 'a' <= c <= 'z'
  }

  /** The characters a formatted date or time is made of. */
  predicate IsValueChar(c: char) {
    '0' <= c <= '9' || c == '-' || c == ' ' || c == ':'
  }

  /** Spelled only with the characters a token is made of. */
  predicate TokenText(t: string) {
    forall j :: 0 <= j < |t| ==> IsTokenChar(t[j])
  }

  /** Spelled only with the characters a formatted date or time is made of. */
  predicate ValueText(v: string) {
    forall i :: 0 <= i < |v| ==> IsValueChar(v[i])
  }

  lemma NoCommonChar(v: string, t: string)
    requires ValueText(v) && TokenText(t)
    ensures Substitution.SharesNoChar(v, t)
  {
    forall i, j | 0 <= i < |v| && 0 <= j < |t| ensures v[i] != t[j] {
      assert IsValueChar(v[i]) && IsTokenChar(t[j]);
    }
  }

  lemma DigitsAreValueText(s: string)
    requires Decimal.AllDigits(s)
    ensures ValueText(s)
  {
    forall i | 0 <= i < |s| ensures IsValueChar(s[i]) {
      assert Decimal.IsDigit(s[i]);
    }
  }

  lemma ValueTextConcat(a: string, b: string)
    requires ValueText(a) && ValueText(b)
    ensures ValueText(a + b)
  {
  }

  lemma DateOnlyIsValueText(d: Calendar.Date)
    ensures ValueText(Calendar.DateOnly(d))
  {
    var y, m, dd := Calendar.Year(d), Calendar.Month(d), Calendar.Day(d);
    DigitsAreValueText(y);
    DigitsAreValueText(m);
    DigitsAreValueText(dd);
    ValueTextConcat(y, "-");
    ValueTextConcat(y + "-", m);
    ValueTextConcat(y + "-" + m, "-");
    ValueTextConcat(y + "-" + m + "-", dd);
  }

  lemma TimeOnlyIsValueText(t: Calendar.DateTime)
    ensures ValueText(Calendar.TimeOnly(t))
  {
    var hh, mm := Decimal.Field(t.hour, 2), Decimal.Field(t.minute, 2);
    DigitsAreValueText(hh);
    DigitsAreValueText(mm);
    ValueTextConcat(hh, ":");
    ValueTextConcat(hh + ":", mm);
  }

  lemma StampIsValueText(t: Calendar.DateTime)
    ensures ValueText(Calendar.Stamp(t))
  {
    var dt, tm := Calendar.DateOnly(t.date), Calendar.TimeOnly(t);
    DateOnlyIsValueText(t.date);
    TimeOnlyIsValueText(t);
    ValueTextConcat(dt, " ");
    ValueTextConcat(dt + " ", tm);
  }

  /** Every value in the table is non-empty and spelled with digits, dashes, a space and a colon. */
  lemma ValuesAreDates(now: Calendar.DateTime)
    ensures forall i :: 0 <= i < 6 ==> Replacements(now)[i].value != [] && ValueText(Replacements(now)[i].value)
  {
    var rules, d := Replacements(now), now.date;
    forall i | 0 <= i < 6 ensures rules[i].value != [] && ValueText(rules[i].value) {
      if i == 0 {
        StampIsValueText(now);
      } else if i == 1 {
        DateOnlyIsValueText(d);
      } else if i == 2 {
        TimeOnlyIsValueText(now);
      } else if i == 3 {
        DigitsAreValueText(Calendar.Year(d));
      } else if i == 4 {
        DigitsAreValueText(Calendar.Month(d));
      } else {
        DigitsAreValueText(Calendar.Day(d));
      }
    }
  }

  predicate IsNameChar(c: char) {
    c == '_' || 'a' <= c <= 'z'
  }

  /** A name in braces is a `{name}` word spelled with token characters. */
  lemma BracedName(name: string)
    requires forall i :: 0 <= i < |name| ==> IsNameChar(name[i])
    ensures Substitution.BraceWord("{" + name + "}") && TokenText("{" + name + "}")
  {
    var t := "{" + name + "}";
    forall i | 0 < i < |t| - 1 ensures t[i] == name[i - 1] {
    }
  }

  /** The six tokens are distinct `{name}` words spelled with lower-case letters and underscores. */
  lemma TokensAreWords()
    ensures forall i :: 0 <= i < 6 ==> Substitution.BraceWord(Tokens[i]) && TokenText(Tokens[i])
    ensures forall i, j :: 0 <= i < j < 6 ==> Tokens[i] != Tokens[j]
  {
    BracedName("date");
    BracedName("date_only");
    BracedName("time_only");
    BracedName("year");
    BracedName("month");
    BracedName("day");
    assert Tokens[0] == "{" + "date" + "}";
    assert Tokens[1] == "{" + "date_only" + "}";
    assert Tokens[2] == "{" + "time_only" + "}";
    assert Tokens[3] == "{" + "year" + "}";
    assert Tokens[4] == "{" + "month" + "}";
    assert Tokens[5] == "{" + "day" + "}";
    assert Tokens[0][1] != Tokens[3][1];
    assert Tokens[1][1] != Tokens[2][1];
  }

  /** The table meets the conditions under which sequential and single-scan replacement agree. */
  lemma ReplacementsWellFormed(now: Calendar.DateTime)
    ensures Substitution.WellFormed(Replacements(now))
  {
    var rules := Replacements(now);
    TokensHaveNames(rules, now);
    ValuesAreDates(now);
    forall i, j | 0 <= i < 6 && 0 <= j < 6 ensures Substitution.SharesNoChar(rules[i].value, rules[j].token) {
      NoCommonChar(rules[i].value, rules[j].token);
    }
  }

  /** The table's tokens are the six distinct `{name}` words. */
  lemma TokensHaveNames(rules: seq<Substitution.Rule>, now: Calendar.DateTime)
    requires rules == Replacements(now)
    ensures Substitution.DistinctTokens(rules)
    ensures forall j :: 0 <= j < 6 ==> TokenText(rules[j].token)
  {
    TableTokens(now);
    TokensInOrder(rules);
  }

  /** The table lists the tokens in their declared order. */
  lemma TableTokens(now: Calendar.DateTime)
    ensures forall j :: 0 <= j < 6 ==> Replacements(now)[j].token == Tokens[j]
  {
  }

  /** Any table that lists the six tokens in order has distinct `{name}` tokens. */
  lemma TokensInOrder(rules: seq<Substitution.Rule>)
    requires |rules| == 6 && forall j :: 0 <= j < 6 ==> rules[j].token == Tokens[j]
    ensures Substitution.DistinctTokens(rules)
    ensures forall j :: 0 <= j < 6 ==> TokenText(rules[j].token)
  {
    TokensAreWords();
  }

  /** Rendering is one left-to-right scan that replaces each token where it starts. */
  lemma RenderIsScan(text: string, now: Calendar.DateTime)
    ensures Render(text, now) == Substitution.Substitute(text, Replacements(now))
  {
    ReplacementsWellFormed(now);
    Substitution.InOrderEqualsSimultaneous(text, Replacements(now));
  }

  /**
   * Text in which none of the six tokens occurs comes back unchanged, and
   * so fills in the same at every moment.
   */
  lemma RenderWithoutTokens(text: string, now: Calendar.DateTime, later: Calendar.DateTime)
    requires forall i, k :: 0 <= i < |Tokens| && 0 <= k < |text| ==> !Php.IsPrefix(Tokens[i], text[k..])
    ensures Render(text, now) == text
    ensures Render(text, later) == Render(text, now)
  {
    NoTokenUnchanged(text, now);
    NoTokenUnchanged(text, later);
  }

  lemma NoTokenUnchanged(text: string, now: Calendar.DateTime)
    requires forall i, k :: 0 <= i < |Tokens| && 0 <= k < |text| ==> !Php.IsPrefix(Tokens[i], text[k..])
    ensures Render(text, now) == text
  {
    TableTokens(now);
    NoTokenInTable(text, Replacements(now));
  }

  /** A table listing the six tokens finds nothing to replace in text holding none of them. */
  lemma NoTokenInTable(text: string, rules: seq<Substitution.Rule>)
    requires |rules| == 6 && forall j :: 0 <= j < 6 ==> rules[j].token == Tokens[j]
    requires forall i, k :: 0 <= i < |Tokens| && 0 <= k < |text| ==> !Php.IsPrefix(Tokens[i], text[k..])
    ensures Substitution.ApplyInOrder(text, rules) == text
  {
    forall i, k | 0 <= i < |rules| && 0 <= k < |text| ensures !Php.IsPrefix(rules[i].token, text[k..]) {
      assert rules[i].token == Tokens[i];
    }
    Substitution.ApplyInOrderWithoutTokens(text, rules);
  }

  /** Text with no opening brace comes back unchanged. */
  lemma RenderPlainText(text: string, now: Calendar.DateTime)
    requires forall k :: 0 <= k < |text| ==> text[k] != '{'
    ensures Render(text, now) == text
  {
    var rules := Replacements(now);
    ReplacementsWellFormed(now);
    forall i, k | 0 <= i < |rules| && 0 <= k < |text| ensures !Php.IsPrefix(rules[i].token, text[k..]) {
      assert Substitution.BraceWord(rules[i].token);
      assert text[k..][0] == text[k];
    }
    Substitution.ApplyInOrderWithoutTokens(text, rules);
  }

  /** Each token is replaced by the current time in its format, and rendering carries on after it. */
  lemma RenderTokens(rest: string, now: Calendar.DateTime)
    ensures Render("{date}" + rest, now) == Calendar.Stamp(now) + Render(rest, now)
    ensures Render("{date_only}" + rest, now) == Calendar.DateOnly(now.date) + Render(rest, now)
    ensures Render("{time_only}" + rest, now) == Calendar.TimeOnly(now) + Render(rest, now)
    ensures Render("{year}" + rest, now) == Calendar.Year(now.date) + Render(rest, now)
    ensures Render("{month}" + rest, now) == Calendar.Month(now.date) + Render(rest, now)
    ensures Render("{day}" + rest, now) == Calendar.Day(now.date) + Render(rest, now)
  {
    var rules := Replacements(now);
    ReplacementsWellFormed(now);
    RenderIsScan(rest, now);
    forall i | 0 <= i < 6
      ensures Render(rules[i].token + rest, now) == rules[i].value + Render(rest, now)
    {
      RenderIsScan(rules[i].token + rest, now);
      Substitution.SubstituteToken(i, rest, rules);
    }
    assert rules[0].token == "{date}" && rules[1].token == "{date_only}" && rules[2].token == "{time_only}";
    assert rules[3].token == "{year}" && rules[4].token == "{month}" && rules[5].token == "{day}";
  }

  /** A `{name}` word that is not one of the six tokens is left as it is. */
  lemma RenderUnknownPlaceholder(w: string, rest: string, now: Calendar.DateTime)
    requires Substitution.BraceWord(w) && w !in Tokens
    ensures Render(w + rest, now) == w + Render(rest, now)
  {
    var rules := Replacements(now);
    ReplacementsWellFormed(now);
    RenderIsScan(w + rest, now);
    RenderIsScan(rest, now);
    TableTokens(now);
    NotInTable(w, rules);
    Substitution.UnknownWordPassesThrough(w, rest, rules);
  }

  lemma NotInTable(w: string, rules: seq<Substitution.Rule>)
    requires w !in Tokens && |rules| == 6 && forall j :: 0 <= j < 6 ==> rules[j].token == Tokens[j]
    ensures forall j :: 0 <= j < |rules| ==> rules[j].token != w
  {
  }

  /** No token spans an opening brace, so text can be rendered in pieces cut just before one. */
  lemma RenderSplitsAtBrace(a: string, b: string, now: Calendar.DateTime)
    requires b == [] || b[0] == '{'
    ensures Render(a + b, now) == Render(a, now) + Render(b, now)
  {
    ReplacementsWellFormed(now);
    RenderIsScan(a + b, now);
    RenderIsScan(a, now);
    RenderIsScan(b, now);
    Substitution.SubstituteSplit(a, b, Replacements(now));
  }

  /** Rendered text has no token left in it, so rendering it again, at any time, changes nothing. */
  lemma RenderIsFinal(text: string, a: Calendar.DateTime, b: Calendar.DateTime)
    ensures Render(Render(text, a), b) == Render(text, a)
  {
    var ra, rb := Replacements(a), Replacements(b);
    var out := Render(text, a);
    ReplacementsWellFormed(a);
    RenderIsScan(text, a);
    Substitution.SubstituteLeavesNoToken(text, ra);
    forall i, k | 0 <= i < |rb| && 0 <= k < |out| ensures !Php.IsPrefix(rb[i].token, out[k..]) {
      assert rb[i].token == ra[i].token;
    }
    Substitution.ApplyInOrderWithoutTokens(out, rb);
  }

  /** For valid times the rendered length does not depend on the time. */
  lemma RenderLength(text: string, a: Calendar.DateTime, b: Calendar.DateTime)
    requires Calendar.Valid(a) && Calendar.Valid(b)
    ensures |Render(text, a)| == |Render(text, b)|
  {
    SameShape(a, b);
    RenderIsScan(text, a);
    RenderIsScan(text, b);
    Substitution.SubstituteSameShape(text, Replacements(a), Replacements(b));
  }

  /** Valid times fill the table with values of the same lengths. */
  lemma SameShape(a: Calendar.DateTime, b: Calendar.DateTime)
    requires Calendar.Valid(a) && Calendar.Valid(b)
    ensures Substitution.SameShape(Replacements(a), Replacements(b))
  {
  }

  /**
   * A template that uses `{date_only}` renders differently on different
   * days, whatever else it contains.
   */
  lemma DifferentDaysRenderDifferently(text: string, k: nat, a: Calendar.DateTime, b: Calendar.DateTime)
    requires Calendar.Valid(a) && Calendar.Valid(b) && a.date != b.date
    requires k + 11 <= |text| && text[k..k + 11] == "{date_only}"
    ensures Render(text, a) != Render(text, b)
  {
    var p, q := text[..k], text[k..];
    var rest := q[11..];
    assert text == p + q;
    assert q == "{date_only}" + rest;
    RenderSplitsAtBrace(p, q, a);
    RenderSplitsAtBrace(p, q, b);
    RenderTokens(rest, a);
    RenderTokens(rest, b);
    RenderLength(p, a, b);
    var n := |Render(p, a)|;
    var da, db := Calendar.DateOnly(a.date), Calendar.DateOnly(b.date);
    CutMiddle(Render(p, a), da, Render(rest, a));
    CutMiddle(Render(p, b), db, Render(rest, b));
    Calendar.ParseDateOnly(a.date);
    Calendar.ParseDateOnly(b.date);
  }

  lemma CutMiddle(x: string, y: string, z: string)
    ensures (x + (y + z))[|x|..|x| + |y|] == y
  {
  }
}
