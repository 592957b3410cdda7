/**
 * Placeholder substitution. PHP's `str_replace` with arrays of search and
 * replacement strings applies the pairs one after another, each to the
 * output of the previous one. When every search string is a `{name}` token
 * and no replacement text can form part of a token, that sequence of
 * rewrites is the same as one left-to-right scan replacing each token where
 * it starts. This module defines both and proves them equal.
 */
module Substitution {
  import opened Wrappers
  import Php

  /** One placeholder: the token searched for and the text put in its place. */
  datatype Rule = Rule(token: string, value: string)

  /** A token of the form `{name}`: braces at both ends and none inside. */
  predicate BraceWord(t: string) {
    && |t| >= 2 && t[0] == '{' && t[|t| - 1] == '}'
    && forall i :: 0 < i < |t| - 1 ==> t[i] != '{' && t[i] != '}'
  }

  predicate SharesNoChar(a: string, b: string) {
    forall i, j :: 0 <= i < |a| && 0 <= j < |b| ==> a[i] != b[j]
  }

  /**
   * Rules the two readings agree on: distinct `{name}` tokens and non-empty
   * values none of whose characters occurs in any token.
   */
  predicate WellFormed(rules: seq<Rule>) {
    && DistinctTokens(rules)
    && (forall i :: 0 <= i < |rules| ==> rules[i].value != [])
    && (forall i, j :: 0 <= i < |rules| && 0 <= j < |rules| ==> SharesNoChar(rules[i].value, rules[j].token))
  }

  /** Every token is a `{name}` word and no two rules share a token. */
  predicate DistinctTokens(rules: seq<Rule>) {
    && (forall i :: 0 <= i < |rules| ==> BraceWord(rules[i].token))
    && (forall i, j :: 0 <= i < j < |rules| ==> rules[i].token != rules[j].token)
  }

  /** `str_replace(array_keys($rules), array_values($rules), $s)`: the pairs applied one after another. */
  function ApplyInOrder(s: string, rules: seq<Rule>): string
    decreases |rules|
  {
    if rules == [] then s
    else ApplyInOrder(Php.ReplaceAll(s, rules[0].token, rules[0].value), rules[1..])
  }

  predicate Matches(t: string, s: string) {
    t != [] && Php.IsPrefix(t, s)
  }

  /** The first rule whose token starts `s`, if any. */
  function FirstMatch(s: string, rules: seq<Rule>): (r: Option<nat>)
    ensures r.Some? ==> r.value < |rules| && Matches(rules[r.value].token, s)
    decreases |rules|
  {
    if rules == [] then None
    else if Matches(rules[0].token, s) then Some(0)
    else match FirstMatch(s, rules[1..])
      case Some(i) => Some(i + 1)
      case None => None
  }

  /** The search fails exactly when no token starts `s`, and it finds the earliest rule that matches. */
  lemma {:induction false} FirstMatchSpec(s: string, rules: seq<Rule>)
    ensures FirstMatch(s, rules).None? <==> forall j :: 0 <= j < |rules| ==> !Matches(rules[j].token, s)
    ensures FirstMatch(s, rules).Some? ==>
      forall j :: 0 <= j < FirstMatch(s, rules).value ==> !Matches(rules[j].token, s)
    decreases |rules|
  {
    if rules != [] {
      FirstMatchSpec(s, rules[1..]);
      assert forall j :: 0 <= j < |rules| - 1 ==> rules[1..][j] == rules[j + 1];
    }
  }

  /**
   * Reference definition: a single left-to-right scan that replaces a token
   * where one starts and copies any other character.
   */
  function Substitute(s: string, rules: seq<Rule>): string
    decreases |s|
  {
    if s == [] then []
    else match FirstMatch(s, rules)
      case Some(i) => rules[i].value + Substitute(s[|rules[i].token|..], rules)
      case None => [s[0]] + Substitute(s[1..], rules)
  }

  /** One step of the scan where rule `i` matches. */
  lemma SubstituteStep(s: string, rules: seq<Rule>, i: nat)
    requires FirstMatch(s, rules) == Some(i)
    ensures Substitute(s, rules) == rules[i].value + Substitute(s[|rules[i].token|..], rules)
  {
  }

  /** One step of the scan where no rule matches. */
  lemma CopyStep(s: string, rules: seq<Rule>)
    requires s != [] && FirstMatch(s, rules) == None
    ensures Substitute(s, rules) == [s[0]] + Substitute(s[1..], rules)
  {
  }

  lemma WellFormedTail(rules: seq<Rule>)
    requires WellFormed(rules) && rules != []
    ensures WellFormed(rules[1..])
  {
    var rest := rules[1..];
    forall i, j | 0 <= i < |rest| && 0 <= j < |rest|
      ensures SharesNoChar(rest[i].value, rest[j].token)
    {
      assert rest[i] == rules[i + 1] && rest[j] == rules[j + 1];
    }
  }

  /** Two `{name}` tokens that both start the same text are the same token. */
  lemma BraceWordsAtSamePlace(a: string, b: string, s: string)
    requires BraceWord(a) && BraceWord(b)
    requires Php.IsPrefix(a, s) && Php.IsPrefix(b, s)
    ensures a == b
  {
    var m := if |a| < |b| then |a| else |b|;
    assert a[m - 1] == s[m - 1] == b[m - 1];
    assert |a| == |b|;
  }

  /** A `{name}` token that starts the same text as the `{name}` word `b` is `b` itself. */
  lemma BraceWordPrefixUnique(a: string, b: string, s: string)
    requires BraceWord(a) && BraceWord(b) && Php.IsPrefix(b, s)
    ensures Php.IsPrefix(a, s) ==> a == b
  {
    if Php.IsPrefix(a, s) {
      BraceWordsAtSamePlace(a, b, s);
    }
  }

  /** No rule matches at a `{name}` word that is no rule's token. */
  lemma UnknownWordNoMatch(w: string, rest: string, rules: seq<Rule>)
    requires DistinctTokens(rules) && BraceWord(w)
    requires forall j :: 0 <= j < |rules| ==> rules[j].token != w
    ensures FirstMatch(w + rest, rules) == None
  {
    var s := w + rest;
    assert s[..|w|] == w;
    forall j | 0 <= j < |rules| ensures !Matches(rules[j].token, s) {
      BraceWordPrefixUnique(rules[j].token, w, s);
    }
    FirstMatchSpec(s, rules);
  }

  /** A `{name}` word that is no rule's token is copied by the scan, braces included. */
  lemma UnknownWordPassesThrough(w: string, rest: string, rules: seq<Rule>)
    requires DistinctTokens(rules) && BraceWord(w)
    requires forall j :: 0 <= j < |rules| ==> rules[j].token != w
    ensures Substitute(w + rest, rules) == w + Substitute(rest, rules)
  {
    var s := w + rest;
    UnknownWordNoMatch(w, rest, rules);
    var tail := w[1..];
    forall i | 0 <= i < |tail| ensures tail[i] != '{' {
      assert tail[i] == w[i + 1];
    }
    SubstituteBraceFree(tail, rest, rules);
    assert s[1..] == tail + rest;
    assert Substitute(s, rules) == [s[0]] + Substitute(tail + rest, rules);
    assert w == [w[0]] + tail;
  }

  /** When rule `i`'s token starts `s`, rule `i` is the one the scan picks. */
  lemma FirstMatchAt(s: string, rules: seq<Rule>, i: nat)
    requires DistinctTokens(rules) && i < |rules|
    requires Php.IsPrefix(rules[i].token, s)
    ensures FirstMatch(s, rules) == Some(i)
  {
    assert Matches(rules[i].token, s);
    FirstMatchSpec(s, rules);
    var m := FirstMatch(s, rules);
    BraceWordsAtSamePlace(rules[m.value].token, rules[i].token, s);
  }

  /** Without rules the scan copies its input. */
  lemma {:induction false} SubstituteNoRules(s: string)
    ensures Substitute(s, []) == s
    decreases |s|
  {
    if s != [] {
      SubstituteNoRules(s[1..]);
    }
  }

  /** Text without an opening brace is copied by the scan. */
  lemma {:induction false} SubstituteBraceFree(v: string, rest: string, rules: seq<Rule>)
    requires DistinctTokens(rules)
    requires forall i :: 0 <= i < |v| ==> v[i] != '{'
    ensures Substitute(v + rest, rules) == v + Substitute(rest, rules)
    decreases |v|
  {
    if v != [] {
      var w := v[1..];
      assert (v + rest)[0] == v[0];
      NoMatchBeforeBrace(v + rest, rules);
      assert forall i :: 0 <= i < |w| ==> w[i] == v[i + 1];
      SubstituteBraceFree(w, rest, rules);
      CopyFirst(v, rest, rules, Substitute(rest, rules));
    } else {
      assert v + rest == rest;
    }
  }

  /** One copied character in front of text the scan already copies. */
  lemma CopyFirst(v: string, rest: string, rules: seq<Rule>, x: string)
    requires v != [] && FirstMatch(v + rest, rules) == None
    requires Substitute(v[1..] + rest, rules) == v[1..] + x
    ensures Substitute(v + rest, rules) == v + x
  {
    var s := v + rest;
    assert s[1..] == v[1..] + rest;
    CopyStep(s, rules);
    assert v == [v[0]] + v[1..];
  }

  lemma NoMatchBeforeBrace(s: string, rules: seq<Rule>)
    requires DistinctTokens(rules)
    requires s != [] && s[0] != '{'
    ensures FirstMatch(s, rules) == None
  {
    forall j | 0 <= j < |rules| ensures !Matches(rules[j].token, s) {
      assert BraceWord(rules[j].token);
    }
    FirstMatchSpec(s, rules);
  }

  /**
   * A prefix of the replaced text that shares no character with the
   * (non-empty) replacement was already a prefix of the original.
   */
  lemma {:induction false} PrefixSurvivesReplace(u: string, s: string, t: string, v: string)
    requires v != []
    requires SharesNoChar(v, u)
    ensures Php.IsPrefix(u, Php.ReplaceAll(s, t, v)) ==> Php.IsPrefix(u, s)
    decreases |s|
  {
    var r := Php.ReplaceAll(s, t, v);
    if Php.IsPrefix(u, r) && u != [] && t != [] && s != [] {
      assert r[0] == u[0] && u[0] != v[0];
      assert !Php.IsPrefix(t, s);
      var r' := Php.ReplaceAll(s[1..], t, v);
      assert r == [s[0]] + r';
      assert u[0] == s[0];
      assert Php.IsPrefix(u[1..], r') by {
        assert r'[..|u| - 1] == r[1..|u|] == u[1..];
      }
      PrefixSurvivesReplace(u[1..], s[1..], t, v);
      assert s[..|u|] == [s[0]] + s[1..][..|u| - 1];
    }
  }

  /** `str_replace` copies a prefix in which no occurrence of the needle starts. */
  lemma {:induction false} ReplaceSkips(s: string, t: string, v: string, k: nat)
    requires k <= |s|
    requires forall j :: 0 <= j < k ==> !Php.IsPrefix(t, s[j..])
    ensures Php.ReplaceAll(s, t, v) == s[..k] + Php.ReplaceAll(s[k..], t, v)
    decreases k
  {
    if t == [] {
      assert s[..k] + s[k..] == s;
    } else if k > 0 {
      assert s[0..] == s;
      forall j | 0 <= j < k - 1 ensures !Php.IsPrefix(t, s[1..][j..]) {
        assert s[1..][j..] == s[j + 1..];
      }
      ReplaceSkips(s[1..], t, v, k - 1);
      assert s[1..][k - 1..] == s[k..];
      assert s[..k] == [s[0]] + s[1..][..k - 1];
    }
  }

  lemma ValueHasNoOpenBrace(rules: seq<Rule>, i: nat)
    requires WellFormed(rules) && i < |rules|
    ensures forall k :: 0 <= k < |rules[i].value| ==> rules[i].value[k] != '{'
  {
    forall k | 0 <= k < |rules[i].value| ensures rules[i].value[k] != '{' {
      assert SharesNoChar(rules[i].value, rules[i].token);
      assert rules[i].token[0] == '{';
    }
  }

  /** Applying the first rule's `str_replace` and then scanning with the rest is scanning with all rules. */
  lemma {:induction false} ReplaceThenSubstitute(s: string, rules: seq<Rule>)
    requires WellFormed(rules) && rules != []
    ensures Substitute(Php.ReplaceAll(s, rules[0].token, rules[0].value), rules[1..]) == Substitute(s, rules)
    decreases |s|, 1
  {
    if s == [] {
    } else if Php.IsPrefix(rules[0].token, s) {
      ReplaceAtNeedle(s, rules);
    } else if FirstMatch(s, rules[1..]).Some? {
      ReplaceAtOtherToken(s, rules);
    } else {
      ReplaceAtPlainChar(s, rules);
    }
  }

  /** Case: the first rule's token starts `s`; `str_replace` emits its value, which the scan copies. */
  lemma {:induction false} ReplaceAtNeedle(s: string, rules: seq<Rule>)
    requires WellFormed(rules) && rules != []
    requires s != [] && Php.IsPrefix(rules[0].token, s)
    ensures Substitute(Php.ReplaceAll(s, rules[0].token, rules[0].value), rules[1..]) == Substitute(s, rules)
    decreases |s|, 0
  {
    var t, v, rest := rules[0].token, rules[0].value, rules[1..];
    WellFormedTail(rules);
    var tail := Php.ReplaceAll(s[|t|..], t, v);
    assert Php.ReplaceAll(s, t, v) == v + tail;
    ValueHasNoOpenBrace(rules, 0);
    SubstituteBraceFree(v, tail, rest);
    ReplaceThenSubstitute(s[|t|..], rules);
    FirstMatchAt(s, rules, 0);
  }

  /** Case: another rule's token starts `s`; `str_replace` copies it and the scan replaces it. */
  lemma {:induction false} ReplaceAtOtherToken(s: string, rules: seq<Rule>)
    requires WellFormed(rules) && rules != []
    requires s != [] && !Php.IsPrefix(rules[0].token, s) && FirstMatch(s, rules[1..]).Some?
    ensures Substitute(Php.ReplaceAll(s, rules[0].token, rules[0].value), rules[1..]) == Substitute(s, rules)
    decreases |s|, 0
  {
    var t, v, rest := rules[0].token, rules[0].value, rules[1..];
    WellFormedTail(rules);
    var i := FirstMatch(s, rest).value;
    var u := rest[i].token;
    assert rules[i + 1] == rest[i];
    FirstMatchAt(s, rules, i + 1);
    forall j | 0 <= j < |u| ensures !Php.IsPrefix(t, s[j..]) {
      if j == 0 {
        assert s[0..] == s;
      } else {
        assert s[j] == s[..|u|][j] == u[j];
        assert u[j] != '{' && t[0] == '{';
      }
    }
    ReplaceSkips(s, t, v, |u|);
    var tail := Php.ReplaceAll(s[|u|..], t, v);
    assert s[..|u|] == u;
    FirstMatchAt(u + tail, rest, i);
    assert (u + tail)[|u|..] == tail;
    ReplaceThenSubstitute(s[|u|..], rules);
  }

  /** Case: no token starts `s`; both sides copy its first character. */
  lemma {:induction false} ReplaceAtPlainChar(s: string, rules: seq<Rule>)
    requires WellFormed(rules) && rules != []
    requires s != [] && !Php.IsPrefix(rules[0].token, s) && FirstMatch(s, rules[1..]).None?
    ensures Substitute(Php.ReplaceAll(s, rules[0].token, rules[0].value), rules[1..]) == Substitute(s, rules)
    decreases |s|, 0
  {
    var t, v, rest := rules[0].token, rules[0].value, rules[1..];
    WellFormedTail(rules);
    var r := Php.ReplaceAll(s, t, v);
    FirstMatchSpec(s, rest);
    forall j | 0 <= j < |rest| ensures !Matches(rest[j].token, r) {
      assert rules[j + 1] == rest[j];
      assert !Matches(rest[j].token, s);
      assert SharesNoChar(v, rules[j + 1].token);
      PrefixSurvivesReplace(rest[j].token, s, t, v);
    }
    FirstMatchSpec(r, rest);
    assert r == [s[0]] + Php.ReplaceAll(s[1..], t, v);
    assert r[1..] == Php.ReplaceAll(s[1..], t, v);
    ReplaceThenSubstitute(s[1..], rules);
  }

  /** The sequential `str_replace` equals the single-scan substitution. */
  lemma {:induction false} InOrderEqualsSimultaneous(s: string, rules: seq<Rule>)
    requires WellFormed(rules)
    ensures ApplyInOrder(s, rules) == Substitute(s, rules)
    decreases |rules|
  {
    if rules == [] {
      SubstituteNoRules(s);
    } else {
      WellFormedTail(rules);
      InOrderEqualsSimultaneous(Php.ReplaceAll(s, rules[0].token, rules[0].value), rules[1..]);
      ReplaceThenSubstitute(s, rules);
    }
  }

  /** A token is replaced by its value and the scan carries on after it. */
  lemma SubstituteToken(i: nat, rest: string, rules: seq<Rule>)
    requires DistinctTokens(rules) && i < |rules|
    ensures Substitute(rules[i].token + rest, rules) == rules[i].value + Substitute(rest, rules)
  {
    var s := rules[i].token + rest;
    FirstMatchAt(s, rules, i);
    assert s[|rules[i].token|..] == rest;
  }

  /** No token spans an opening brace, so the scan of `a + b` splits there. */
  lemma {:induction false} SubstituteSplit(a: string, b: string, rules: seq<Rule>)
    requires DistinctTokens(rules)
    requires b == [] || b[0] == '{'
    ensures Substitute(a + b, rules) == Substitute(a, rules) + Substitute(b, rules)
    decreases |a|, 1
  {
    if a == [] {
      assert a + b == b;
      assert Substitute(a, rules) == [];
    } else if FirstMatch(a + b, rules).Some? {
      SplitAtToken(a, b, rules);
    } else {
      SplitAtChar(a, b, rules);
    }
  }

  lemma {:induction false} SplitAtToken(a: string, b: string, rules: seq<Rule>)
    requires DistinctTokens(rules)
    requires b == [] || b[0] == '{'
    requires a != [] && FirstMatch(a + b, rules).Some?
    ensures Substitute(a + b, rules) == Substitute(a, rules) + Substitute(b, rules)
    decreases |a|, 0
  {
    var s := a + b;
    var i := FirstMatch(s, rules).value;
    var u, val := rules[i].token, rules[i].value;
    TokenEndsBeforeBrace(u, a, b);
    FirstMatchAt(a, rules, i);
    assert s[|u|..] == a[|u|..] + b;
    SubstituteSplit(a[|u|..], b, rules);
    SubstituteStep(s, rules, i);
    SubstituteStep(a, rules, i);
  }

  lemma {:induction false} SplitAtChar(a: string, b: string, rules: seq<Rule>)
    requires DistinctTokens(rules)
    requires b == [] || b[0] == '{'
    requires a != [] && FirstMatch(a + b, rules).None?
    ensures Substitute(a + b, rules) == Substitute(a, rules) + Substitute(b, rules)
    decreases |a|, 0
  {
    var s := a + b;
    FirstMatchSpec(s, rules);
    forall j | 0 <= j < |rules| ensures !Matches(rules[j].token, a) {
      PrefixExtends(rules[j].token, a, b);
    }
    FirstMatchSpec(a, rules);
    assert s[1..] == a[1..] + b;
    SubstituteSplit(a[1..], b, rules);
    CopyStep(s, rules);
    CopyStep(a, rules);
  }

  /** A `{name}` token at the start of `a + b` ends inside `a` when `b` starts with a brace. */
  lemma TokenEndsBeforeBrace(u: string, a: string, b: string)
    requires BraceWord(u) && a != []
    requires b == [] || b[0] == '{'
    requires Php.IsPrefix(u, a + b)
    ensures |u| <= |a| && Php.IsPrefix(u, a)
  {
    var s := a + b;
    forall i | 0 < i < |u| ensures s[i] != '{' {
      assert s[i] == s[..|u|][i] == u[i];
    }
    if b != [] {
      assert s[|a|] == b[0];
    }
    assert a[..|u|] == s[..|u|];
  }

  lemma PrefixExtends(t: string, a: string, b: string)
    ensures Php.IsPrefix(t, a) ==> Php.IsPrefix(t, a + b)
  {
    if Php.IsPrefix(t, a) {
      assert (a + b)[..|t|] == a[..|t|];
    }
  }

  /** Same tokens, in the same order, with values of the same lengths. */
  predicate SameShape(r1: seq<Rule>, r2: seq<Rule>) {
    && |r1| == |r2|
    && forall i :: 0 <= i < |r1| ==> r1[i].token == r2[i].token && |r1[i].value| == |r2[i].value|
  }

  lemma {:induction false} FirstMatchTokensOnly(s: string, r1: seq<Rule>, r2: seq<Rule>)
    requires SameShape(r1, r2)
    ensures FirstMatch(s, r1) == FirstMatch(s, r2)
    decreases |r1|
  {
    if r1 != [] {
      assert SameShape(r1[1..], r2[1..]) by {
        forall i | 0 <= i < |r1| - 1
          ensures r1[1..][i].token == r2[1..][i].token && |r1[1..][i].value| == |r2[1..][i].value|
        {
          assert r1[1..][i] == r1[i + 1] && r2[1..][i] == r2[i + 1];
        }
      }
      FirstMatchTokensOnly(s, r1[1..], r2[1..]);
    }
  }

  /** Rules of the same shape give outputs of the same length. */
  lemma {:induction false} SubstituteSameShape(s: string, r1: seq<Rule>, r2: seq<Rule>)
    requires SameShape(r1, r2)
    ensures |Substitute(s, r1)| == |Substitute(s, r2)|
    decreases |s|
  {
    if s != [] {
      FirstMatchTokensOnly(s, r1, r2);
      match FirstMatch(s, r1)
      case Some(i) =>
        SubstituteSameShape(s[|r1[i].token|..], r1, r2);
      case None =>
        SubstituteSameShape(s[1..], r1, r2);
    }
  }

  /** When no token occurs anywhere in `s`, the sequential rewrite leaves it unchanged. */
  lemma {:induction false} ApplyInOrderWithoutTokens(s: string, rules: seq<Rule>)
    requires forall i, k :: 0 <= i < |rules| && 0 <= k < |s| ==> !Php.IsPrefix(rules[i].token, s[k..])
    ensures ApplyInOrder(s, rules) == s
    decreases |rules|
  {
    if rules != [] {
      Php.ReplaceAllWithoutNeedle(s, rules[0].token, rules[0].value);
      forall i, k | 0 <= i < |rules[1..]| && 0 <= k < |s| ensures !Php.IsPrefix(rules[1..][i].token, s[k..]) {
        assert rules[1..][i] == rules[i + 1];
      }
      ApplyInOrderWithoutTokens(s, rules[1..]);
    }
  }

  /**
   * A prefix of the scan's output that shares no character with any value
   * was copied from the input.
   */
  lemma {:induction false} PrefixSurvivesSubstitute(u: string, s: string, rules: seq<Rule>)
    requires forall i :: 0 <= i < |rules| ==> rules[i].value != [] && SharesNoChar(rules[i].value, u)
    ensures Php.IsPrefix(u, Substitute(s, rules)) ==> Php.IsPrefix(u, s)
    decreases |s|
  {
    var out := Substitute(s, rules);
    if u != [] && s != [] {
      match FirstMatch(s, rules)
      case Some(i) =>
        var v := rules[i].value;
        assert SharesNoChar(v, u);
        assert out[0] == v[0] != u[0];
      case None =>
        var out' := Substitute(s[1..], rules);
        assert out == [s[0]] + out';
        if Php.IsPrefix(u, out) {
          var u' := u[1..];
          forall i | 0 <= i < |rules| ensures SharesNoChar(rules[i].value, u') {
            assert SharesNoChar(rules[i].value, u);
          }
          assert Php.IsPrefix(u', out') by {
            assert out'[..|u'|] == out[1..|u|];
          }
          PrefixSurvivesSubstitute(u', s[1..], rules);
          assert s[..|u|] == [s[0]] + s[1..][..|u'|];
        }
    }
  }

  /** No token occurs anywhere in the scan's output: every token in the input was replaced. */
  lemma {:induction false} SubstituteLeavesNoToken(s: string, rules: seq<Rule>)
    requires WellFormed(rules)
    ensures forall i, k :: 0 <= i < |rules| && 0 <= k < |Substitute(s, rules)| ==>
      !Php.IsPrefix(rules[i].token, Substitute(s, rules)[k..])
    decreases |s|
  {
    var out := Substitute(s, rules);
    if s != [] {
      forall i, k | 0 <= i < |rules| && 0 <= k < |out| ensures !Php.IsPrefix(rules[i].token, out[k..]) {
        var t := rules[i].token;
        assert BraceWord(t);
        match FirstMatch(s, rules)
        case Some(j) =>
          var v := rules[j].value;
          var out' := Substitute(s[|rules[j].token|..], rules);
          assert out == v + out';
          if k < |v| {
            assert out[k..][0] == v[k];
            assert SharesNoChar(v, t);
            assert v[k] != t[0];
          } else {
            SubstituteLeavesNoToken(s[|rules[j].token|..], rules);
            assert out[k..] == out'[k - |v|..];
          }
        case None =>
          var out' := Substitute(s[1..], rules);
          assert out == [s[0]] + out';
          if k == 0 {
            forall m | 0 <= m < |rules| ensures rules[m].value != [] && SharesNoChar(rules[m].value, t) {
            }
            PrefixSurvivesSubstitute(t, s, rules);
            FirstMatchSpec(s, rules);
            assert !Matches(t, s);
            assert out[0..] == out;
          } else {
            SubstituteLeavesNoToken(s[1..], rules);
            assert out[k..] == out'[k - 1..];
          }
      }
    }
  }
}
