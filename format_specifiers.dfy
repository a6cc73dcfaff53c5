/**
  The string-parameter rewrite applied when an Android localization is converted
  to iOS: every match of the pattern `%([0-9]+\$)?s` is replaced by `%$1@`, so a
  Java string parameter `%s` / `%2$s` becomes the iOS object parameter `%@` / `%2$@`.
  The regular-expression engine is replaced by an explicit left-to-right,
  non-overlapping scan for this one fixed pattern.
*/
module FormatSpecifiers {
  import opened Wrappers

  predicate IsDigit(c: char) {
    '0' <= c <= '9'
  }

  predicate AllDigits(s: string) {
    forall i :: 0 <= i < |s| ==> IsDigit(s[i])
  }

  /** True when `t`, as a whole, matches `%([0-9]+\$)?s`. */
  predicate IsSpecifier(t: string) {
    && |t| >= 2
    && t[0] == '%'
    && t[|t| - 1] == 's'
    && (|t| == 2 || (|t| >= 4 && t[|t| - 2] == '$' && AllDigits(t[1..|t| - 2])))
  }

  /** What the optional group `([0-9]+\$)` can capture: nothing, or digits followed by `$`. */
  predicate IsPositionalGroup(g: string) {
    g == "" || (|g| >= 2 && AllDigits(g[..|g| - 1]) && g[|g| - 1] == '$')
  }

  /** True when no substring of `s` matches the pattern. */
  predicate ContainsNoSpecifier(s: string) {
    forall i, j :: 0 <= i <= j <= |s| ==> !IsSpecifier(s[i..j])
  }

  /** Length of the longest run of digits at the start of `s` (the greedy `[0-9]+`). */
  function LeadingDigits(s: string): (n: nat)
    ensures n <= |s|
  {
    if |s| > 0 && IsDigit(s[0]) then 1 + LeadingDigits(s[1..]) else 0
  }

  /** The run counted by `LeadingDigits` is all digits and cannot be extended. */
  lemma {:induction false} LeadingDigitsMaximal(s: string)
    ensures AllDigits(s[..LeadingDigits(s)])
    ensures LeadingDigits(s) < |s| ==> !IsDigit(s[LeadingDigits(s)])
  {
    if |s| > 0 && IsDigit(s[0]) {
      LeadingDigitsMaximal(s[1..]);
      var n := LeadingDigits(s);
      assert forall i :: 1 <= i < n ==> s[..n][i] == s[1..][..n - 1][i - 1];
    }
  }

  /**
    The match of the pattern at the very start of `s`, given as the text captured by
    the optional positional group (`""` when the group did not participate).
  */
  function MatchAtStart(s: string): (m: Option<string>)
    ensures m.Some? ==> |m.value| + 2 <= |s|
  {
    if |s| < 2 || s[0] != '%' then None
    else
      var d := LeadingDigits(s[1..]);
      if 0 < d && d + 3 <= |s| && s[d + 1] == '$' && s[d + 2] == 's' then Some(s[1..d + 2])
      else if s[1] == 's' then Some("")
      else None
  }

  /** What the scan reports as a match is a match: a prefix of `s` matching the pattern. */
  lemma MatchAtStartSound(s: string)
    requires MatchAtStart(s).Some?
    ensures var g := MatchAtStart(s).value; IsSpecifier(s[..|g| + 2]) && g == s[1..|g| + 1]
  {
    var d := LeadingDigits(s[1..]);
    if 0 < d && d + 3 <= |s| && s[d + 1] == '$' && s[d + 2] == 's' {
      LeadingDigitsMaximal(s[1..]);
      assert AllDigits(s[1..d + 1]) by { assert s[1..][..d] == s[1..d + 1]; }
      assert s[..d + 3][1..d + 1] == s[1..d + 1];
    }
  }

  /**
    `r` is `s` with some `s` conversion letters turned into `@` and every other
    character left in place.
  */
  predicate OnlyParameterLettersChanged(s: string, r: string) {
    && |r| == |s|
    && forall i {:trigger r[i]} :: 0 <= i < |s| ==> r[i] == s[i] || (s[i] == 's' && r[i] == '@')
  }

  /** `replacingMatches(in:)` for the replacer built with `%([0-9]+\$)?s` and `%$1@`. */
  function ReplaceStringParameters(s: string): (r: string)
    ensures |r| == |s|
    decreases |s|
  {
    if s == [] then []
    else
      match MatchAtStart(s)
      case Some(g) =>
        var rest := ReplaceStringParameters(s[|g| + 2..]);
        "%" + g + "@" + rest
      case None => [s[0]] + ReplaceStringParameters(s[1..])
  }

  /** Changing only parameter letters is preserved by concatenation. */
  lemma ConcatChangesOnlyParameterLetters(s1: string, r1: string, s2: string, r2: string)
    requires OnlyParameterLettersChanged(s1, r1) && OnlyParameterLettersChanged(s2, r2)
    ensures OnlyParameterLettersChanged(s1 + s2, r1 + r2)
  {
    var s, r := s1 + s2, r1 + r2;
    forall i | 0 <= i < |s| ensures r[i] == s[i] || (s[i] == 's' && r[i] == '@') {
      if i >= |s1| {
        assert r[i] == r2[i - |s1|] && s[i] == s2[i - |s1|];
      } else {
        assert r[i] == r1[i] && s[i] == s1[i];
      }
    }
  }

  /** The rewrite turns some `s` conversion letters into `@` and leaves every other character in place. */
  lemma {:induction false} OnlyParameterLettersReplaced(s: string)
    ensures OnlyParameterLettersChanged(s, ReplaceStringParameters(s))
    decreases |s|
  {
    if s != [] {
      match MatchAtStart(s)
      case Some(g) =>
        var n := |g| + 2;
        var t, u, rest := "%" + g + "s", "%" + g + "@", s[n..];
        var r := ReplaceStringParameters(rest);
        assert s == t + rest by {
          MatchAtStartSound(s);
          assert s[..n] == t;
        }
        assert ReplaceStringParameters(s) == u + r;
        assert OnlyParameterLettersChanged(t, u) by {
          assert forall i :: 0 <= i < |t| - 1 ==> u[i] == t[i];
        }
        OnlyParameterLettersReplaced(rest);
        ConcatChangesOnlyParameterLetters(t, u, rest, r);
      case None =>
        var rest := s[1..];
        var r := ReplaceStringParameters(rest);
        assert s == [s[0]] + rest;
        assert ReplaceStringParameters(s) == [s[0]] + r;
        OnlyParameterLettersReplaced(rest);
        ConcatChangesOnlyParameterLetters([s[0]], [s[0]], rest, r);
    }
  }

  /** The scan finds a match at the start of `s` whenever some prefix of `s` matches. */
  lemma MatchAtStartComplete(s: string, n: nat)
    requires n <= |s| && IsSpecifier(s[..n])
    ensures MatchAtStart(s).Some? && |MatchAtStart(s).value| + 2 == n
  {
    if n > 2 {
      var d := LeadingDigits(s[1..]);
      LeadingDigitsMaximal(s[1..]);
      assert s[..n][1..n - 2] == s[1..][..n - 3];
      assert !IsDigit(s[1..][n - 3]);
    }
  }

  /** Where no match starts, the scan copies one character and goes on after it. */
  lemma CopiesUnmatched(v: string)
    requires v != [] && MatchAtStart(v).None?
    ensures ReplaceStringParameters(v) == [v[0]] + ReplaceStringParameters(v[1..])
  {
  }

  /** Text without a `%` cannot start a match, so the scan copies it through unchanged. */
  lemma {:induction false} PassThrough(x: string, t: string)
    requires forall i :: 0 <= i < |x| ==> x[i] != '%'
    ensures ReplaceStringParameters(x + t) == x + ReplaceStringParameters(t)
  {
    if x != [] {
      var v := x + t;
      assert v[0] != '%';
      var rt := ReplaceStringParameters(t);
      calc {
        ReplaceStringParameters(v);
        { CopiesUnmatched(v); }
        [x[0]] + ReplaceStringParameters(v[1..]);
        { assert v[1..] == x[1..] + t; }
        [x[0]] + ReplaceStringParameters(x[1..] + t);
        { PassThrough(x[1..], t); }
        [x[0]] + (x[1..] + rt);
        ([x[0]] + x[1..]) + rt;
        { assert [x[0]] + x[1..] == x; }
        x + rt;
      }
    } else {
      assert x + t == t;
    }
  }

  /** Text without a `%` contains no parameter and is left as it is. */
  lemma {:induction false} NoPercentUnchanged(x: string)
    requires forall i :: 0 <= i < |x| ==> x[i] != '%'
    ensures ReplaceStringParameters(x) == x
    decreases |x|
  {
    if x != [] {
      CopiesUnmatched(x);
      NoPercentUnchanged(x[1..]);
    }
  }

  /** A match of the pattern never contains `@`. */
  lemma SpecifierHasNoAt(t: string, k: nat)
    requires IsSpecifier(t) && k < |t|
    ensures t[k] != '@'
  {
    if 0 < k < |t| - 2 {
      assert IsDigit(t[1..|t| - 2][k - 1]);
    }
  }

  /**
    The rewrite only ever writes `@`, so every match found in rewritten text was
    already in the original text: the rewrite creates no new parameter.
  */
  lemma NoNewMatch(s: string, r: string, i: nat, j: nat)
    requires OnlyParameterLettersChanged(s, r)
    requires i <= j <= |r| && IsSpecifier(r[i..j])
    ensures s[i..j] == r[i..j]
  {
    var t := r[i..j];
    forall k | 0 <= k < |t|
      ensures s[i..j][k] == t[k]
    {
      SpecifierHasNoAt(t, k);
      assert t[k] == r[i + k];
    }
  }

  /** A `%` that did not start a match still does not start one once the text after it is rewritten. */
  lemma PercentStaysUnmatched(u: string, r: string)
    requires OnlyParameterLettersChanged(u, r)
    requires MatchAtStart("%" + u).None?
    ensures MatchAtStart("%" + r).None?
  {
    var v := "%" + r;
    var m := MatchAtStart(v);
    if m.Some? {
      var n := |m.value| + 2;
      MatchAtStartSound(v);
      assert OnlyParameterLettersChanged("%" + u, v) by {
        forall i | 0 <= i < |v| ensures v[i] == ("%" + u)[i] || (("%" + u)[i] == 's' && v[i] == '@') {
          if i > 0 { assert v[i] == r[i - 1]; }
        }
      }
      NoNewMatch("%" + u, v, 0, n);
      assert ("%" + u)[..n] == v[..n];
      MatchAtStartComplete("%" + u, n);
    }
  }

  /**
    A parameter whose conversion letter `c` is not `s` (`%d`, `%2$f`, and the `%@`
    the rewrite itself writes) does not match the pattern.
  */
  lemma OtherConversionUnmatched(g: string, c: char, x: string)
    requires IsPositionalGroup(g) && c != 's' && (g == "" ==> !IsDigit(c))
    ensures MatchAtStart("%" + g + [c] + x).None?
  {
    var v := "%" + g + [c] + x;
    var d := LeadingDigits(v[1..]);
    LeadingDigitsMaximal(v[1..]);
    if g != "" {
      assert v[1..][..|g| - 1] == g[..|g| - 1];
      assert v[1..][|g| - 1] == '$';
      assert IsDigit(v[1]) by { assert v[1] == g[..|g| - 1][0]; }
    } else {
      assert v[1] == c;
    }
  }

  /** The scan copies a parameter whose conversion letter is not `s`. */
  lemma OtherConversionUnchanged(g: string, c: char, x: string)
    requires IsPositionalGroup(g) && c != 's' && c != '%' && (g == "" ==> !IsDigit(c))
    ensures ReplaceStringParameters("%" + g + [c] + x) == "%" + g + [c] + ReplaceStringParameters(x)
  {
    OtherConversionUnmatched(g, c, x);
    NoPercentAfterFirst(g, c);
    UnmatchedPrefixPassThrough("%" + g + [c], x);
  }

  /** Only the leading `%` of a parameter is a `%`. */
  lemma NoPercentAfterFirst(g: string, c: char)
    requires IsPositionalGroup(g) && c != '%'
    ensures forall i :: 1 <= i < |"%" + g + [c]| ==> ("%" + g + [c])[i] != '%'
  {
    var p := "%" + g + [c];
    forall i | 1 <= i < |p|
      ensures p[i] != '%'
    {
      if i <= |g| {
        assert p[i] == g[i - 1];
        if i < |g| { assert IsDigit(g[..|g| - 1][i - 1]); }
      }
    }
  }

  /** An unmatched `%` followed by text without `%` is copied through by the scan. */
  lemma UnmatchedPrefixPassThrough(p: string, x: string)
    requires p != [] && MatchAtStart(p + x).None?
    requires forall i :: 1 <= i < |p| ==> p[i] != '%'
    ensures ReplaceStringParameters(p + x) == p + ReplaceStringParameters(x)
  {
    var v := p + x;
    var rx := ReplaceStringParameters(x);
    calc {
      ReplaceStringParameters(v);
      { CopiesUnmatched(v); }
      [p[0]] + ReplaceStringParameters(v[1..]);
      { assert v[1..] == p[1..] + x; }
      [p[0]] + ReplaceStringParameters(p[1..] + x);
      { PassThrough(p[1..], x); }
      [p[0]] + (p[1..] + rx);
      ([p[0]] + p[1..]) + rx;
      { assert [p[0]] + p[1..] == p; }
      p + rx;
    }
  }

  /** The text between `%` and `s` in a match is what the positional group captures. */
  lemma SpecifierGroup(t: string)
    requires IsSpecifier(t)
    ensures IsPositionalGroup(t[1..|t| - 1])
  {
    var g := t[1..|t| - 1];
    if |t| > 2 {
      assert g[..|g| - 1] == t[1..|t| - 2];
    }
  }

  /** A parameter `%s` or `%<n>$s` at the start of the text is rewritten to `%@` or `%<n>$@`. */
  lemma ReplacesLeadingParameter(g: string, x: string)
    requires IsPositionalGroup(g)
    ensures ReplaceStringParameters("%" + g + "s" + x) == "%" + g + "@" + ReplaceStringParameters(x)
  {
    var v := "%" + g + "s" + x;
    var n := |g| + 2;
    assert MatchAtStart(v) == Some(g) by {
      assert v[..n] == "%" + g + "s";
      if g != "" {
        assert ("%" + g + "s")[1..n - 2] == g[..|g| - 1];
      }
      MatchAtStartComplete(v, n);
      assert v[1..n - 1] == g;
    }
    assert v[n..] == x;
  }

  /** Rewriting already rewritten text changes nothing. */
  lemma {:induction false} ReplaceIdempotent(s: string)
    ensures ReplaceStringParameters(ReplaceStringParameters(s)) == ReplaceStringParameters(s)
    decreases |s|
  {
    if s != [] {
      match MatchAtStart(s)
      case Some(g) =>
        var rest := s[|g| + 2..];
        MatchAtStartSound(s);
        SpecifierGroup(s[..|g| + 2]);
        assert s[..|g| + 2][1..|g| + 1] == g;
        ReplaceIdempotent(rest);
        OtherConversionUnchanged(g, '@', ReplaceStringParameters(rest));
      case None =>
        var u := s[1..];
        var r := ReplaceStringParameters(u);
        ReplaceIdempotent(u);
        if s[0] == '%' {
          assert s == "%" + u;
          OnlyParameterLettersReplaced(u);
          PercentStaysUnmatched(u, r);
        }
        CopiesUnmatched([s[0]] + r);
        assert ([s[0]] + r)[1..] == r;
    }
  }

  /** A match at the start of `s` is a specifier in `s`, and the rewrite changes its letter. */
  lemma MatchIsRewritten(s: string)
    requires MatchAtStart(s).Some?
    ensures ReplaceStringParameters(s) != s
    ensures !ContainsNoSpecifier(s)
  {
    var g := MatchAtStart(s).value;
    MatchAtStartSound(s);
    assert ReplaceStringParameters(s)[|g| + 1] == '@';
    assert s[..|g| + 2][|g| + 1] == 's';
    assert s[0..|g| + 2] == s[..|g| + 2];
  }

  /** Dropping the first character keeps a text free of specifiers. */
  lemma NoSpecifierInTail(s: string)
    requires s != [] && ContainsNoSpecifier(s)
    ensures ContainsNoSpecifier(s[1..])
  {
    var u := s[1..];
    forall i, j | 0 <= i <= j <= |u|
      ensures !IsSpecifier(u[i..j])
    {
      assert u[i..j] == s[i + 1..j + 1];
    }
  }

  /** A text without a match at its start and none in its tail has no specifier at all. */
  lemma NoSpecifierFromTail(s: string)
    requires s != [] && MatchAtStart(s).None? && ContainsNoSpecifier(s[1..])
    ensures ContainsNoSpecifier(s)
  {
    var u := s[1..];
    forall i, j | 0 <= i <= j <= |s|
      ensures !IsSpecifier(s[i..j])
    {
      if i == 0 {
        if IsSpecifier(s[..j]) {
          MatchAtStartComplete(s, j);
        }
      } else {
        assert s[i..j] == u[i - 1..j - 1];
      }
    }
  }

  /** The rewrite leaves `s` unchanged exactly when `s` contains no match of the pattern. */
  lemma {:induction false} ReplaceIdentityIffNoSpecifier(s: string)
    ensures ReplaceStringParameters(s) == s <==> ContainsNoSpecifier(s)
    decreases |s|
  {
    if s == [] {
      assert ContainsNoSpecifier(s) by {
        forall i, j | 0 <= i <= j <= |s| ensures !IsSpecifier(s[i..j]) { }
      }
    } else if MatchAtStart(s).Some? {
      MatchIsRewritten(s);
    } else {
      var u := s[1..];
      var ru := ReplaceStringParameters(u);
      ReplaceIdentityIffNoSpecifier(u);
      CopiesUnmatched(s);
      assert ReplaceStringParameters(s) == s <==> ru == u by {
        assert s == [s[0]] + u;
        assert ([s[0]] + ru)[1..] == ru;
      }
      if ContainsNoSpecifier(s) {
        NoSpecifierInTail(s);
      }
      if ContainsNoSpecifier(u) {
        NoSpecifierFromTail(s);
      }
    }
  }

  /** Every match is replaced: the rewritten text contains no `%…s` parameter any more. */
  lemma RewrittenContainsNoSpecifier(s: string)
    ensures ContainsNoSpecifier(ReplaceStringParameters(s))
  {
    ReplaceIdempotent(s);
    ReplaceIdentityIffNoSpecifier(ReplaceStringParameters(s));
  }

  /** `%s` becomes `%@`. */
  lemma UnpositionalExample()
    ensures ReplaceStringParameters("%s") == "%@"
  {
    ReplacesLeadingParameter("", "");
  }

  /** `%1$s` becomes `%1$@`: the positional index is kept. */
  lemma PositionalExample()
    ensures ReplaceStringParameters("%1$s") == "%1$@"
  {
    var s := "%" + "1$" + "s" + "";
    assert ReplaceStringParameters(s) == "%" + "1$" + "@" + ReplaceStringParameters("") by {
      assert IsPositionalGroup("1$") by { assert "1$"[..1] == "1"; }
      ReplacesLeadingParameter("1$", "");
    }
    assert s == "%1$s";
  }

  /** `%d` is not a string parameter and is left alone. */
  lemma OtherConversionExample()
    ensures ReplaceStringParameters("%d") == "%d"
  {
    OtherConversionUnchanged("", 'd', "");
  }

  /** `%1$d` is not a string parameter either, positional or not. */
  lemma PositionalOtherConversionExample()
    ensures ReplaceStringParameters("%1$d") == "%1$d"
  {
    var s := "%" + "1$" + "d" + "";
    assert ReplaceStringParameters(s) == "%" + "1$" + "d" + ReplaceStringParameters("") by {
      assert IsPositionalGroup("1$") by { assert "1$"[..1] == "1"; }
      OtherConversionUnchanged("1$", 'd', "");
    }
    assert s == "%1$d";
  }
}
