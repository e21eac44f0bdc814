/**
 * Alias matching (src/index.ts line 30-31): an alias is turned into the
 * anchored regular expression `^alias$` with its first `*` replaced by `.*`.
 * `AliasMatches` states the match as a prefix/suffix split at the first `*`;
 * `Full` is an independent matcher for the regular expressions such an alias
 * compiles to, and `RegexAgreement` proves the two agree.
 */
module Patterns {
  import opened Wrappers
  import opened Strings

  /** The ECMAScript line terminators, which `.` does not match (the regular expression has no `s` flag). */
  predicate IsLineTerminator(c: char)
  {
    c == '\n' || c == '\r' || c == '\U{2028}' || c == '\U{2029}'
  }

  predicate NoLineTerminator(s: string)
  {
    forall i :: 0 <= i < |s| ==> !IsLineTerminator(s[i])
  }

  /** Characters other than `*` that have a meaning of their own in a JavaScript regular expression. */
  predicate IsRegexMeta(c: char)
  {
    c in "\\^$.|?+()[]{}"
  }

  /** An alias holding at most one `*` and no other regular-expression operator. */
  predicate PlainPattern(alias: string)
  {
    && (forall i :: 0 <= i < |alias| ==> !IsRegexMeta(alias[i]))
    && (forall i, j :: 0 <= i < j < |alias| && alias[i] == '*' ==> alias[j] != '*')
  }

  /** The alias `alias` matches the specifier `specifier`: the specifier starts with the text before the first `*`, ends with the text after it, and what lies between holds no line terminator; without a `*` only the alias itself matches. */
  predicate AliasMatches(alias: string, specifier: string)
    requires PlainPattern(alias)
  {
    match IndexOf(alias, "*")
    case None => specifier == alias
    case Some(k) => SplitMatch(alias[..k], alias[k + 1..], specifier)
  }

  /** `s` starts with `prefix`, ends with `suffix` (not overlapping it), and what lies between holds no line terminator. */
  predicate SplitMatch(prefix: string, suffix: string, s: string)
  {
    && |prefix| + |suffix| <= |s|
    && s[..|prefix|] == prefix
    && s[|s| - |suffix|..] == suffix
    && NoLineTerminator(s[|prefix|..|s| - |suffix|])
  }

  /** The text of the alias before its first `*` (all of it when there is none). */
  function StarPrefix(alias: string): (p: string)
    ensures |p| <= |alias| && p == alias[..|p|]
  {
    match IndexOf(alias, "*")
    case None => alias
    case Some(k) => alias[..k]
  }

  /** An alias without `*` matches exactly the one specifier equal to it; one that merely contains the alias does not. */
  lemma LiteralAliasMatches(alias: string, specifier: string)
    requires PlainPattern(alias) && '*' !in alias
    ensures AliasMatches(alias, specifier) <==> specifier == alias
  {
    forall j: nat ensures !OccursAt(alias, "*", j) {
      if j + 1 <= |alias| {
        assert alias[j..j + 1] == [alias[j]];
      }
    }
  }

  /** The first `*` of `prefix + "*" + suffix` sits at `|prefix|` when the pattern is plain. */
  lemma StarAt(prefix: string, suffix: string)
    requires PlainPattern(prefix + "*" + suffix)
    ensures IndexOf(prefix + "*" + suffix, "*") == Some(|prefix|)
  {
    var alias := prefix + "*" + suffix;
    assert alias[|prefix|] == '*';
    assert alias[|prefix|..|prefix| + 1] == "*";
    assert OccursAt(alias, "*", |prefix|);
    var k := IndexOf(alias, "*").value;
    assert alias[k..k + 1] == "*";
    assert alias[k] == '*';
  }

  /** A wildcard alias `prefix*suffix` matches exactly the specifiers `prefix + x + suffix`, for any `x` (the empty one included) free of line terminators. */
  lemma WildcardAliasMatches(prefix: string, suffix: string, specifier: string)
    requires PlainPattern(prefix + "*" + suffix)
    ensures AliasMatches(prefix + "*" + suffix, specifier)
        <==> exists x :: specifier == prefix + x + suffix && NoLineTerminator(x)
  {
    var alias := prefix + "*" + suffix;
    StarAt(prefix, suffix);
    assert alias[..|prefix|] == prefix;
    assert alias[|prefix| + 1..] == suffix;
    assert AliasMatches(alias, specifier) == SplitMatch(prefix, suffix, specifier);
    if AliasMatches(alias, specifier) {
      var x := specifier[|prefix|..|specifier| - |suffix|];
      assert specifier == prefix + x + suffix;
    }
    if exists x :: specifier == prefix + x + suffix && NoLineTerminator(x) {
      var x :| specifier == prefix + x + suffix && NoLineTerminator(x);
      assert specifier[..|prefix|] == prefix;
      assert specifier[|specifier| - |suffix|..] == suffix;
      assert specifier[|prefix|..|specifier| - |suffix|] == x;
    }
  }

  /** One element of a compiled regular expression: a literal character, or `.*`. */
  datatype Atom = Char(c: char) | AnyRun

  /** The source text of the regular expression built from an alias, without its anchors. */
  function RegexSource(alias: string): string
  {
    ReplaceFirst(alias, "*", ".*")
  }

  /** Reads a regular-expression source in which `.*` is the only operator. */
  function ParseRegex(source: string): seq<Atom>
  {
    if source == [] then []
    else if |source| >= 2 && source[0] == '.' && source[1] == '*' then [AnyRun] + ParseRegex(source[2..])
    else [Char(source[0])] + ParseRegex(source[1..])
  }

  /** The atoms matching the characters of `s` literally. */
  function Literals(s: string): seq<Atom>
  {
    if s == [] then [] else [Char(s[0])] + Literals(s[1..])
  }

  /** The anchored regular expression `re` matches the whole of `s`. */
  predicate Full(re: seq<Atom>, s: string)
    decreases |re|, |s|
  {
    if re == [] then s == []
    else match re[0]
      case Char(c) => s != [] && s[0] == c && Full(re[1..], s[1..])
      case AnyRun => Full(re[1..], s) || (s != [] && !IsLineTerminator(s[0]) && Full(re, s[1..]))
  }

  lemma {:induction false} ParseLiterals(p: string, rest: string)
    requires forall i :: 0 <= i < |p| ==> p[i] != '.'
    ensures ParseRegex(p + rest) == Literals(p) + ParseRegex(rest)
    decreases |p|
  {
    if p != [] {
      assert (p + rest)[0] == p[0];
      assert (p + rest)[1..] == p[1..] + rest;
      ParseLiterals(p[1..], rest);
    } else {
      assert p + rest == rest;
    }
  }

  lemma {:induction false} FullLiterals(p: string, rest: seq<Atom>, s: string)
    ensures Full(Literals(p) + rest, s) <==> |p| <= |s| && s[..|p|] == p && Full(rest, s[|p|..])
    decreases |p|
  {
    if p == [] {
      assert Literals(p) + rest == rest;
      assert s[..0] == p && s[0..] == s;
    } else {
      var re := Literals(p) + rest;
      assert re[0] == Char(p[0]);
      assert re[1..] == Literals(p[1..]) + rest;
      if s != [] {
        FullLiterals(p[1..], rest, s[1..]);
        if |p| <= |s| {
          assert s[1..][|p| - 1..] == s[|p|..];
          assert s[..|p|] == [s[0]] + s[1..][..|p| - 1];
          assert p == [p[0]] + p[1..];
        }
      }
    }
  }

  lemma {:induction false} FullAnyRunThenLiterals(q: string, s: string)
    ensures Full([AnyRun] + Literals(q), s)
        <==> |q| <= |s| && s[|s| - |q|..] == q && NoLineTerminator(s[..|s| - |q|])
    decreases |s|
  {
    var re := [AnyRun] + Literals(q);
    assert re[0] == AnyRun && re[1..] == Literals(q);
    FullLiterals(q, [], s);
    assert Literals(q) + [] == Literals(q);
    if |q| <= |s| {
      assert s[..|q|] == q && s[|q|..] == [] <==> s == q;
    }
    if s != [] {
      FullAnyRunThenLiterals(q, s[1..]);
      var t := s[1..];
      if |q| <= |t| {
        assert t[|t| - |q|..] == s[|s| - |q|..];
        assert s[..|s| - |q|] == [s[0]] + t[..|t| - |q|];
        assert NoLineTerminator(s[..|s| - |q|]) <==> !IsLineTerminator(s[0]) && NoLineTerminator(t[..|t| - |q|]) by {
          var u := s[..|s| - |q|];
          assert u[0] == s[0];
          assert forall i :: 1 <= i < |u| ==> u[i] == t[..|t| - |q|][i - 1];
        }
      }
      if |q| == |s| {
        assert s[|s| - |q|..] == s;
        assert s[..|s| - |q|] == [];
      }
    } else {
      assert s[..0] == [];
    }
  }

  /** A plain alias without `*` compiles to its own characters. */
  lemma CompileLiteral(alias: string)
    requires PlainPattern(alias) && IndexOf(alias, "*").None?
    ensures ParseRegex(RegexSource(alias)) == Literals(alias)
  {
    assert RegexSource(alias) == alias;
    ParseLiterals(alias, []);
    assert alias + [] == alias;
  }

  /** A plain alias with its `*` at `k` compiles to the literal prefix, `.*`, and the literal suffix. */
  lemma CompileWildcard(alias: string, k: nat)
    requires PlainPattern(alias) && IndexOf(alias, "*") == Some(k)
    ensures ParseRegex(RegexSource(alias)) == Literals(alias[..k]) + ([AnyRun] + Literals(alias[k + 1..]))
  {
    var prefix, suffix := alias[..k], alias[k + 1..];
    assert FirstOccurrence(alias, "*", k);
    assert RegexSource(alias) == prefix + (".*" + suffix);
    assert forall i :: 0 <= i < |prefix| ==> prefix[i] == alias[i];
    assert forall i :: 0 <= i < |suffix| ==> suffix[i] == alias[k + 1 + i];
    ParseLiterals(prefix, ".*" + suffix);
    assert (".*" + suffix)[2..] == suffix;
    ParseLiterals(suffix, []);
    assert suffix + [] == suffix;
  }

  lemma SplitAgreement(prefix: string, suffix: string, s: string)
    ensures (&& |prefix| <= |s| && s[..|prefix|] == prefix
             && Full([AnyRun] + Literals(suffix), s[|prefix|..]))
        <==> SplitMatch(prefix, suffix, s)
  {
    if |prefix| <= |s| {
      var t := s[|prefix|..];
      FullAnyRunThenLiterals(suffix, t);
      if |suffix| <= |t| {
        assert t[|t| - |suffix|..] == s[|s| - |suffix|..];
        assert t[..|t| - |suffix|] == s[|prefix|..|s| - |suffix|];
      }
    }
  }

  lemma WildcardAgreement(alias: string, k: nat, specifier: string)
    requires PlainPattern(alias) && IndexOf(alias, "*") == Some(k)
    ensures Full(ParseRegex(RegexSource(alias)), specifier) <==> AliasMatches(alias, specifier)
  {
    var prefix, suffix := alias[..k], alias[k + 1..];
    CompileWildcard(alias, k);
    FullLiterals(prefix, [AnyRun] + Literals(suffix), specifier);
    SplitAgreement(prefix, suffix, specifier);
  }

  /** The regular expression the source builds from a plain alias matches exactly the specifiers `AliasMatches` admits. */
  lemma RegexAgreement(alias: string, specifier: string)
    requires PlainPattern(alias)
    ensures Full(ParseRegex(RegexSource(alias)), specifier) <==> AliasMatches(alias, specifier)
  {
    match IndexOf(alias, "*")
    case None =>
      CompileLiteral(alias);
      FullLiterals(alias, [], specifier);
      assert Literals(alias) + [] == Literals(alias);
    case Some(k) =>
      WildcardAgreement(alias, k, specifier);
  }
}
