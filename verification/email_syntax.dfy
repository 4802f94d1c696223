/**
 * The address grammar `EMAIL_RE` of utils.py, as a character-level predicate.
 *
 * A match is: one or more local-part characters (ASCII letters, digits and
 * `. _ % + - '`), an `@`, one or more host characters (ASCII letters, digits,
 * `.` and `-`), a final `.`, and at least two ASCII letters. The pattern is
 * applied with Python's `re.match` and ends in `$`, which also matches just
 * before a newline that ends the string: `EmailRe` accepts such a string too.
 */
module EmailSyntax {
  import opened Common
  import opened Text

  predicate IsAsciiLetter(c: char) {
    'A' <= c <= 'Z' || 'a' <= c <= 'z'
  }

  predicate IsDigit(c: char) {
    '0' <= c <= '9'
  }

  predicate IsLocalChar(c: char) {
    IsAsciiLetter(c) || IsDigit(c)
    || c == '.' || c == '_' || c == '%' || c == '+' || c == '-' || c == '\''
  }

  predicate IsHostChar(c: char) {
    IsAsciiLetter(c) || IsDigit(c) || c == '.' || c == '-'
  }

  predicate AllLocal(s: string) {
    forall i :: 0 <= i < |s| ==> IsLocalChar(s[i])
  }

  predicate AllHost(s: string) {
    forall i :: 0 <= i < |s| ==> IsHostChar(s[i])
  }

  predicate AllLetters(s: string) {
    forall i :: 0 <= i < |s| ==> IsAsciiLetter(s[i])
  }

  /** `s` splits as local part, `@` at `i`, host run, the final `.` at `j`, and
      two or more letters: the pattern's own shape, positions made explicit. */
  predicate ShapedAt(s: string, i: int, j: int) {
    && 1 <= i && i + 2 <= j && j + 3 <= |s|
    && s[i] == '@' && s[j] == '.'
    && AllLocal(s[..i]) && AllHost(s[i + 1..j]) && AllLetters(s[j + 1..])
  }

  /** Reference: the whole of `s` matches the pattern (without the newline allowance). */
  ghost predicate Grammar(s: string) {
    exists i, j :: ShapedAt(s, i, j)
  }

  /** The part after the `@`: a host run, the last `.`, two or more letters. */
  predicate HostAndTld(d: string) {
    match LastIndexOf(d, '.')
    case None => false
    case Some(k) => 1 <= k && k + 3 <= |d| && AllHost(d[..k]) && AllLetters(d[k + 1..])
  }

  /** Whole-string match, decided by locating the first `@` and the last `.`. */
  predicate StrictMatch(s: string) {
    match FirstIndexOf(s, '@')
    case None => false
    case Some(i) => 1 <= i && AllLocal(s[..i]) && HostAndTld(s[i + 1..])
  }

  /** `EMAIL_RE.match(s)` is truthy. */
  predicate EmailRe(s: string) {
    StrictMatch(s) || (s != [] && s[|s| - 1] == '\n' && StrictMatch(s[..|s| - 1]))
  }

  /** `EMAIL_RE.match(s)` holds exactly when `s`, or `s` without one final
      newline, has the pattern's shape. */
  lemma EmailReIsPattern(s: string)
    ensures EmailRe(s) <==> Grammar(s) || (s != [] && s[|s| - 1] == '\n' && Grammar(s[..|s| - 1]))
  {
    StrictMatchIffGrammar(s);
    if s != [] {
      StrictMatchIffGrammar(s[..|s| - 1]);
    }
  }

  /** Locating the first `@` and the last `.` decides the pattern exactly. */
  lemma StrictMatchIffGrammar(s: string)
    ensures StrictMatch(s) <==> Grammar(s)
  {
    if StrictMatch(s) {
      StrictMatchIsGrammar(s);
    }
    if Grammar(s) {
      var i, j :| ShapedAt(s, i, j);
      GrammarIsStrictMatch(s, i, j);
    }
  }

  lemma StrictMatchIsGrammar(s: string)
    requires StrictMatch(s)
    ensures Grammar(s)
  {
    var i := AtOfMatch(s);
    var d := s[i + 1..];
    var k := TldDot(d);
    ShapedFromParts(s, i, d, k);
    assert ShapedAt(s, i, i + 1 + k);
  }

  /** The `@` that `StrictMatch` found, with the facts it checked there. */
  lemma AtOfMatch(s: string) returns (i: nat)
    requires StrictMatch(s)
    ensures i < |s| && s[i] == '@'
    ensures 1 <= i && AllLocal(s[..i]) && HostAndTld(s[i + 1..])
  {
    i := FirstIndexOf(s, '@').value;
  }

  /** The `.` that `HostAndTld` found, with the facts it checked there. */
  lemma TldDot(d: string) returns (k: nat)
    requires HostAndTld(d)
    ensures k < |d| && d[k] == '.'
    ensures 1 <= k && k + 3 <= |d| && AllHost(d[..k]) && AllLetters(d[k + 1..])
  {
    k := LastIndexOf(d, '.').value;
  }

  lemma ShapedFromParts(s: string, i: nat, d: string, k: nat)
    requires i < |s| && s[i] == '@' && d == s[i + 1..] && k < |d| && d[k] == '.'
    requires 1 <= i && AllLocal(s[..i])
    requires 1 <= k && k + 3 <= |d| && AllHost(d[..k]) && AllLetters(d[k + 1..])
    ensures ShapedAt(s, i, i + 1 + k)
  {
    assert s[i + 1..i + 1 + k] == d[..k];
    assert s[i + 1 + k + 1..] == d[k + 1..];
  }

  lemma GrammarIsStrictMatch(s: string, i: int, j: int)
    requires ShapedAt(s, i, j)
    ensures StrictMatch(s)
  {
    LocalHasNoAt(s, i);
    var d := s[i + 1..];
    var k := j - i - 1;
    assert d[k + 1..] == s[j + 1..];
    assert d[..k] == s[i + 1..j];
    LettersHaveNoDot(d, k);
  }

  lemma LocalHasNoAt(s: string, i: nat)
    requires i < |s| && s[i] == '@' && AllLocal(s[..i])
    ensures FirstIndexOf(s, '@') == Some(i)
  {
    forall a | 0 <= a < i ensures s[a] != '@' {
      assert IsLocalChar(s[..i][a]);
    }
    FirstAtIs(s, i);
  }

  lemma LettersHaveNoDot(d: string, k: nat)
    requires k < |d| && d[k] == '.' && AllLetters(d[k + 1..])
    ensures LastIndexOf(d, '.') == Some(k)
  {
    forall a | k < a < |d| ensures d[a] != '.' {
      assert IsAsciiLetter(d[k + 1..][a - k - 1]);
    }
    LastDotIs(d, k);
  }

  lemma FirstAtIs(s: string, i: nat)
    requires i < |s| && s[i] == '@'
    requires forall a :: 0 <= a < i ==> s[a] != '@'
    ensures FirstIndexOf(s, '@') == Some(i)
  {
    var r := FirstIndexOf(s, '@');
    assert s[i] in s;
  }

  lemma LastDotIs(d: string, k: nat)
    requires k < |d| && d[k] == '.'
    requires forall a :: k < a < |d| ==> d[a] != '.'
    ensures LastIndexOf(d, '.') == Some(k)
  {
    var r := LastIndexOf(d, '.');
    assert d[k] in d;
  }

  /** A pattern match carries exactly one `@`, and the text after it holds a `.`. */
  lemma {:induction false} StrictMatchSplit(s: string) returns (i: nat)
    requires StrictMatch(s)
    ensures i < |s| && s[i] == '@' && '@' !in s[..i] && '@' !in s[i + 1..]
    ensures 1 <= i && '.' in s[i + 1..] && AllLocal(s[..i])
    ensures s[|s| - 1] != '\n'
  {
    StrictMatchIffGrammar(s);
    var i', j :| ShapedAt(s, i', j);
    i := i';
    assert IsLocalChar(s[0]);
    forall a | 0 <= a < i ensures s[..i][a] != '@' {
      assert IsLocalChar(s[..i][a]);
    }
    forall a | i + 1 <= a < |s| ensures s[a] != '@' {
      if a < j {
        assert IsHostChar(s[i + 1..j][a - i - 1]);
      } else if a > j {
        assert IsAsciiLetter(s[j + 1..][a - j - 1]);
      }
    }
    assert s[i + 1..][j - i - 1] == '.';
    assert IsAsciiLetter(s[j + 1..][|s| - j - 2]);
  }

  /** Whatever `EMAIL_RE` accepts contains exactly one `@`, with a non-empty
      local part before it and a `.` somewhere after it. */
  lemma EmailReSplit(s: string) returns (i: nat)
    requires EmailRe(s)
    ensures i < |s| && s[i] == '@' && '@' !in s[..i] && '@' !in s[i + 1..]
    ensures 1 <= i && '.' in s[i + 1..] && AllLocal(s[..i])
  {
    if StrictMatch(s) {
      i := StrictMatchSplit(s);
    } else {
      i := StrictMatchSplit(s[..|s| - 1]);
      SplitSurvivesNewline(s, i);
    }
  }

  lemma SplitSurvivesNewline(s: string, i: nat)
    requires s != [] && s[|s| - 1] == '\n'
    requires var t := s[..|s| - 1];
      && i < |t| && t[i] == '@' && '@' !in t[..i] && '@' !in t[i + 1..]
      && 1 <= i && '.' in t[i + 1..] && AllLocal(t[..i])
    ensures i < |s| && s[i] == '@' && '@' !in s[..i] && '@' !in s[i + 1..]
    ensures 1 <= i && '.' in s[i + 1..] && AllLocal(s[..i])
  {
    var t := s[..|s| - 1];
    assert s[..i] == t[..i];
    assert s[i + 1..] == t[i + 1..] + ['\n'];
  }

  /** A rendered `local@domain` passes only with a `.` in `domain` and no other `@`. */
  lemma EmailReOfParts(local: string, domain: string)
    requires EmailRe(local + "@" + domain)
    ensures local != [] && AllLocal(local) && '@' !in domain && '.' in domain
  {
    var i := EmailReSplit(local + "@" + domain);
    PartsOfSplit(local, domain, i);
  }

  lemma PartsOfSplit(local: string, domain: string, i: nat)
    requires var s := local + "@" + domain;
      && i < |s| && '@' !in s[..i] && '@' !in s[i + 1..]
      && 1 <= i && '.' in s[i + 1..] && AllLocal(s[..i])
    ensures local != [] && AllLocal(local) && '@' !in domain && '.' in domain
  {
    var s := local + "@" + domain;
    AtIsUnique(s, i, |local|);
    assert s[..i] == local;
    assert s[i + 1..] == domain;
  }

  /** A text with no `@` before position `i` and none after it has its only
      `@` at `i`. */
  lemma AtIsUnique(s: string, i: nat, n: nat)
    requires i < |s| && '@' !in s[..i] && '@' !in s[i + 1..]
    requires n < |s| && s[n] == '@'
    ensures n == i
  {
  }

  /** Whatever passes contains an `@`. */
  lemma MatchHasAt(s: string)
    requires EmailRe(s)
    ensures '@' in s
  {
    var i := EmailReSplit(s);
  }

  /** Text with no `@` never passes. */
  lemma NoAtNoMatch(s: string)
    requires '@' !in s
    ensures !EmailRe(s)
  {
    if EmailRe(s) {
      var i := EmailReSplit(s);
    }
  }

  /** The plain address form of the default convention passes. */
  lemma JaneSmithMatches()
    ensures EmailRe("jane.smith@example.com")
  {
    var s := "jane.smith@example.com";
    assert s[..10] == "jane.smith";
    assert s[11..18] == "example";
    assert s[19..] == "com";
    assert ShapedAt(s, 10, 18);
    StrictMatchIffGrammar(s);
  }

  lemma ShortAddressMatches()
    ensures StrictMatch("a@b.co")
  {
    var s := "a@b.co";
    assert s[..1] == "a" && s[2..3] == "b" && s[4..] == "co";
    assert ShapedAt(s, 1, 3);
    StrictMatchIffGrammar(s);
  }

  /** Python's `$` lets an address followed by one newline through, though
      the pattern's own shape does not end in a newline. */
  lemma TrailingNewlineMatches()
    ensures StrictMatch("a@b.co")
    ensures EmailRe("a@b.co" + "\n") && !Grammar("a@b.co" + "\n")
  {
    ShortAddressMatches();
    NewlineAfterMatch("a@b.co");
  }

  /** A match followed by one newline still passes, but no longer has the
      pattern's shape. */
  lemma NewlineAfterMatch(s: string)
    requires StrictMatch(s)
    ensures EmailRe(s + "\n") && !Grammar(s + "\n")
  {
    var t := s + "\n";
    assert t[..|t| - 1] == s;
    NewlineEndNotGrammar(t);
  }

  lemma NewlineEndNotGrammar(t: string)
    requires t != [] && t[|t| - 1] == '\n'
    ensures !Grammar(t)
  {
  }

  /** With a usable local part, `local@d` matches exactly when `d` is a host
      followed by a `.` and a letters-only top-level domain. */
  lemma StrictMatchOfParts(local: string, d: string)
    requires local != [] && AllLocal(local)
    ensures StrictMatch(local + "@" + d) <==> HostAndTld(d)
  {
    var s := local + "@" + d;
    assert s[..|local|] == local;
    assert s[|local| + 1..] == d;
    LocalHasNoAt(s, |local|);
  }

  /** Whether `local@domain` matches depends on the domain alone once the
      local part is usable: any other usable local part matches too. */
  lemma LocalPartSwap(a: string, b: string, domain: string)
    requires EmailRe(a + "@" + domain)
    requires b != [] && AllLocal(b)
    ensures EmailRe(b + "@" + domain)
  {
    EmailReOfParts(a, domain);
    StrictMatchOfParts(a, domain);
    StrictMatchOfParts(b, domain);
    if !StrictMatch(a + "@" + domain) {
      var d := domain[..|domain| - 1];
      DropLastOfParts(a, domain);
      DropLastOfParts(b, domain);
      StrictMatchOfParts(a, d);
      StrictMatchOfParts(b, d);
    }
  }

  lemma DropLastOfParts(local: string, domain: string)
    requires domain != []
    ensures var s := local + "@" + domain;
      && s[|s| - 1] == domain[|domain| - 1]
      && s[..|s| - 1] == local + "@" + domain[..|domain| - 1]
  {
  }
}
