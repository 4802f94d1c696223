/**
 * Candidate generation (`generate_candidates`, utils.py): the twelve naming
 * conventions rendered for a trimmed, lower-cased first and last name and a
 * domain, kept when they match `EMAIL_RE`, de-duplicated, in the fixed
 * priority order of the loop (which is not the order of the unused
 * `COMMON_PATTERNS` list).
 */
module Candidates {
  import opened Text
  import opened EmailSyntax
  import opened FirstOccurrence

  datatype Convention =
    | FirstDotLast          // first.last
    | FDotLast              // f.last
    | FirstDotL             // first.l
    | First                 // first
    | Last                  // last
    | FirstLast             // firstlast
    | FLast                 // flast
    | FirstUnderscoreLast   // first_last
    | FirstHyphenLast       // first-last
    | LastDotFirst          // last.first
    | LDotFirst             // l.first
    | FirstInitialLastname  // firstinitial.lastname

  /** The order in which the loop tries the conventions. */
  const Priority: seq<Convention> := [
    FirstDotLast, FDotLast, FirstDotL, FirstLast, FLast, First, Last,
    FirstUnderscoreLast, FirstHyphenLast, LastDotFirst, LDotFirst, FirstInitialLastname
  ]

  /** The local part a convention builds from the normalised names `f` and `l`. */
  function LocalPart(c: Convention, f: string, l: string): string
    requires f != [] && l != []
  {
    var fi, li := [f[0]], [l[0]];
    match c
    case FirstDotLast => f + "." + l
    case FDotLast => fi + "." + l
    case FirstDotL => f + "." + li
    case First => f
    case Last => l
    case FirstLast => f + l
    case FLast => fi + l
    case FirstUnderscoreLast => f + "_" + l
    case FirstHyphenLast => f + "-" + l
    case LastDotFirst => l + "." + f
    case LDotFirst => li + "." + f
    case FirstInitialLastname => fi + l
  }

  function Render(c: Convention, f: string, l: string, domain: string): string
    requires f != [] && l != []
  {
    LocalPart(c, f, l) + "@" + domain
  }

  /** Every convention rendered, in priority order; each render is an
      address at `domain`. */
  function Renders(f: string, l: string, domain: string): (r: seq<string>)
    requires f != [] && l != []
    ensures |r| == |Priority|
    ensures forall i :: 0 <= i < |r| ==> EndsWith(r[i], "@" + domain)
  {
    var r := seq(|Priority|, i requires 0 <= i < |Priority| => Render(Priority[i], f, l, domain));
    forall i | 0 <= i < |r| ensures EndsWith(r[i], "@" + domain) {
      assert r[i] == LocalPart(Priority[i], f, l) + ("@" + domain);
    }
    r
  }

  /** How a name is prepared: surrounding whitespace removed, lower-cased. */
  function NormalizeName(name: string): string {
    Lower(Strip(name))
  }

  /** Candidates are de-duplicated by their own text. */
  function Itself(e: string): string {
    e
  }

  /** `generate_candidates(first, last, domain)`: nothing for an empty name or
      domain, otherwise the candidates for the normalised names. */
  function GenerateCandidates(first: string, last: string, domain: string): (r: seq<string>)
    ensures NormalizeName(first) == [] || NormalizeName(last) == [] || domain == [] ==> r == []
    ensures forall a :: 0 <= a < |r| ==> EmailRe(r[a]) && EndsWith(r[a], "@" + domain)
    ensures forall a, b :: 0 <= a < b < |r| ==> r[a] != r[b]
  {
    var f, l := NormalizeName(first), NormalizeName(last);
    if f == [] || l == [] || domain == [] then []
    else CandidatesFor(f, l, domain)
  }

  /** The loop of `generate_candidates` over the renders of normalised names:
      each render is kept when it matches `EMAIL_RE` and was not kept before. */
  function CandidatesFor(f: string, l: string, domain: string): (r: seq<string>)
    requires f != [] && l != []
    ensures forall a :: 0 <= a < |r| ==> EmailRe(r[a]) && EndsWith(r[a], "@" + domain)
    ensures forall a, b :: 0 <= a < b < |r| ==> r[a] != r[b]
  {
    var r := Collect(Renders(f, l, domain), Itself, EmailRe, {}).kept;
    CollectedRendersSound(f, l, domain, r);
    r
  }

  lemma CollectedRendersSound(f: string, l: string, domain: string, r: seq<string>)
    requires f != [] && l != []
    requires r == Collect(Renders(f, l, domain), Itself, EmailRe, {}).kept
    ensures forall a :: 0 <= a < |r| ==> EmailRe(r[a]) && EndsWith(r[a], "@" + domain)
    ensures forall a, b :: 0 <= a < b < |r| ==> r[a] != r[b]
  {
    CollectedSound(Renders(f, l, domain), domain, r);
  }

  lemma CollectedSound(xs: seq<string>, domain: string, r: seq<string>)
    requires forall i :: 0 <= i < |xs| ==> EndsWith(xs[i], "@" + domain)
    requires r == Collect(xs, Itself, EmailRe, {}).kept
    ensures forall a :: 0 <= a < |r| ==> EmailRe(r[a]) && EndsWith(r[a], "@" + domain)
    ensures forall a, b :: 0 <= a < b < |r| ==> r[a] != r[b]
  {
    CollectIsKeepFirst(xs, Itself, EmailRe);
    KeptSound(xs, domain, r);
  }

  lemma KeptSound(xs: seq<string>, domain: string, r: seq<string>)
    requires forall i :: 0 <= i < |xs| ==> EndsWith(xs[i], "@" + domain)
    requires r == KeepFirst(xs, Itself, EmailRe)
    ensures forall a :: 0 <= a < |r| ==> EmailRe(r[a]) && EndsWith(r[a], "@" + domain)
    ensures forall a, b :: 0 <= a < b < |r| ==> r[a] != r[b]
  {
    KeepFirstSpec(xs, Itself, EmailRe);
    forall a | 0 <= a < |r| ensures EndsWith(r[a], "@" + domain) {
      var i :| 0 <= i < |xs| && xs[i] == r[a] && Itself(r[a]) !in KeysOf(xs[..i], Itself);
    }
  }

  lemma KeysOfItself(xs: seq<string>)
    ensures KeysOf(xs, Itself) == set e | e in xs
  {
    forall e | e in xs ensures e in KeysOf(xs, Itself) {
      var i :| 0 <= i < |xs| && xs[i] == e;
      assert Itself(xs[i]) == e;
    }
  }

  /** The candidates are the renders in priority order, each kept at its first
      occurrence and only when it matches `EMAIL_RE`; every matching render is
      among them. */
  lemma CandidatesInPriorityOrder(f: string, l: string, domain: string)
    requires f != [] && l != []
    ensures var xs := Renders(f, l, domain);
      var r := CandidatesFor(f, l, domain);
      && r == KeepFirst(xs, Itself, EmailRe)
      && IsSubsequence(r, xs)
      && (forall i :: 0 <= i < |xs| && EmailRe(xs[i]) ==> xs[i] in r)
      && (forall a :: 0 <= a < |r| ==> exists i :: 0 <= i < |xs| && xs[i] == r[a] && r[a] !in xs[..i])
  {
    var xs := Renders(f, l, domain);
    var r := CandidatesFor(f, l, domain);
    CollectIsKeepFirst(xs, Itself, EmailRe);
    KeepFirstSpec(xs, Itself, EmailRe);
    KeysOfItself(r);
    forall i | 0 <= i < |xs| && EmailRe(xs[i]) ensures xs[i] in r {
      assert Itself(xs[i]) in PassingKeys(xs, Itself, EmailRe);
    }
    forall a | 0 <= a < |r|
      ensures exists i :: 0 <= i < |xs| && xs[i] == r[a] && r[a] !in xs[..i]
    {
      var i :| 0 <= i < |xs| && xs[i] == r[a] && Itself(r[a]) !in KeysOf(xs[..i], Itself);
      KeysOfItself(xs[..i]);
    }
  }

  /** Leaving out `xs[j]`, a repeat of the earlier `xs[i]`, keeps the same candidates. */
  lemma DropRepeatAt(xs: seq<string>, i: nat, j: nat)
    requires i < j < |xs| && xs[i] == xs[j]
    ensures KeepFirst(xs, Itself, EmailRe) == KeepFirst(xs[..j] + xs[j + 1..], Itself, EmailRe)
  {
    assert xs == xs[..j] + [xs[j]] + xs[j + 1..];
    assert Itself(xs[j]) in KeysOf(xs[..j], Itself) by {
      assert xs[..j][i] == xs[j];
    }
    KeepFirstDropRepeat(xs[..j], xs[j], xs[j + 1..], Itself, EmailRe);
  }

  /** `firstinitial.lastname` renders exactly as `flast`, which comes earlier:
      it never contributes, and the result is that of the first eleven conventions. */
  lemma FirstInitialLastnameNeverAdds(f: string, l: string, domain: string)
    requires f != [] && l != []
    ensures Render(FirstInitialLastname, f, l, domain) == Render(FLast, f, l, domain)
    ensures CandidatesFor(f, l, domain) == KeepFirst(Renders(f, l, domain)[..11], Itself, EmailRe)
  {
    RenderRepeats(f, l, domain);
    LastRepeatDropped(Renders(f, l, domain));
  }

  lemma LastRepeatDropped(xs: seq<string>)
    requires |xs| == 12 && xs[11] == xs[4]
    ensures Collect(xs, Itself, EmailRe, {}).kept == KeepFirst(xs[..11], Itself, EmailRe)
  {
    CollectIsKeepFirst(xs, Itself, EmailRe);
    DropRepeatAt(xs, 4, 11);
    assert xs[..11] + xs[12..] == xs[..11];
  }

  /** The renders that coincide: always `flast` and `firstinitial.lastname`;
      with a one-letter surname also `first.last`/`first.l` and `last.first`/`l.first`. */
  lemma RenderRepeats(f: string, l: string, domain: string)
    requires f != [] && l != []
    ensures Render(FirstInitialLastname, f, l, domain) == Render(FLast, f, l, domain)
    ensures |l| == 1 ==> Render(FirstDotL, f, l, domain) == Render(FirstDotLast, f, l, domain)
    ensures |l| == 1 ==> Render(LDotFirst, f, l, domain) == Render(LastDotFirst, f, l, domain)
    ensures var xs := Renders(f, l, domain);
      && xs[11] == xs[4]
      && (|l| == 1 ==> xs[2] == xs[0] && xs[10] == xs[9])
  {
    if |l| == 1 {
      assert [l[0]] == l;
    }
  }

  /** A one-letter surname makes `first.l` render as `first.last` and `l.first`
      as `last.first`; with `firstinitial.lastname` also repeating `flast`, at
      most nine distinct candidates remain. */
  lemma OneLetterSurnameCollapses(f: string, l: string, domain: string)
    requires f != [] && |l| == 1
    ensures Render(FirstDotL, f, l, domain) == Render(FirstDotLast, f, l, domain)
    ensures Render(LDotFirst, f, l, domain) == Render(LastDotFirst, f, l, domain)
    ensures |CandidatesFor(f, l, domain)| <= 9
  {
    RenderRepeats(f, l, domain);
    ThreeRepeatsDropped(Renders(f, l, domain));
  }

  lemma ThreeRepeatsDropped(xs: seq<string>)
    requires |xs| == 12 && xs[11] == xs[4] && xs[2] == xs[0] && xs[10] == xs[9]
    ensures |Collect(xs, Itself, EmailRe, {}).kept| <= 9
  {
    LastRepeatDropped(xs);
    TwoRepeatsDropped(xs[..11]);
  }

  lemma TwoRepeatsDropped(ys: seq<string>)
    requires |ys| == 11 && ys[2] == ys[0] && ys[10] == ys[9]
    ensures |KeepFirst(ys, Itself, EmailRe)| <= 9
  {
    DropRepeatAt(ys, 9, 10);
    assert ys[..10] + ys[11..] == ys[..10];
    OneRepeatDropped(ys[..10]);
  }

  lemma OneRepeatDropped(zs: seq<string>)
    requires |zs| == 10 && zs[2] == zs[0]
    ensures |KeepFirst(zs, Itself, EmailRe)| <= 9
  {
    RepeatShortens(zs, 0, 2);
  }

  /** A repeated element is kept at most once, so the result is shorter than the input. */
  lemma RepeatShortens(xs: seq<string>, i: nat, j: nat)
    requires i < j < |xs| && xs[i] == xs[j]
    ensures |KeepFirst(xs, Itself, EmailRe)| < |xs|
  {
    DropRepeatAt(xs, i, j);
    var ys := xs[..j] + xs[j + 1..];
    assert |ys| == |xs| - 1;
    KeepFirstLength(ys, Itself, EmailRe);
  }

  /** Whitespace and letter case are normalised away before rendering. */
  lemma NormalizeJaneSmith()
    ensures NormalizeName("Jane") == "jane" && NormalizeName("Smith") == "smith"
  {
    StripJaneSmith();
    LowerJaneSmith();
  }

  lemma StripJaneSmith()
    ensures Strip("Jane") == "Jane" && Strip("Smith") == "Smith"
  {
    StripJane();
    StripSmith();
  }

  lemma StripJane()
    ensures Strip("Jane") == "Jane"
  {
    StripKeeps("Jane");
  }

  lemma StripSmith()
    ensures Strip("Smith") == "Smith"
  {
    StripKeeps("Smith");
  }

  lemma LowerJaneSmith()
    ensures Lower("Jane") == "jane" && Lower("Smith") == "smith"
  {
  }

  /** The default convention leads: Jane Smith at example.com is offered
      `jane.smith@example.com` first. */
  lemma JaneSmithFirst()
    ensures var r := GenerateCandidates("Jane", "Smith", "example.com");
      r != [] && r[0] == "jane.smith@example.com"
  {
    NormalizeJaneSmith();
    assert GenerateCandidates("Jane", "Smith", "example.com") == CandidatesFor("jane", "smith", "example.com");
    JaneSmithLeads();
  }

  lemma JaneSmithLeads()
    ensures var r := CandidatesFor("jane", "smith", "example.com");
      r != [] && r[0] == "jane.smith@example.com"
  {
    JaneSmithMatches();
    JaneSmithParts();
    FirstDotLastLeads("jane", "smith", "example.com");
  }

  lemma JaneSmithParts()
    ensures "jane" + "." + "smith" + "@" + "example.com" == "jane.smith@example.com"
  {
  }

  /** When `first.last@domain` passes, it is the first candidate. */
  lemma FirstDotLastLeads(f: string, l: string, domain: string)
    requires f != [] && l != []
    requires EmailRe(f + "." + l + "@" + domain)
    ensures var r := CandidatesFor(f, l, domain); r != [] && r[0] == f + "." + l + "@" + domain
  {
    var xs := Renders(f, l, domain);
    assert Priority[0] == FirstDotLast;
    assert xs[0] == f + "." + l + "@" + domain;
    FirstPassingLeads(xs);
  }

  /** A list of renderings whose first one passes keeps it first. */
  lemma FirstPassingLeads(xs: seq<string>)
    requires xs != [] && EmailRe(xs[0])
    ensures var r := Collect(xs, Itself, EmailRe, {}).kept; r != [] && r[0] == xs[0]
  {
    assert EmailRe(Itself(xs[0]));
    CollectIsKeepFirst(xs, Itself, EmailRe);
    KeepFirstHead(xs, Itself, EmailRe);
  }

  /** Every candidate ends in `@` + domain and carries a single `@`, so a domain
      without a `.`, or one containing `@`, yields no candidates. */
  lemma NeedsDottedDomain(first: string, last: string, domain: string)
    requires '.' !in domain || '@' in domain
    ensures GenerateCandidates(first, last, domain) == []
  {
    var r := GenerateCandidates(first, last, domain);
    if r != [] {
      CandidateDomain(r[0], domain);
    }
  }

  /** An address that passes and ends in `@` + domain has a dotted, `@`-free domain. */
  lemma CandidateDomain(e: string, domain: string)
    requires EmailRe(e) && EndsWith(e, "@" + domain)
    ensures '.' in domain && '@' !in domain
  {
    var k := |e| - |domain| - 1;
    assert e[k..] == "@" + domain;
    assert e == e[..k] + "@" + domain;
    EmailReOfParts(e[..k], domain);
  }

  lemma AllLocalParts(a: string, b: string)
    ensures AllLocal(a + b) <==> AllLocal(a) && AllLocal(b)
  {
    if AllLocal(a) && AllLocal(b) {
      forall k | 0 <= k < |a + b| ensures IsLocalChar((a + b)[k]) {
        if k >= |a| {
          assert (a + b)[k] == b[k - |a|];
        }
      }
    }
    if AllLocal(a + b) {
      forall k | 0 <= k < |b| ensures IsLocalChar(b[k]) {
        assert (a + b)[|a| + k] == b[k];
      }
      forall k | 0 <= k < |a| ensures IsLocalChar(a[k]) {
        assert (a + b)[k] == a[k];
      }
    }
  }

  /** Each convention spells out the first name or the last name in full. */
  lemma LocalPartSpellsAName(c: Convention, f: string, l: string)
    requires f != [] && l != []
    requires AllLocal(LocalPart(c, f, l))
    ensures AllLocal(f) || AllLocal(l)
  {
    var fi, li := [f[0]], [l[0]];
    match c
    case FirstDotLast => AllLocalParts(f + ".", l); AllLocalParts(f, ".");
    case FDotLast => AllLocalParts(fi + ".", l);
    case FirstDotL => AllLocalParts(f + ".", li); AllLocalParts(f, ".");
    case First =>
    case Last =>
    case FirstLast => AllLocalParts(f, l);
    case FLast => AllLocalParts(fi, l);
    case FirstUnderscoreLast => AllLocalParts(f + "_", l); AllLocalParts(f, "_");
    case FirstHyphenLast => AllLocalParts(f + "-", l); AllLocalParts(f, "-");
    case LastDotFirst => AllLocalParts(l + ".", f);
    case LDotFirst => AllLocalParts(li + ".", f);
    case FirstInitialLastname => AllLocalParts(fi, l);
  }

  /** When both names hold a character the local part cannot carry (a space
      inside a double-barrelled name, say), no candidate survives. */
  lemma UnusableNamesGiveNothing(f: string, l: string, domain: string)
    requires f != [] && l != []
    requires !AllLocal(f) && !AllLocal(l)
    ensures CandidatesFor(f, l, domain) == []
  {
    var r := CandidatesFor(f, l, domain);
    if r != [] {
      CandidatesInPriorityOrder(f, l, domain);
      var xs := Renders(f, l, domain);
      var i :| 0 <= i < |xs| && xs[i] == r[0] && r[0] !in xs[..i];
      EmailReOfParts(LocalPart(Priority[i], f, l), domain);
      LocalPartSpellsAName(Priority[i], f, l);
    }
  }

  /** One usable name is enough: at a domain the pattern accepts, the
      `first` or `last` convention alone yields a candidate. */
  lemma OneUsableNameSuffices(f: string, l: string, domain: string)
    requires f != [] && l != []
    requires AllLocal(f) || AllLocal(l)
    requires EmailRe("x@" + domain)
    ensures CandidatesFor(f, l, domain) != []
  {
    var xs := Renders(f, l, domain);
    var name := if AllLocal(f) then f else l;
    SingleNameRenders(f, l, domain);
    assert "x@" + domain == "x" + "@" + domain;
    LocalPartSwap("x", name, domain);
    PassingRenderKept(f, l, domain, if AllLocal(f) then 5 else 6);
  }

  /** The `first` and `last` conventions sit at positions 5 and 6. */
  lemma SingleNameRenders(f: string, l: string, domain: string)
    requires f != [] && l != []
    ensures Renders(f, l, domain)[5] == f + "@" + domain
    ensures Renders(f, l, domain)[6] == l + "@" + domain
  {
    assert Priority[5] == First && Priority[6] == Last;
  }

  lemma PassingRenderKept(f: string, l: string, domain: string, k: nat)
    requires f != [] && l != [] && k < |Priority|
    requires EmailRe(Renders(f, l, domain)[k])
    ensures CandidatesFor(f, l, domain) != []
  {
    CandidatesInPriorityOrder(f, l, domain);
    assert Renders(f, l, domain)[k] in CandidatesFor(f, l, domain);
  }

  /** At a domain the pattern accepts, some candidate survives exactly when
      at least one of the two names is usable as a local part. */
  lemma CandidatesIffUsableName(f: string, l: string, domain: string)
    requires f != [] && l != []
    requires EmailRe("x@" + domain)
    ensures CandidatesFor(f, l, domain) != [] <==> AllLocal(f) || AllLocal(l)
  {
    if AllLocal(f) || AllLocal(l) {
      OneUsableNameSuffices(f, l, domain);
    } else {
      UnusableNamesGiveNothing(f, l, domain);
    }
  }
}
