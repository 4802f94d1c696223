/**
 * Search (search.py): the paging offset and provider fallback of
 * `search_generic`, the three query builders, and the separator-split
 * fallback of `parse_title_for_person`. The Brave and SerpAPI requests are
 * oracles; an API key that is unset or empty is the empty string.
 */
module Search {
  import opened Common
  import opened Text

  /** One search result as both providers report it. */
  datatype Hit = Hit(title: string, link: string, snippet: string)

  /** What a provider request gives: its results, or a failure (HTTP error,
      timeout, malformed answer). */
  datatype Outcome = Ok(hits: seq<Hit>) | Failed

  /** A provider request: query, key, result count and offset. */
  type Backend = (string, string, int, int) -> Outcome

  datatype Provider = Brave | SerpApi

  /** The results and who gave them, or the error raised when no provider answered. */
  datatype SearchResult = Found(provider: Provider, hits: seq<Hit>) | NoProvider

  /** The first result of page `page` when each page holds `n` results;
      never negative. */
  function Offset(page: int, n: int): (o: int)
    ensures o >= 0 && o >= (page - 1) * n
    ensures o == 0 || o == (page - 1) * n
  {
    if (page - 1) * n > 0 then (page - 1) * n else 0
  }

  /** With a non-negative page size, the first page starts at 0 and each
      page starts where the previous one ended. */
  lemma PagesTile(page: int, n: int)
    requires page >= 1 && n >= 0
    ensures Offset(1, n) == 0
    ensures Offset(page + 1, n) == Offset(page, n) + n
  {
    assert page * n == (page - 1) * n + n;
    assert (page - 1) * n >= 0;
  }

  /** Pages before the first are clamped to offset 0. */
  lemma EarlyPagesStartAtZero(page: int, n: int)
    requires page <= 1 && n >= 0
    ensures Offset(page, n) == 0
  {
    assert (page - 1) * n <= 0 by {
      assert (1 - page) * n >= 0;
    }
  }

  /** `search_generic(query, max_results, page)`: Brave when its key is set
      and the request succeeds, else SerpAPI on the same terms, else the error. */
  function SearchGeneric(query: string, maxResults: int, page: int,
                         braveKey: string, serpKey: string,
                         brave: Backend, serp: Backend): (r: SearchResult)
    ensures var off := Offset(page, maxResults);
      var b := braveKey != [] && brave(query, braveKey, maxResults, off).Ok?;
      var s := serpKey != [] && serp(query, serpKey, maxResults, off).Ok?;
      && (r.Found? && r.provider == Brave <==> b)
      && (r.Found? && r.provider == SerpApi <==> !b && s)
      && (r.NoProvider? <==> !b && !s)
      && (r.Found? && r.provider == Brave ==> r.hits == brave(query, braveKey, maxResults, off).hits)
      && (r.Found? && r.provider == SerpApi ==> r.hits == serp(query, serpKey, maxResults, off).hits)
  {
    var off := Offset(page, maxResults);
    var fromBrave := if braveKey != [] then brave(query, braveKey, maxResults, off) else Failed;
    if fromBrave.Ok? then Found(Brave, fromBrave.hits)
    else
      var fromSerp := if serpKey != [] then serp(query, serpKey, maxResults, off) else Failed;
      if fromSerp.Ok? then Found(SerpApi, fromSerp.hits)
      else NoProvider
  }

  /** When Brave answers, SerpAPI is never consulted. */
  lemma SerpApiOnlyAsFallback(query: string, maxResults: int, page: int,
                              braveKey: string, serpKey1: string, serpKey2: string,
                              brave: Backend, serp1: Backend, serp2: Backend)
    requires braveKey != [] && brave(query, braveKey, maxResults, Offset(page, maxResults)).Ok?
    ensures SearchGeneric(query, maxResults, page, braveKey, serpKey1, brave, serp1)
         == SearchGeneric(query, maxResults, page, braveKey, serpKey2, brave, serp2)
  {
  }

  /** With neither key set the search raises, whatever the backends would say. */
  lemma NoKeysNoSearch(query: string, maxResults: int, page: int, brave: Backend, serp: Backend)
    ensures SearchGeneric(query, maxResults, page, [], [], brave, serp) == NoProvider
  {
  }

  function Paren(t: string): (r: string)
    ensures r != [] && r[0] == '(' && r[|r| - 1] == ')'
  {
    "(" + t + ")"
  }

  /** A term contributes its parenthesised form when non-empty, nothing otherwise. */
  function TermPart(t: string): (r: seq<string>)
    ensures t == [] <==> r == []
  {
    if t == [] then [] else [Paren(t)]
  }

  /** The parenthesised non-empty terms, in order. */
  function TermParts(terms: seq<string>): (r: seq<string>)
    ensures |r| <= |terms|
    ensures r == [] <==> forall i :: 0 <= i < |terms| ==> terms[i] == []
    ensures forall i :: 0 <= i < |r| ==> r[i] != [] && r[i][0] == '('
    decreases |terms|
  {
    if terms == [] then []
    else
      var rest := TermParts(terms[1..]);
      assert forall i :: 1 <= i < |terms| ==> terms[i] == terms[1..][i - 1];
      TermPart(terms[0]) + rest
  }

  const PeopleSite := "site:linkedin.com/in"
  const NoJobs := "-jobs -hiring"
  const CompanySite := "site:linkedin.com/company"
  const PeoplePages := Paren("team OR leadership OR about us OR staff OR directory")
  const AnySite := "site:*.com"

  /** `build_people_query(role, geo, industry)`: the profile-site filter
      first, the job-post exclusion last, and between them each non-empty
      term in parentheses, in role, geo, industry order, all separated by
      single spaces. */
  function BuildPeopleQuery(role: string, geo: string, industry: string): (q: string)
    ensures StartsWith(q, PeopleSite) && EndsWith(q, " " + NoJobs)
    ensures q == PeopleSite + Prefixed(TermParts([role, geo, industry]), " ") + " " + NoJobs
  {
    var parts := [PeopleSite] + TermParts([role, geo, industry]) + [NoJobs];
    JoinIsHeadThenPrefixed(PeopleSite, TermParts([role, geo, industry]) + [NoJobs], " ");
    assert parts == [PeopleSite] + (TermParts([role, geo, industry]) + [NoJobs]);
    ClosedBy(PeopleSite, TermParts([role, geo, industry]), NoJobs);
    Join(parts, " ")
  }

  lemma ClosedBy(head: string, terms: seq<string>, tail: string)
    ensures var q := head + Prefixed(terms + [tail], " ");
      && q == head + Prefixed(terms, " ") + " " + tail
      && StartsWith(q, head) && EndsWith(q, " " + tail)
  {
    var p := Prefixed(terms, " ");
    PrefixedAppend(terms, [tail], " ");
    assert Prefixed([tail], " ") == " " + tail by {
      assert [tail][1..] == [];
    }
    var q := head + p + " " + tail;
    assert head + Prefixed(terms + [tail], " ") == head + (p + (" " + tail)) == q;
    assert q == head + (p + " " + tail);
    assert q[..|head|] == head;
    assert q == (head + p) + (" " + tail);
    assert q[|q| - |" " + tail|..] == " " + tail;
  }

  /** With no terms the people query is the two fixed parts alone. */
  lemma PeopleQueryNoTerms()
    ensures BuildPeopleQuery([], [], []) == PeopleSite + " " + NoJobs
  {
    assert TermParts([[], [], []]) == [];
  }

  /** `build_company_query(geo, industry)`: the company-page filter followed
      by each non-empty term in parentheses, geo before industry, each after
      a single space. */
  function BuildCompanyQuery(geo: string, industry: string): (q: string)
    ensures StartsWith(q, CompanySite)
    ensures q == CompanySite + Prefixed(TermParts([geo, industry]), " ")
  {
    JoinIsHeadThenPrefixed(CompanySite, TermParts([geo, industry]), " ");
    Join([CompanySite] + TermParts([geo, industry]), " ")
  }

  /** The company query is exactly the site filter when both terms are empty,
      and strictly longer otherwise. */
  lemma CompanyQueryBare(geo: string, industry: string)
    ensures BuildCompanyQuery(geo, industry) == CompanySite <==> geo == [] && industry == []
  {
    var terms := TermParts([geo, industry]);
    assert [geo, industry][0] == geo && [geo, industry][1] == industry;
    if terms != [] {
      assert Prefixed(terms, " ") == " " + terms[0] + Prefixed(terms[1..], " ");
      assert |BuildCompanyQuery(geo, industry)| > |CompanySite|;
    }
  }

  /** `build_general_query(role, geo, industry, target)`: for a people
      search the team-page terms, then the role, geo and industry terms
      present, each in parentheses; otherwise only the geo and industry
      terms, or `site:*.com` when there are none. */
  function BuildGeneralQuery(role: string, geo: string, industry: string, target: string): (q: string)
    ensures StartsWith(target, "People") ==>
      q == Join([PeoplePages] + (if role != [] then [Paren(role)] else []) + TermParts([geo, industry]), " ")
    ensures !StartsWith(target, "People") ==> q == (if geo == [] && industry == [] then AnySite else Join(TermParts([geo, industry]), " "))
  {
    var people := StartsWith(target, "People");
    var head := (if people then [PeoplePages] else []) + (if role != [] && people then [Paren(role)] else []);
    var aug := head + TermParts([geo, industry]);
    assert !people ==> aug == TermParts([geo, industry]);
    if aug == [] then AnySite else Join(aug, " ")
  }

  /** A non-empty list of parts whose first part opens with `(` joins to a
      text that opens with `(`. */
  lemma JoinOpensWithParen(parts: seq<string>)
    requires parts != [] && parts[0] != [] && parts[0][0] == '('
    ensures var j := Join(parts, " "); j != [] && j[0] == '('
  {
    assert parts == [parts[0]] + parts[1..];
    JoinIsHeadThenPrefixed(parts[0], parts[1..], " ");
  }

  /** The general query falls back to `site:*.com` exactly when the target is
      not people and neither geography nor industry is given. */
  lemma GeneralQueryFallback(role: string, geo: string, industry: string, target: string)
    ensures BuildGeneralQuery(role, geo, industry, target) == AnySite
        <==> !StartsWith(target, "People") && geo == [] && industry == []
  {
    var people := StartsWith(target, "People");
    var head := (if people then [PeoplePages] else []) + (if role != [] && people then [Paren(role)] else []);
    var terms := TermParts([geo, industry]);
    var aug := head + terms;
    assert [geo, industry][0] == geo && [geo, industry][1] == industry;
    if aug != [] {
      assert aug[0] == PeoplePages || aug[0] == Paren(role) || aug[0] == terms[0];
      JoinOpensWithParen(aug);
      assert AnySite[0] == 's';
    }
  }

  /** Role terms count only for people searches. */
  lemma GeneralQueryIgnoresRole(role1: string, role2: string, geo: string, industry: string, target: string)
    requires !StartsWith(target, "People")
    ensures BuildGeneralQuery(role1, geo, industry, target) == BuildGeneralQuery(role2, geo, industry, target)
  {
  }

  /** A people search opens with the team-page terms. */
  lemma GeneralPeopleQueryOpens(role: string, geo: string, industry: string, target: string)
    requires StartsWith(target, "People")
    ensures StartsWith(BuildGeneralQuery(role, geo, industry, target), PeoplePages)
  {
    var parts := [PeoplePages] + (if role != [] then [Paren(role)] else []) + TermParts([geo, industry]);
    assert parts[0] == PeoplePages;
    JoinStartsWithFirst(parts, " ");
  }

  /** The characters the title fallback splits on: en dash, hyphen, bar. */
  predicate IsSeparator(c: char) {
    c == '\U{2013}' || c == '-' || c == '|'
  }

  predicate NoSeparator(s: string) {
    forall i :: 0 <= i < |s| ==> !IsSeparator(s[i])
  }

  /** `re.split("[–\-|]", s)`: the pieces between separators, one more than
      there are separators, none containing one. */
  function SplitAny(s: string): (r: seq<string>)
    ensures |r| >= 1
    ensures forall i :: 0 <= i < |r| ==> NoSeparator(r[i])
    decreases |s|
  {
    if s == [] then [[]]
    else
      var rest := SplitAny(s[1..]);
      if IsSeparator(s[0]) then [[]] + rest
      else
        assert forall i :: 1 <= i < |rest| ==> rest[i] == rest[1..][i - 1];
        [[s[0]] + rest[0]] + rest[1..]
  }

  /** A separator-free text followed by a separator splits off whole. */
  lemma {:induction false} SplitAnyPiece(a: string, c: char, b: string)
    requires NoSeparator(a) && IsSeparator(c)
    ensures SplitAny(a + [c] + b) == [a] + SplitAny(b)
    decreases |a|
  {
    if a == [] {
      assert a + [c] + b == [c] + b;
      assert ([c] + b)[1..] == b;
    } else {
      assert (a + [c] + b)[1..] == a[1..] + [c] + b;
      SplitAnyPiece(a[1..], c, b);
      assert [a[0]] + a[1..] == a;
    }
  }

  /** A separator-free text is a single piece. */
  lemma {:induction false} SplitAnyWhole(a: string)
    requires NoSeparator(a)
    ensures SplitAny(a) == [a]
    decreases |a|
  {
    if a != [] {
      SplitAnyWhole(a[1..]);
      assert [a[0]] + a[1..] == a;
    }
  }

  /** A text without surrounding whitespace. */
  predicate Trimmed(s: string) {
    s != [] && !IsSpace(s[0]) && !IsSpace(s[|s| - 1])
  }

  predicate AllTrimmed(xs: seq<string>) {
    forall i :: 0 <= i < |xs| ==> Trimmed(xs[i])
  }

  lemma AllTrimmedCons(x: string, xs: seq<string>)
    requires Trimmed(x) && AllTrimmed(xs)
    ensures AllTrimmed([x] + xs)
  {
    forall i | 0 <= i < |[x] + xs| ensures Trimmed(([x] + xs)[i]) {
      if i > 0 {
        assert ([x] + xs)[i] == xs[i - 1];
      }
    }
  }

  /** `[p.strip() for p in parts if p.strip()]`: the parts stripped, each
      without surrounding whitespace, the blank ones dropped. */
  function StrippedPieces(parts: seq<string>): (r: seq<string>)
    ensures |r| <= |parts|
    ensures AllTrimmed(r)
    decreases |parts|
  {
    if parts == [] then []
    else
      var p := Strip(parts[0]);
      var rest := StrippedPieces(parts[1..]);
      if p == [] then rest
      else
        assert !IsSpace(p[0]) && !IsSpace(p[|p| - 1]);
        assert Trimmed(p);
        assert AllTrimmed(rest);
        AllTrimmedCons(p, rest);
        [p] + rest
  }

  /** A lone part gives its stripped form, or nothing when it is blank. */
  lemma StrippedPiecesOne(p: string)
    ensures StrippedPieces([p]) == (if Strip(p) == [] then [] else [Strip(p)])
  {
    assert [p][1..] == [];
  }

  /** The comprehension works part by part: the pieces of a concatenation are
      the pieces of each half, concatenated. */
  lemma {:induction false} StrippedPiecesAppend(a: seq<string>, b: seq<string>)
    ensures StrippedPieces(a + b) == StrippedPieces(a) + StrippedPieces(b)
    decreases |a|
  {
    if a == [] {
      assert a + b == b;
    } else {
      assert (a + b)[0] == a[0];
      assert (a + b)[1..] == a[1..] + b;
      StrippedPiecesAppend(a[1..], b);
    }
  }

  /** No piece survives exactly when every part is blank. */
  lemma {:induction false} NoPiecesIffBlank(parts: seq<string>)
    ensures StrippedPieces(parts) == [] <==> forall i :: 0 <= i < |parts| ==> AllSpace(parts[i])
    decreases |parts|
  {
    if parts != [] {
      var tail := parts[1..];
      NoPiecesIffBlank(tail);
      forall i | 0 < i < |parts| ensures parts[i] == tail[i - 1] {
      }
    }
  }

  /** Stripping one piece cannot bring in a separator. */
  lemma StripNoSeparator(s: string)
    requires NoSeparator(s)
    ensures NoSeparator(Strip(s))
  {
    var p := Strip(s);
    var k := StripSlice(s);
    forall i | 0 <= i < |p| ensures !IsSeparator(p[i]) {
      assert p[i] == s[k + i];
    }
  }

  /** Stripping cannot bring in a separator. */
  lemma {:induction false} StrippedNoSeparator(parts: seq<string>)
    requires forall i :: 0 <= i < |parts| ==> NoSeparator(parts[i])
    ensures forall i :: 0 <= i < |StrippedPieces(parts)| ==> NoSeparator(StrippedPieces(parts)[i])
    decreases |parts|
  {
    if parts != [] {
      var tail := parts[1..];
      forall i | 0 <= i < |tail| ensures NoSeparator(tail[i]) {
        assert tail[i] == parts[i + 1];
      }
      StrippedNoSeparator(tail);
      var p := Strip(parts[0]);
      var rest := StrippedPieces(tail);
      var r := StrippedPieces(parts);
      if p != [] {
        StripNoSeparator(parts[0]);
        assert r == [p] + rest;
        forall i | 0 <= i < |r| ensures NoSeparator(r[i]) {
          if i > 0 {
            assert r[i] == rest[i - 1];
          }
        }
      } else {
        assert r == rest;
      }
    }
  }

  /** What the title parser yields: name, job title, company. */
  datatype Person = Person(name: string, job: string, company: string)

  const LinkedInTag := "| LinkedIn"

  /** The title with every `| LinkedIn` removed, then trimmed: empty or
      without surrounding whitespace, and never longer than the title. */
  function CleanTitle(title: string): (r: string)
    ensures r == [] || Trimmed(r)
    ensures |r| <= |title|
  {
    Strip(RemoveAll(title, LinkedInTag))
  }

  /** A title without a bar is only trimmed. */
  lemma CleanUnbarred(title: string)
    requires '|' !in title
    ensures CleanTitle(title) == Strip(title)
  {
    assert LinkedInTag[0] == '|';
    RemoveAllAbsent(title, LinkedInTag);
  }

  /** A title `x | LinkedIn`, where `x` is trimmed and holds no bar, cleans
      to `x`. */
  lemma CleanTagged(x: string)
    requires Trimmed(x) && '|' !in x
    ensures CleanTitle(x + " " + LinkedInTag) == x
  {
    assert '|' !in x + " ";
    RemoveAllTag(x + " ", LinkedInTag);
    StripBetween([], x, " ");
    assert [] + x + " " == x + " ";
  }

  /** The fallback of `parse_title_for_person`, used when the regular
      expression does not match: the first three non-blank pieces between
      separators, each trimmed and free of separators; or else the cleaned
      title as the name alone. */
  function ParseTitleFallback(title: string): (p: Person)
    ensures p.job == [] <==> p.company == []
    ensures p.job == [] ==> p == Person(CleanTitle(title), [], [])
    ensures p.job != [] ==> Trimmed(p.name) && Trimmed(p.job) && Trimmed(p.company)
    ensures p.job != [] ==> NoSeparator(p.name) && NoSeparator(p.job) && NoSeparator(p.company)
  {
    var t := CleanTitle(title);
    var pieces := StrippedPieces(SplitAny(t));
    StrippedNoSeparator(SplitAny(t));
    if |pieces| >= 3 then Person(pieces[0], pieces[1], pieces[2]) else Person(t, [], [])
  }

  /** `parse_title_for_person(title)`: `matchTitle` stands for the regular
      expression applied to the cleaned title, giving the three groups
      stripped when it matches. */
  function ParseTitle(title: string, matchTitle: string -> Option<Person>): Person {
    match matchTitle(CleanTitle(title))
    case Some(p) => p
    case None => ParseTitleFallback(title)
  }

  /** How a profile title commonly separates its parts. */
  const Dash := " \U{2013} "

  /** Round trip: a title written as `name – job – company` (around en
      dashes) parses back into its three parts, when no part holds a
      separator or surrounding whitespace. */
  lemma ParseFormattedTitle(name: string, job: string, company: string)
    requires Trimmed(name) && Trimmed(job) && Trimmed(company)
    requires NoSeparator(name) && NoSeparator(job) && NoSeparator(company)
    ensures CleanTitle(name + Dash + job + Dash + company) == name + Dash + job + Dash + company
    ensures ParseTitleFallback(name + Dash + job + Dash + company) == Person(name, job, company)
  {
    var title := name + Dash + job + Dash + company;
    var a, b, c := name + " ", " " + job + " ", " " + company;
    FormattedPieces(name, job, company, title, a, b, c);
    TrimmedEnds(name, Dash + job + Dash, company);
    assert title == name + (Dash + job + Dash) + company;
    CleanFormatted(title, a, b, c);
    SplitFormatted(title, a, b, c);
    PadsStrip(name, job, company, a, b, c);
    PiecesStrip(a, b, c);
  }

  lemma FormattedPieces(name: string, job: string, company: string, title: string, a: string, b: string, c: string)
    requires NoSeparator(name) && NoSeparator(job) && NoSeparator(company)
    requires title == name + Dash + job + Dash + company
    requires a == name + " " && b == " " + job + " " && c == " " + company
    ensures title == a + ['\U{2013}'] + (b + ['\U{2013}'] + c)
    ensures NoSeparator(a) && NoSeparator(b) && NoSeparator(c)
  {
  }

  lemma TrimmedEnds(x: string, mid: string, y: string)
    requires Trimmed(x) && Trimmed(y)
    ensures Trimmed(x + mid + y)
  {
    var t := x + mid + y;
    assert t[0] == x[0];
    assert t[|t| - 1] == y[|y| - 1];
  }

  lemma CleanFormatted(title: string, a: string, b: string, c: string)
    requires title == a + ['\U{2013}'] + (b + ['\U{2013}'] + c)
    requires NoSeparator(a) && NoSeparator(b) && NoSeparator(c)
    requires Trimmed(title)
    ensures CleanTitle(title) == title
  {
    NoBar(title, a, b, c);
    RemoveAllAbsent(title, LinkedInTag);
    StripKeeps(title);
  }

  lemma SplitFormatted(title: string, a: string, b: string, c: string)
    requires title == a + ['\U{2013}'] + (b + ['\U{2013}'] + c)
    requires NoSeparator(a) && NoSeparator(b) && NoSeparator(c)
    ensures SplitAny(title) == [a, b, c]
  {
    SplitAnyPiece(a, '\U{2013}', b + ['\U{2013}'] + c);
    SplitAnyPiece(b, '\U{2013}', c);
    SplitAnyWhole(c);
  }

  lemma PadsStrip(name: string, job: string, company: string, a: string, b: string, c: string)
    requires Trimmed(name) && Trimmed(job) && Trimmed(company)
    requires a == name + " " && b == " " + job + " " && c == " " + company
    ensures Strip(a) == name && Strip(b) == job && Strip(c) == company
  {
    StripOne(name, a, [], " ");
    StripOne(job, b, " ", " ");
    StripOne(company, c, " ", []);
  }

  lemma PiecesStrip(a: string, b: string, c: string)
    requires Strip(a) != [] && Strip(b) != [] && Strip(c) != []
    ensures StrippedPieces([a, b, c]) == [Strip(a), Strip(b), Strip(c)]
  {
    PiecesStripTwo(b, c);
    KeptHead(a, [b, c]);
    assert [a] + [b, c] == [a, b, c];
  }

  lemma PiecesStripTwo(b: string, c: string)
    requires Strip(b) != [] && Strip(c) != []
    ensures StrippedPieces([b, c]) == [Strip(b), Strip(c)]
  {
    var sb, sc := Strip(b), Strip(c);
    var one := StrippedPieces([c]);
    assert one == [sc] by { StrippedPiecesOne(c); }
    assert StrippedPieces([b] + [c]) == [sb] + one by { KeptHead(b, [c]); }
    assert [b] + [c] == [b, c];
    assert [sb] + [sc] == [sb, sc];
  }

  /** A piece that is not blank is kept, stripped, in front of the rest. */
  lemma KeptHead(p: string, rest: seq<string>)
    requires Strip(p) != []
    ensures StrippedPieces([p] + rest) == [Strip(p)] + StrippedPieces(rest)
  {
    assert ([p] + rest)[1..] == rest;
  }

  /** Parts that are not blank are all kept, each stripped. */
  lemma {:induction false} AllKept(parts: seq<string>)
    requires forall i :: 0 <= i < |parts| ==> Strip(parts[i]) != []
    ensures |StrippedPieces(parts)| == |parts|
    ensures forall i :: 0 <= i < |parts| ==> StrippedPieces(parts)[i] == Strip(parts[i])
    decreases |parts|
  {
    if parts != [] {
      var tail := parts[1..];
      forall i | 0 <= i < |tail| ensures Strip(tail[i]) != [] {
        assert tail[i] == parts[i + 1];
      }
      AllKept(tail);
      var r := StrippedPieces(parts);
      assert r == [Strip(parts[0])] + StrippedPieces(tail);
      forall i | 1 <= i < |parts| ensures r[i] == Strip(parts[i]) {
        assert r[i] == StrippedPieces(tail)[i - 1] && tail[i - 1] == parts[i];
      }
    }
  }

  lemma StripOne(x: string, p: string, pad1: string, pad2: string)
    requires Trimmed(x) && AllSpace(pad1) && AllSpace(pad2) && p == pad1 + x + pad2
    ensures Strip(p) == x
  {
    StripBetween(pad1, x, pad2);
  }

  lemma NoBar(title: string, a: string, b: string, c: string)
    requires title == a + ['\U{2013}'] + (b + ['\U{2013}'] + c)
    requires NoSeparator(a) && NoSeparator(b) && NoSeparator(c)
    ensures '|' !in title
  {
    forall i | 0 <= i < |title| ensures title[i] != '|' {
      if i < |a| {
        assert title[i] == a[i];
      } else if |a| < i < |a| + 1 + |b| {
        assert title[i] == b[i - |a| - 1];
      } else if i > |a| + 1 + |b| {
        assert title[i] == c[i - |a| - |b| - 2];
      }
    }
  }

  /** A title with no separator is returned, cleaned, as the name alone. */
  lemma UnseparatedTitleIsName(title: string)
    requires NoSeparator(CleanTitle(title))
    ensures ParseTitleFallback(title) == Person(CleanTitle(title), [], [])
  {
    SplitAnyWhole(CleanTitle(title));
  }
}
