/**
 * The selection logic of the Streamlit script (streamlit_app.py): joining
 * filter terms, de-duplicating result URLs against the remembered ones,
 * splitting a person's name, and enriching one result row with a domain,
 * candidate addresses and the best verdict among them. Widgets, the CSV
 * files and the head-count estimate are not modelled; the title parser,
 * the domain search, the suffix split and DNS are passed in.
 */
module App {
  import opened Common
  import opened Text
  import opened Lex
  import opened FirstOccurrence
  import EmailSyntax
  import Candidates
  import Dns
  import Domains
  import Search

  // ---------------------------------------------------------------- join_terms

  /** The non-empty terms, in order. */
  function NonEmpty(terms: seq<string>): (r: seq<string>)
    ensures Elems(r) == Elems(terms) - {[]}
    ensures forall i :: 0 <= i < |r| ==> r[i] != []
    decreases |terms|
  {
    if terms == [] then []
    else
      var rest := NonEmpty(terms[1..]);
      assert terms == [terms[0]] + terms[1..];
      assert Elems(terms) == {terms[0]} + Elems(terms[1..]);
      if terms[0] == [] then rest
      else
        var r := [terms[0]] + rest;
        assert Elems(r) == {terms[0]} + Elems(rest);
        r
  }

  /** `join_terms(terms)`: the distinct non-empty terms, sorted, joined by
      ` OR `; the empty string when there are none. */
  function JoinTerms(terms: seq<string>): (r: string)
    ensures r == [] <==> forall i :: 0 <= i < |terms| ==> terms[i] == []
  {
    var kept := NonEmpty(terms);
    if kept == [] then
      NothingKept(terms, kept);
      []
    else
      var sorted := SortUnique(kept);
      SortedNonEmpty(kept, sorted);
      JoinNonEmpty(sorted, " OR ");
      assert kept[0] in Elems(terms);
      Join(sorted, " OR ")
  }

  lemma NothingKept(terms: seq<string>, kept: seq<string>)
    requires kept == [] && Elems(kept) == Elems(terms) - {[]}
    ensures forall i :: 0 <= i < |terms| ==> terms[i] == []
  {
    NoElems(kept);
    var none := Elems(terms) - {[]};
    assert none == {};
    forall i | 0 <= i < |terms| ensures terms[i] == [] {
      assert terms[i] in Elems(terms);
      assert terms[i] !in none;
    }
  }

  lemma SortedNonEmpty(kept: seq<string>, sorted: seq<string>)
    requires kept != [] && forall i :: 0 <= i < |kept| ==> kept[i] != []
    requires Elems(sorted) == Elems(kept)
    ensures sorted != [] && sorted[0] != []
  {
    NoElems(kept);
    NoElems(sorted);
    assert sorted[0] in Elems(kept);
  }

  lemma JoinNonEmpty(parts: seq<string>, sep: string)
    requires parts != [] && parts[0] != []
    ensures Join(parts, sep) != []
  {
    assert parts == [parts[0]] + parts[1..];
    JoinIsHeadThenPrefixed(parts[0], parts[1..], sep);
  }

  /** The joined text is fixed by the set of non-empty terms: any strictly
      increasing list of exactly those terms, joined by ` OR `. */
  lemma JoinTermsIsSortedSet(terms: seq<string>, r: seq<string>)
    requires StrictlySorted(r) && Elems(r) == Elems(terms) - {[]} && r != []
    ensures JoinTerms(terms) == Join(r, " OR ")
  {
    var kept := NonEmpty(terms);
    SortUniqueIsTheSortedSet(kept, r);
    NoElems(r);
    NoElems(kept);
  }

  /** Order and repetition of the terms make no difference. */
  lemma JoinTermsOrderFree(t1: seq<string>, t2: seq<string>)
    requires Elems(t1) - {[]} == Elems(t2) - {[]}
    ensures JoinTerms(t1) == JoinTerms(t2)
  {
    var k1, k2 := NonEmpty(t1), NonEmpty(t2);
    SortUniqueIsTheSortedSet(k2, SortUnique(k1));
    NoElems(k1);
    NoElems(k2);
  }

  // ------------------------------------------------------------- URL dedupe

  /** Rows are de-duplicated by their link. */
  function Link(h: Search.Hit): string {
    h.link
  }

  /** The links a run rejects outright: the remembered ones when skipping them. */
  function Blocked(skipSeen: bool, seen: set<string>): set<string> {
    if skipSeen then seen else {}
  }

  /** A link passes unless it is blocked. */
  function Admits(blocked: set<string>): string -> bool {
    u => u !in blocked
  }

  /** The remembered links a session starts with: those loaded from the
      file when remembering, none otherwise. */
  function InitialSeen(loaded: set<string>, rememberSeen: bool): (s: set<string>)
    ensures s <= loaded
    ensures rememberSeen ==> loaded <= s
    ensures s != {} ==> rememberSeen
  {
    if rememberSeen then loaded else {}
  }

  datatype Dedupe = Dedupe(unique: seq<Search.Hit>, seen: set<string>)

  /** The dedupe loop over all result rows and the seen-set update after it. */
  function DedupeUrls(rows: seq<Search.Hit>, seen: set<string>, skipSeen: bool, rememberSeen: bool): (d: Dedupe)
    ensures !rememberSeen ==> d.seen == seen
    ensures seen <= d.seen
  {
    var scan := Collect(rows, Link, Admits(Blocked(skipSeen, seen)), {});
    Dedupe(scan.kept, if rememberSeen then seen + scan.taken else seen)
  }

  /** The kept rows are the input rows in order, with pairwise distinct links,
      each at the first occurrence of its link; no remembered link is kept
      when skipping; every admitted link is kept; and, when remembering, the
      new seen set is the old one plus exactly the kept links. */
  lemma DedupeUrlsSpec(rows: seq<Search.Hit>, seen: set<string>, skipSeen: bool, rememberSeen: bool)
    ensures var d := DedupeUrls(rows, seen, skipSeen, rememberSeen);
      && IsSubsequence(d.unique, rows)
      && (forall a, b :: 0 <= a < b < |d.unique| ==> d.unique[a].link != d.unique[b].link)
      && (forall a :: 0 <= a < |d.unique| ==>
            exists i :: 0 <= i < |rows| && rows[i] == d.unique[a] && d.unique[a].link !in KeysOf(rows[..i], Link))
      && (skipSeen ==> forall a :: 0 <= a < |d.unique| ==> d.unique[a].link !in seen)
      && (forall i :: 0 <= i < |rows| && !(skipSeen && rows[i].link in seen) ==> rows[i].link in KeysOf(d.unique, Link))
      && (rememberSeen ==> d.seen == seen + KeysOf(d.unique, Link))
  {
    var keep := Admits(Blocked(skipSeen, seen));
    CollectIsKeepFirst(rows, Link, keep);
    KeepFirstSpec(rows, Link, keep);
    var d := DedupeUrls(rows, seen, skipSeen, rememberSeen);
    forall i | 0 <= i < |rows| && !(skipSeen && rows[i].link in seen)
      ensures rows[i].link in KeysOf(d.unique, Link)
    {
      assert Link(rows[i]) in PassingKeys(rows, Link, keep);
    }
  }

  /** Without remembering, the session's seen set is empty, so skipping
      remembered links changes nothing. */
  lemma SkipNeedsRemember(rows: seq<Search.Hit>, loaded: set<string>)
    ensures DedupeUrls(rows, InitialSeen(loaded, false), true, false)
         == DedupeUrls(rows, InitialSeen(loaded, false), false, false)
  {
    assert Blocked(true, {}) == Blocked(false, {});
  }

  /** A second run over the same rows, remembering and skipping, keeps nothing new. */
  lemma SecondRunKeepsNothing(rows: seq<Search.Hit>, seen: set<string>)
    ensures var d1 := DedupeUrls(rows, seen, true, true);
      DedupeUrls(rows, d1.seen, true, true).unique == []
  {
    DedupeUrlsSpec(rows, seen, true, true);
    var d1 := DedupeUrls(rows, seen, true, true);
    var keep := Admits(Blocked(true, d1.seen));
    var u2 := DedupeUrls(rows, d1.seen, true, true).unique;
    CollectIsKeepFirst(rows, Link, keep);
    KeepFirstSpec(rows, Link, keep);
    assert PassingKeys(rows, Link, keep) == {} by {
      forall i | 0 <= i < |rows| ensures !keep(Link(rows[i])) {
        assert rows[i].link in seen || rows[i].link in KeysOf(d1.unique, Link);
      }
    }
    KeysOfEmpty(u2, Link);
  }

  // ------------------------------------------------------------- name split

  datatype FullName = FullName(first: string, last: string)

  /** `parts = name.split()`; first and last are the first and last words
      when there are at least two, and both empty otherwise. */
  function SplitName(name: string): (n: FullName)
    ensures n.first == [] <==> n.last == []
    ensures n.first != [] ==> NoSpace(n.first) && NoSpace(n.last)
    ensures |Words(name)| < 2 ==> n == FullName([], [])
  {
    if name == [] then FullName([], [])
    else
      var parts := Words(name);
      if |parts| >= 2 then FullName(parts[0], parts[|parts| - 1]) else FullName([], [])
  }

  /** Round trip: a name of two or more words joined by spaces splits into its
      first and last word; middle names are dropped. */
  lemma SplitNameOfWords(ws: seq<string>)
    requires |ws| >= 2
    requires forall i :: 0 <= i < |ws| ==> ws[i] != [] && NoSpace(ws[i])
    ensures SplitName(Join(ws, " ")) == FullName(ws[0], ws[|ws| - 1])
  {
    WordsOfJoin(ws);
    JoinNonEmpty(ws, " ");
    SplitNameOfSplit(Join(ws, " "), ws);
  }

  lemma SplitNameOfSplit(name: string, ws: seq<string>)
    requires name != [] && Words(name) == ws && |ws| >= 2
    ensures SplitName(name) == FullName(ws[0], ws[|ws| - 1])
  {
  }

  /** A one-word name gives neither a first nor a last name. */
  lemma OneWordNameSplitsToNothing(w: string)
    requires w != [] && NoSpace(w)
    ensures SplitName(w) == FullName([], [])
  {
    WordsOfWordThen(w, []);
    assert w + [] == w;
  }

  // ------------------------------------------------------------- best pick

  /** The first verdict whose status is valid. */
  function FirstValid(vals: seq<Dns.Verdict>): (r: Option<Dns.Verdict>)
    ensures r.None? <==> forall i :: 0 <= i < |vals| ==> vals[i].status != Dns.Valid
    ensures r.Some? ==> exists i :: 0 <= i < |vals| && vals[i] == r.value && r.value.status == Dns.Valid
                          && forall j :: 0 <= j < i ==> vals[j].status != Dns.Valid
    decreases |vals|
  {
    if vals == [] then None
    else if vals[0].status == Dns.Valid then Some(vals[0])
    else
      var r := FirstValid(vals[1..]);
      assert forall i :: 1 <= i < |vals| ==> vals[i] == vals[1..][i - 1];
      r
  }

  /** `next((v for v in vals if v["status"] == "valid"), vals[0] if vals else None)`:
      the first valid verdict, else the first verdict, else nothing. */
  function PickBest(vals: seq<Dns.Verdict>): (r: Option<Dns.Verdict>)
    ensures r.None? <==> vals == []
    ensures r.Some? ==> r.value in vals
    ensures r.Some? && r.value.status == Dns.Valid <==> exists i :: 0 <= i < |vals| && vals[i].status == Dns.Valid
    ensures r.Some? && r.value.status == Dns.Valid ==>
      exists i :: 0 <= i < |vals| && vals[i] == r.value && forall j :: 0 <= j < i ==> vals[j].status != Dns.Valid
    ensures r.Some? && r.value.status != Dns.Valid ==> r.value == vals[0]
  {
    match FirstValid(vals)
    case Some(v) => Some(v)
    case None => if vals == [] then None else Some(vals[0])
  }

  /** The email, status, reason and mx_hosts columns of a row. */
  datatype Contact = Contact(email: string, status: string, reason: string, mxHosts: string)

  /** The columns filled from the best verdict, all empty without one. */
  function ContactFields(best: Option<Dns.Verdict>): (c: Contact)
    ensures best.None? ==> c == Contact([], [], [], [])
    ensures c.status == [] <==> best.None?
    ensures c.reason == [] <==> best.None?
    ensures best.Some? ==> c.email == best.value.email && c.mxHosts == best.value.mxHosts
    ensures best.Some? ==> (c.status == "valid" <==> best.value.status == Dns.Valid)
    ensures best.Some? ==> (c.reason == "bad_syntax" <==> best.value.reason == Dns.BadSyntax)
  {
    match best
    case None => Contact([], [], [], [])
    case Some(v) => Contact(v.email, Dns.StatusText(v.status), Dns.ReasonText(v.reason), v.mxHosts)
  }

  /** Candidates are generated only when first, last and domain are all set. */
  function CandidateEmails(first: string, last: string, domain: string): (emails: seq<string>)
    ensures first == [] || last == [] || domain == [] ==> emails == []
    ensures forall i :: 0 <= i < |emails| ==> EmailSyntax.EmailRe(emails[i]) && EndsWith(emails[i], "@" + domain)
  {
    if first != [] && last != [] && domain != [] then Candidates.GenerateCandidates(first, last, domain) else []
  }

  /** `[validate_email_no_smtp(e) for e in emails]`. Each call runs its own
      DNS queries, so `dns(i)` is what the resolver answers during the call
      for the `i`-th address; answers may differ from call to call. Each
      verdict is for its own address, and it is valid exactly when the
      address is well formed and its domain resolves in that call. */
  function Validations(emails: seq<string>, dns: nat -> Dns.Resolver): (vals: seq<Dns.Verdict>)
    ensures |vals| == |emails|
    ensures forall i :: 0 <= i < |emails| ==> vals[i].email == emails[i]
    ensures forall i :: 0 <= i < |emails| ==> (vals[i].status == Dns.Valid <==> Dns.Deliverable(emails[i], dns(i)))
  {
    var vals := seq(|emails|, i requires 0 <= i < |emails| => Dns.ValidateEmail(emails[i], dns(i)));
    forall i | 0 <= i < |emails|
      ensures vals[i].email == emails[i]
      ensures vals[i].status == Dns.Valid <==> Dns.Deliverable(emails[i], dns(i))
    {
      assert vals[i] == Dns.ValidateEmail(emails[i], dns(i));
      if EmailSyntax.EmailRe(emails[i]) {
        Dns.ValidIffDomainResolves(emails[i], dns(i));
      }
    }
    vals
  }

  /** An address ending in `@` + domain, with no `@` in domain, has that domain. */
  lemma DomainOfCandidate(e: string, domain: string)
    requires EndsWith(e, "@" + domain) && '@' !in domain
    ensures '@' in e && Dns.DomainOf(e) == domain
  {
    var k := |e| - |domain| - 1;
    assert e[k] == '@' by {
      assert e[k..] == "@" + domain;
      assert e[k..][0] == e[k];
    }
    var d := Dns.DomainOf(e);
    var m := LastIndexOf(e, '@').value;
    assert e[k + 1..] == domain by {
      assert e[k..] == "@" + domain;
    }
  }

  /** Every candidate of a row shares the row's domain, so a candidate is
      valid exactly when that domain resolves during its own validation. */
  lemma CandidateStatus(emails: seq<string>, domain: string, dns: nat -> Dns.Resolver)
    requires emails != []
    requires forall i :: 0 <= i < |emails| ==> EmailSyntax.EmailRe(emails[i]) && EndsWith(emails[i], "@" + domain)
    ensures forall i :: 0 <= i < |emails| ==>
      (Validations(emails, dns)[i].status == Dns.Valid <==> Dns.HasMx(domain, dns(i)) != [])
  {
    Candidates.CandidateDomain(emails[0], domain);
    forall i | 0 <= i < |emails|
      ensures Validations(emails, dns)[i].status == Dns.Valid <==> Dns.HasMx(domain, dns(i)) != []
    {
      DomainOfCandidate(emails[i], domain);
    }
  }

  /** The best pick among a row's candidates is the first candidate whose
      domain resolved during its validation, and the first candidate when
      none did. */
  lemma BestIsFirstResolving(emails: seq<string>, domain: string, dns: nat -> Dns.Resolver)
    requires emails != []
    requires forall i :: 0 <= i < |emails| ==> EmailSyntax.EmailRe(emails[i]) && EndsWith(emails[i], "@" + domain)
    ensures var vals := Validations(emails, dns);
      && (forall i :: 0 <= i < |emails| && Dns.HasMx(domain, dns(i)) != []
            && (forall j :: 0 <= j < i ==> Dns.HasMx(domain, dns(j)) == [])
            ==> PickBest(vals) == Some(vals[i]))
      && ((forall i :: 0 <= i < |emails| ==> Dns.HasMx(domain, dns(i)) == []) ==> PickBest(vals) == Some(vals[0]))
  {
    var vals := Validations(emails, dns);
    CandidateStatus(emails, domain, dns);
    forall i | 0 <= i < |emails| && Dns.HasMx(domain, dns(i)) != []
          && (forall j :: 0 <= j < i ==> Dns.HasMx(domain, dns(j)) == [])
      ensures PickBest(vals) == Some(vals[i])
    {
      PickFirstValidAt(vals, i);
    }
  }

  /** The pick is the verdict at `i` when it is the first valid one. */
  lemma PickFirstValidAt(vals: seq<Dns.Verdict>, i: nat)
    requires i < |vals| && vals[i].status == Dns.Valid
    requires forall j :: 0 <= j < i ==> vals[j].status != Dns.Valid
    ensures PickBest(vals) == Some(vals[i])
  {
    var v := PickBest(vals).value;
    var k :| 0 <= k < |vals| && vals[k] == v && forall j :: 0 <= j < k ==> vals[j].status != Dns.Valid;
    assert vals[k].status == Dns.Valid;
    assert k == i;
  }

  /** When DNS answers the row's domain alike throughout the row, or when it
      answers for the first candidate, the best pick is the first candidate,
      and it is valid exactly when the domain resolves for it. */
  lemma BestIsFirstCandidate(emails: seq<string>, domain: string, dns: nat -> Dns.Resolver)
    requires emails != []
    requires forall i :: 0 <= i < |emails| ==> EmailSyntax.EmailRe(emails[i]) && EndsWith(emails[i], "@" + domain)
    requires Dns.HasMx(domain, dns(0)) != [] || forall i :: 0 <= i < |emails| ==> Dns.HasMx(domain, dns(i)) == []
    ensures var vals := Validations(emails, dns);
      && PickBest(vals) == Some(vals[0])
      && (vals[0].status == Dns.Valid <==> Dns.HasMx(domain, dns(0)) != [])
  {
    BestIsFirstResolving(emails, domain, dns);
    CandidateStatus(emails, domain, dns);
  }

  /** Answers that change between calls can make a later candidate the best
      pick: the first validation finds nothing, the second finds an address
      record. */
  lemma ChangingAnswersPickLater(emails: seq<string>, domain: string, dns: nat -> Dns.Resolver)
    requires |emails| == 2
    requires forall i :: 0 <= i < |emails| ==> EmailSyntax.EmailRe(emails[i]) && EndsWith(emails[i], "@" + domain)
    requires dns(0)(domain) == Dns.Zone([], false, false)
    requires dns(1)(domain) == Dns.Zone([], true, false)
    ensures PickBest(Validations(emails, dns)) == Some(Validations(emails, dns)[1])
    ensures PickBest(Validations(emails, dns)).value.email == emails[1]
  {
    var vals := Validations(emails, dns);
    assert vals[0].status != Dns.Valid by {
      CandidateStatus(emails, domain, dns);
      assert Dns.HasMx(domain, dns(0)) == [];
    }
    assert vals[1].status == Dns.Valid by {
      CandidateStatus(emails, domain, dns);
      Dns.AddressRecordIsHost(domain, dns(1));
    }
    PickSecond(vals);
  }

  lemma PickSecond(vals: seq<Dns.Verdict>)
    requires |vals| >= 2 && vals[0].status != Dns.Valid && vals[1].status == Dns.Valid
    ensures PickBest(vals) == Some(vals[1])
  {
    PickFirstValidAt(vals, 1);
  }

  // ------------------------------------------------------------- one row

  /** One row of the enriched table. */
  datatype Row = Row(name: string, title: string, company: string, domain: string,
                     email: string, status: string, reason: string, mxHosts: string, url: string)

  /** Whether the row is read as a person's profile. */
  predicate IsProfile(hit: Search.Hit, target: string) {
    StartsWith(target, "People") && (Contains(hit.link, "linkedin.com/in") || Contains(hit.title, "LinkedIn"))
  }

  /** A result whose link is a LinkedIn profile URL is read as a profile
      exactly when people are searched for. */
  lemma ProfileUrl(slug: string, title: string, snippet: string, target: string)
    ensures IsProfile(Search.Hit(title, "https://www.linkedin.com/in/" + slug, snippet), target)
        <==> StartsWith(target, "People")
  {
    var link := "https://www.linkedin.com/in/" + slug;
    assert OccursAt(link, "linkedin.com/in", 12) by {
      assert link[12..12 + |"linkedin.com/in"|] == "linkedin.com/in";
    }
  }

  /** Name, job title and company of a row: parsed from a profile title, else
      the cleaned title taken as the company. */
  function RowPerson(hit: Search.Hit, target: string, matchTitle: string -> Option<Search.Person>): (p: Search.Person)
    ensures !IsProfile(hit, target) ==> p.name == [] && p.job == []
    ensures !IsProfile(hit, target) ==> (p.company == [] || Search.Trimmed(p.company)) && |p.company| <= |hit.title|
    ensures IsProfile(hit, target) && matchTitle(Search.CleanTitle(hit.title)).Some? ==>
              p == matchTitle(Search.CleanTitle(hit.title)).value
    ensures IsProfile(hit, target) && matchTitle(Search.CleanTitle(hit.title)).None? ==>
              && (p.job == [] <==> p.company == [])
              && (p.job != [] ==> Search.NoSeparator(p.name) && Search.NoSeparator(p.job) && Search.NoSeparator(p.company))
  {
    if IsProfile(hit, target) then Search.ParseTitle(hit.title, matchTitle)
    else Search.Person([], [], Search.CleanTitle(hit.title))
  }

  /** Round trip: a profile titled `name – job – company` that the regular
      expression does not match gives back its three parts. */
  lemma ProfileTitleParsed(name: string, job: string, company: string, hit: Search.Hit, target: string,
                           matchTitle: string -> Option<Search.Person>)
    requires Search.Trimmed(name) && Search.Trimmed(job) && Search.Trimmed(company)
    requires Search.NoSeparator(name) && Search.NoSeparator(job) && Search.NoSeparator(company)
    requires hit.title == name + Search.Dash + job + Search.Dash + company
    requires IsProfile(hit, target) && matchTitle(hit.title).None?
    ensures RowPerson(hit, target, matchTitle) == Search.Person(name, job, company)
  {
    Search.ParseFormattedTitle(name, job, company);
  }

  /** Outside a profile, a page titled `company | LinkedIn` gives the company
      alone, whatever the regular expression would make of the title. */
  lemma CompanyPageRow(company: string, link: string, snippet: string, target: string,
                       matchTitle: string -> Option<Search.Person>)
    requires Search.Trimmed(company) && '|' !in company
    requires !StartsWith(target, "People")
    ensures RowPerson(Search.Hit(company + " " + Search.LinkedInTag, link, snippet), target, matchTitle)
         == Search.Person([], [], company)
  {
    Search.CleanTagged(company);
  }

  /** The domain of a row: discovered for a named company when a Brave key is
      set, then normalised again; empty otherwise. */
  function RowDomain(company: string, braveKey: string,
                     search: string -> Option<seq<string>>, split: Domains.SuffixSplit): (d: string)
    ensures company == [] || braveKey == [] ==> d == []
    ensures d != [] ==> exists g :: Domains.DiscoverDomain(company, search, split) == Some(g)
                                  && d == Domains.NormalizeDomain(g, split)
    ensures company != [] && braveKey != [] && Domains.DiscoverDomain(company, search, split).Some? ==>
      d == Domains.NormalizeDomain(Domains.DiscoverDomain(company, search, split).value, split)
    ensures Domains.DiscoverDomain(company, search, split).None? ==> d == []
  {
    var found := if company != [] && braveKey != [] then
      (match Domains.DiscoverDomain(company, search, split) case Some(g) => g case None => [])
    else [];
    if found != [] then Domains.NormalizeDomain(found, split) else []
  }

  /** The loop body that enriches one result row; `dns(i)` answers the
      validation of the row's `i`-th candidate. */
  function EnrichRow(hit: Search.Hit, target: string, braveKey: string,
                     matchTitle: string -> Option<Search.Person>,
                     search: string -> Option<seq<string>>,
                     split: Domains.SuffixSplit, dns: nat -> Dns.Resolver): (row: Row)
    ensures row.url == hit.link
    ensures braveKey == [] ==> row.domain == [] && row.email == [] && row.status == []
    ensures row.status == [] <==> row.reason == []
  {
    var p := RowPerson(hit, target, matchTitle);
    var domain := RowDomain(p.company, braveKey, search, split);
    var n := SplitName(p.name);
    var emails := CandidateEmails(n.first, n.last, domain);
    var c := ContactFields(PickBest(Validations(emails, dns)));
    Row(p.name, p.job, p.company, domain, c.email, c.status, c.reason, c.mxHosts, hit.link)
  }

  /** The contact columns of a row's candidates: the address is one of them
      and carries its own verdict's hosts; the status is `valid` exactly when
      the domain resolved during some candidate's validation; and the address
      is the first candidate whenever the domain resolved for the first
      candidate or for none. */
  lemma ContactOfCandidates(emails: seq<string>, domain: string, dns: nat -> Dns.Resolver)
    requires emails != []
    requires forall i :: 0 <= i < |emails| ==> EmailSyntax.EmailRe(emails[i]) && EndsWith(emails[i], "@" + domain)
    ensures var c := ContactFields(PickBest(Validations(emails, dns)));
      && c.email in emails && c.email != []
      && (c.status == "valid" <==> exists i :: 0 <= i < |emails| && Dns.HasMx(domain, dns(i)) != [])
      && ((Dns.HasMx(domain, dns(0)) != [] || forall i :: 0 <= i < |emails| ==> Dns.HasMx(domain, dns(i)) == [])
            ==> c.email == emails[0])
  {
    ContactIsCandidate(emails, domain, dns);
    ContactValidIff(emails, domain, dns);
    ContactFirstCandidate(emails, domain, dns);
  }

  lemma ContactFirstCandidate(emails: seq<string>, domain: string, dns: nat -> Dns.Resolver)
    requires emails != []
    requires forall i :: 0 <= i < |emails| ==> EmailSyntax.EmailRe(emails[i]) && EndsWith(emails[i], "@" + domain)
    ensures (Dns.HasMx(domain, dns(0)) != [] || forall i :: 0 <= i < |emails| ==> Dns.HasMx(domain, dns(i)) == [])
      ==> ContactFields(PickBest(Validations(emails, dns))).email == emails[0]
  {
    if Dns.HasMx(domain, dns(0)) != [] || forall i :: 0 <= i < |emails| ==> Dns.HasMx(domain, dns(i)) == [] {
      BestIsFirstCandidate(emails, domain, dns);
    }
  }

  lemma ContactIsCandidate(emails: seq<string>, domain: string, dns: nat -> Dns.Resolver)
    requires emails != []
    requires forall i :: 0 <= i < |emails| ==> EmailSyntax.EmailRe(emails[i]) && EndsWith(emails[i], "@" + domain)
    ensures var c := ContactFields(PickBest(Validations(emails, dns)));
      c.email in emails && c.email != []
  {
    var vals := Validations(emails, dns);
    var best := PickBest(vals).value;
    var k :| 0 <= k < |vals| && vals[k] == best;
    assert best.email == emails[k];
    EmailSyntax.MatchHasAt(emails[k]);
  }

  lemma ContactValidIff(emails: seq<string>, domain: string, dns: nat -> Dns.Resolver)
    requires emails != []
    requires forall i :: 0 <= i < |emails| ==> EmailSyntax.EmailRe(emails[i]) && EndsWith(emails[i], "@" + domain)
    ensures var c := ContactFields(PickBest(Validations(emails, dns)));
      c.status == "valid" <==> exists i :: 0 <= i < |emails| && Dns.HasMx(domain, dns(i)) != []
  {
    var vals := Validations(emails, dns);
    CandidateStatus(emails, domain, dns);
    var best := PickBest(vals);
    assert ContactFields(best).status == "valid" <==> best.value.status == Dns.Valid;
    if exists i :: 0 <= i < |emails| && Dns.HasMx(domain, dns(i)) != [] {
      var i :| 0 <= i < |emails| && Dns.HasMx(domain, dns(i)) != [];
      assert vals[i].status == Dns.Valid;
    }
  }

  /** A row carries an address only when the name had two words and a domain
      was found. The address is then a candidate for that name at that
      domain; its status is `valid` exactly when the domain resolved during
      some candidate's validation; and it is the first candidate whenever the
      domain resolved for the first candidate or for none. */
  lemma EnrichRowContact(hit: Search.Hit, target: string, braveKey: string,
                         matchTitle: string -> Option<Search.Person>,
                         search: string -> Option<seq<string>>,
                         split: Domains.SuffixSplit, dns: nat -> Dns.Resolver)
    ensures var row := EnrichRow(hit, target, braveKey, matchTitle, search, split, dns);
      var n := SplitName(row.name);
      var cands := Candidates.GenerateCandidates(n.first, n.last, row.domain);
      && (row.email != [] ==>
            && row.domain != [] && n.first != [] && row.email in cands
            && EmailSyntax.EmailRe(row.email) && EndsWith(row.email, "@" + row.domain))
      && (row.email != [] ==>
            (row.status == "valid" <==> exists i :: 0 <= i < |cands| && Dns.HasMx(row.domain, dns(i)) != []))
      && ((row.email != [] && (Dns.HasMx(row.domain, dns(0)) != []
                               || forall i :: 0 <= i < |cands| ==> Dns.HasMx(row.domain, dns(i)) == []))
            ==> row.email == cands[0])
      && (row.status == [] <==> cands == [] || row.domain == [] || n.first == [])
  {
    var p := RowPerson(hit, target, matchTitle);
    var domain := RowDomain(p.company, braveKey, search, split);
    var n := SplitName(p.name);
    var emails := CandidateEmails(n.first, n.last, domain);
    if emails != [] {
      ContactOfCandidates(emails, domain, dns);
    }
  }
}
