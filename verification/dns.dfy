/**
 * Deliverability without SMTP (`has_mx` and `validate_email_no_smtp`,
 * utils.py): an address that matches `EMAIL_RE` is classified by the DNS
 * records of the text after its last `@`. The resolver is an oracle: for
 * each name it tells which MX records the MX query returns (none when the
 * query fails or has no answer) and whether the A and AAAA queries succeed.
 */
module Dns {
  import opened Text
  import opened EmailSyntax

  datatype MxRecord = MxRecord(preference: int, exchange: string)

  /** The resolver's answers for one name. */
  datatype Zone = Zone(mx: seq<MxRecord>, a: bool, aaaa: bool)

  type Resolver = string -> Zone

  predicate SortedByPreference(s: seq<MxRecord>) {
    forall i, j :: 0 <= i < j < |s| ==> s[i].preference <= s[j].preference
  }

  /** The records of preference `p`, in their order in `s`. */
  function WithPreference(s: seq<MxRecord>, p: int): seq<MxRecord>
    decreases |s|
  {
    if s == [] then []
    else (if s[0].preference == p then [s[0]] else []) + WithPreference(s[1..], p)
  }

  /** Places `x` before the first record whose preference is not smaller. */
  function Insert(x: MxRecord, s: seq<MxRecord>): (r: seq<MxRecord>)
    requires SortedByPreference(s)
    ensures SortedByPreference(r)
    ensures multiset(r) == multiset(s) + multiset{x}
    ensures |r| == |s| + 1 && (r[0] == x || (s != [] && r[0] == s[0]))
    decreases |s|
  {
    if s == [] || x.preference <= s[0].preference then [x] + s
    else
      var rest := Insert(x, s[1..]);
      assert s == [s[0]] + s[1..];
      ConsSorted(s[0], rest);
      [s[0]] + rest
  }

  lemma ConsSorted(y: MxRecord, t: seq<MxRecord>)
    requires SortedByPreference(t)
    requires t != [] ==> y.preference <= t[0].preference
    ensures SortedByPreference([y] + t)
  {
    var r := [y] + t;
    forall i, j | 0 <= i < j < |r| ensures r[i].preference <= r[j].preference {
      if i > 0 {
        assert r[i] == t[i - 1] && r[j] == t[j - 1];
      } else {
        assert r[j] == t[j - 1];
      }
    }
  }

  /** Inserting `x` adds it in front of the records of its own preference and
      leaves the records of every other preference as they were. */
  lemma {:induction false} InsertKeepsTies(x: MxRecord, s: seq<MxRecord>, p: int)
    requires SortedByPreference(s)
    ensures WithPreference(Insert(x, s), p) == (if x.preference == p then [x] else []) + WithPreference(s, p)
    decreases |s|
  {
    if s == [] || x.preference <= s[0].preference {
      WithPreferenceCons(x, s, p);
    } else {
      InsertKeepsTies(x, s[1..], p);
      TiesStep(x, s[0], Insert(x, s[1..]), s[1..], p);
      assert s == [s[0]] + s[1..];
      assert Insert(x, s) == [s[0]] + Insert(x, s[1..]);
    }
  }

  /** One step of the above: passing a record of smaller preference than `x`. */
  lemma TiesStep(x: MxRecord, y: MxRecord, rest: seq<MxRecord>, t: seq<MxRecord>, p: int)
    requires y.preference < x.preference
    requires WithPreference(rest, p) == (if x.preference == p then [x] else []) + WithPreference(t, p)
    ensures WithPreference([y] + rest, p) == (if x.preference == p then [x] else []) + WithPreference([y] + t, p)
  {
    var ex := if x.preference == p then [x] else [];
    var ey := if y.preference == p then [y] else [];
    var w := WithPreference(t, p);
    WithPreferenceCons(y, rest, p);
    WithPreferenceCons(y, t, p);
    if ex == [] {
      assert ey + (ex + w) == ex + (ey + w);
    } else {
      assert ey == [];
      assert ey + (ex + w) == ex + (ey + w);
    }
  }

  lemma WithPreferenceCons(y: MxRecord, t: seq<MxRecord>, p: int)
    ensures WithPreference([y] + t, p) == (if y.preference == p then [y] else []) + WithPreference(t, p)
  {
    assert ([y] + t)[1..] == t;
  }

  /** Python's `sorted(answers, key=lambda r: r.preference)`: ascending
      preference, records of equal preference kept in their original order. */
  function SortByPreference(s: seq<MxRecord>): (r: seq<MxRecord>)
    ensures SortedByPreference(r)
    ensures multiset(r) == multiset(s)
    ensures forall p :: WithPreference(r, p) == WithPreference(s, p)
    decreases |s|
  {
    if s == [] then []
    else
      var t := SortByPreference(s[1..]);
      assert s == [s[0]] + s[1..];
      assert forall p :: WithPreference(Insert(s[0], t), p) == WithPreference(s, p) by {
        forall p ensures WithPreference(Insert(s[0], t), p) == WithPreference(s, p) {
          InsertKeepsTies(s[0], t, p);
        }
      }
      Insert(s[0], t)
  }

  lemma {:induction false} WithPreferenceMembers(s: seq<MxRecord>, p: int)
    ensures forall x :: x in WithPreference(s, p) ==> x in s && x.preference == p
    decreases |s|
  {
    if s != [] {
      WithPreferenceMembers(s[1..], p);
    }
  }

  lemma SomeOfHeadPreference(a: seq<MxRecord>, b: seq<MxRecord>)
    requires a != []
    requires forall p :: WithPreference(a, p) == WithPreference(b, p)
    ensures b != []
  {
    assert WithPreference(a, a[0].preference) != [];
  }

  /** A sorted list's first record has the least preference present. */
  lemma HeadIsLeast(s: seq<MxRecord>, x: MxRecord)
    requires SortedByPreference(s) && s != [] && x in s
    ensures s[0].preference <= x.preference
  {
    var i :| 0 <= i < |s| && s[i] == x;
    if i > 0 {
      assert s[0].preference <= s[i].preference;
    }
  }

  /** Sorting by preference with ties kept in input order has one outcome:
      two sorted lists that agree on the records of every preference, in
      order, are equal. */
  lemma {:induction false} StableSortUnique(a: seq<MxRecord>, b: seq<MxRecord>)
    requires SortedByPreference(a) && SortedByPreference(b)
    requires forall p :: WithPreference(a, p) == WithPreference(b, p)
    ensures a == b
    decreases |a| + |b|
  {
    if a == [] || b == [] {
      if a != [] {
        SomeOfHeadPreference(a, b);
      } else if b != [] {
        SomeOfHeadPreference(b, a);
      }
    } else {
      var m, n := a[0].preference, b[0].preference;
      assert WithPreference(a, n)[0] == b[0] by {
        assert WithPreference(b, n)[0] == b[0];
      }
      WithPreferenceMembers(a, n);
      HeadIsLeast(a, b[0]);
      assert WithPreference(b, m)[0] == a[0] by {
        assert WithPreference(a, m)[0] == a[0];
      }
      WithPreferenceMembers(b, m);
      HeadIsLeast(b, a[0]);
      assert a[0] == b[0];
      forall p ensures WithPreference(a[1..], p) == WithPreference(b[1..], p) {
        var k := if m == p then 1 else 0;
        assert WithPreference(a[1..], p) == WithPreference(a, p)[k..];
        assert WithPreference(b[1..], p) == WithPreference(b, p)[k..];
      }
      StableSortUnique(a[1..], b[1..]);
      assert a == [a[0]] + a[1..] && b == [b[0]] + b[1..];
    }
  }

  /** Any ordering that is sorted by preference and keeps equal-preference
      records in input order is the one `SortByPreference` computes. */
  lemma SortIsTheStableSort(s: seq<MxRecord>, r: seq<MxRecord>)
    requires SortedByPreference(r)
    requires forall p :: WithPreference(r, p) == WithPreference(s, p)
    ensures r == SortByPreference(s)
  {
    StableSortUnique(r, SortByPreference(s));
  }

  /** `str(name).rstrip(".")`: the host name without its trailing dots. */
  function TrimTrailingDots(h: string): (r: string)
    ensures r <= h
    ensures forall i :: |r| <= i < |h| ==> h[i] == '.'
    ensures r == [] || r[|r| - 1] != '.'
    decreases |h|
  {
    if h != [] && h[|h| - 1] == '.' then TrimTrailingDots(h[..|h| - 1]) else h
  }

  /** Any number of trailing dots goes: `h` plus dots trims to `h` when `h`
      does not itself end in a dot. */
  lemma {:induction false} TrimAddedDots(h: string, dots: string)
    requires h == [] || h[|h| - 1] != '.'
    requires forall i :: 0 <= i < |dots| ==> dots[i] == '.'
    ensures TrimTrailingDots(h + dots) == h
    decreases |dots|
  {
    if dots == [] {
      assert h + dots == h;
    } else {
      assert (h + dots)[..|h + dots| - 1] == h + dots[..|dots| - 1];
      TrimAddedDots(h, dots[..|dots| - 1]);
    }
  }

  /** The exchanges of the records, in order, trailing dots removed: each
      host is a prefix of its record's exchange that does not end in a dot,
      and only dots follow it there. */
  function ExchangeHosts(s: seq<MxRecord>): (r: seq<string>)
    ensures |r| == |s|
    ensures forall i :: 0 <= i < |s| ==> r[i] <= s[i].exchange && (r[i] == [] || r[i][|r[i]| - 1] != '.')
    ensures forall i, j :: 0 <= i < |s| && |r[i]| <= j < |s[i].exchange| ==> s[i].exchange[j] == '.'
  {
    seq(|s|, i requires 0 <= i < |s| => TrimTrailingDots(s[i].exchange))
  }

  /** `has_mx(domain)`: the MX exchanges by ascending preference; failing
      those, the domain itself when it has an A or AAAA record; else nothing. */
  function HasMx(domain: string, resolve: Resolver): (r: seq<string>)
    ensures var z := resolve(domain);
      && (z.mx != [] ==> r == ExchangeHosts(SortByPreference(z.mx)))
      && (z.mx == [] && (z.a || z.aaaa) ==> r == [domain])
      && (z.mx == [] && !z.a && !z.aaaa ==> r == [])
    ensures r == [] <==> resolve(domain) == Zone([], false, false)
  {
    var z := resolve(domain);
    if z.mx != [] then ExchangeHosts(SortByPreference(z.mx))
    else if z.a || z.aaaa then [domain]
    else []
  }

  /** Without MX records, an A record makes the domain its own mail host. */
  lemma AddressRecordIsHost(domain: string, resolve: Resolver)
    requires resolve(domain) == Zone([], true, false)
    ensures HasMx(domain, resolve) == [domain]
  {
  }

  /** Each MX host is the exchange of one of the records, and hosts come in
      non-decreasing preference. */
  lemma MxHostsSorted(domain: string, resolve: Resolver)
    requires resolve(domain).mx != []
    ensures var r := HasMx(domain, resolve);
      var mx := resolve(domain).mx;
      && |r| == |mx|
      && exists order: seq<MxRecord> ::
           && SortedByPreference(order)
           && multiset(order) == multiset(mx)
           && (forall i :: 0 <= i < |r| ==> r[i] == TrimTrailingDots(order[i].exchange))
  {
    var mx := resolve(domain).mx;
    var order := SortByPreference(mx);
    assert |order| == |mx| by {
      assert |multiset(order)| == |multiset(mx)|;
    }
  }

  /** When MX records exist, the A and AAAA answers play no part. */
  lemma MxShadowsAddresses(domain: string, r1: Resolver, r2: Resolver)
    requires r1(domain).mx == r2(domain).mx != []
    ensures HasMx(domain, r1) == HasMx(domain, r2)
  {
  }

  /** `rsplit("@", 1)[1]`: the text after the last `@`. */
  function DomainOf(email: string): (d: string)
    requires '@' in email
    ensures '@' !in d
    ensures exists k :: 0 <= k < |email| && email[k] == '@' && email[k + 1..] == d
  {
    var k := LastIndexOf(email, '@').value;
    email[k + 1..]
  }

  datatype Status = Valid | Invalid
  datatype Reason = BadSyntax | NoMxOrDns | MxPresent

  function StatusText(s: Status): string {
    match s
    case Valid => "valid"
    case Invalid => "invalid"
  }

  function ReasonText(r: Reason): string {
    match r
    case BadSyntax => "bad_syntax"
    case NoMxOrDns => "no_mx_or_dns"
    case MxPresent => "mx_present"
  }

  /** The dictionary `validate_email_no_smtp` returns. */
  datatype Verdict = Verdict(email: string, status: Status, reason: Reason, mxHosts: string)

  /** `validate_email_no_smtp(email)`. */
  function ValidateEmail(email: string, resolve: Resolver): (v: Verdict)
    ensures v.email == email
    ensures !EmailRe(email) ==> v == Verdict(email, Invalid, BadSyntax, "")
    ensures v.status == Valid <==> v.reason == MxPresent
    ensures v.status == Valid ==> EmailRe(email)
  {
    if !EmailRe(email) then Verdict(email, Invalid, BadSyntax, "")
    else
      MatchHasAt(email);
      var mx := HasMx(DomainOf(email), resolve);
      if mx == [] then Verdict(email, Invalid, NoMxOrDns, Join(mx, ","))
      else Verdict(email, Valid, MxPresent, Join(mx, ","))
  }

  /** An address that is well formed and whose domain has MX, A or AAAA
      records in `resolve`. */
  predicate Deliverable(email: string, resolve: Resolver) {
    EmailRe(email) && '@' in email && HasMx(DomainOf(email), resolve) != []
  }

  /** A well-formed address is valid exactly when its domain has MX, A or
      AAAA records, and the reported hosts are those of `has_mx`. */
  lemma ValidIffDomainResolves(email: string, resolve: Resolver)
    requires EmailRe(email)
    ensures '@' in email
    ensures var v := ValidateEmail(email, resolve);
      var z := resolve(DomainOf(email));
      && (v.status == Valid <==> z.mx != [] || z.a || z.aaaa)
      && v.mxHosts == Join(HasMx(DomainOf(email), resolve), ",")
      && (v.status == Invalid ==> v.reason == NoMxOrDns && v.mxHosts == "")
  {
    MatchHasAt(email);
  }

  /** A malformed address is classified without consulting the resolver. */
  lemma BadSyntaxIgnoresResolver(email: string, r1: Resolver, r2: Resolver)
    requires !EmailRe(email)
    ensures ValidateEmail(email, r1) == ValidateEmail(email, r2)
    ensures ValidateEmail(email, r1).reason == BadSyntax
  {
  }

  /** Only the records of the address's own domain matter. */
  lemma OnlyTheDomainIsQueried(email: string, r1: Resolver, r2: Resolver)
    requires EmailRe(email)
    requires '@' in email && r1(DomainOf(email)) == r2(DomainOf(email))
    ensures ValidateEmail(email, r1) == ValidateEmail(email, r2)
  {
  }

  /** A string without `@` is rejected as bad syntax, whatever the resolver says. */
  lemma NotAnEmailIsBadSyntax(resolve: Resolver)
    ensures ValidateEmail("not-an-email", resolve) == Verdict("not-an-email", Invalid, BadSyntax, "")
  {
    var s := "not-an-email";
    assert '@' !in s;
    NoAtNoMatch(s);
    assert !EmailRe(s);
  }

  /** A domain with nothing in DNS gives `invalid` / `no_mx_or_dns` and no hosts. */
  lemma UnresolvedDomainIsInvalid(email: string, resolve: Resolver)
    requires EmailRe(email) && '@' in email
    requires resolve(DomainOf(email)) == Zone([], false, false)
    ensures ValidateEmail(email, resolve) == Verdict(email, Invalid, NoMxOrDns, "")
  {
  }

  /** A null MX record (exchange `.`, which announces that the domain accepts
      no mail) still yields a host, the empty name, and so `valid`, with an
      empty host list in the output. */
  lemma NullMxCountsAsValid(email: string, resolve: Resolver)
    requires EmailRe(email) && '@' in email
    requires resolve(DomainOf(email)).mx == [MxRecord(0, ".")]
    ensures ValidateEmail(email, resolve) == Verdict(email, Valid, MxPresent, "")
  {
    var d := DomainOf(email);
    assert SortByPreference(resolve(d).mx) == [MxRecord(0, ".")];
    assert TrimTrailingDots(".") == "";
    assert HasMx(d, resolve) == [""];
  }
}
