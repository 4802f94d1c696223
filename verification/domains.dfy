/**
 * Company domains (`normalize_domain` and the result filter of
 * `guess_domain_brave`, utils.py). The public-suffix split of `tldextract`
 * and the web search are oracles passed in as functions.
 */
module Domains {
  import opened Common
  import opened Text

  /** What the public-suffix split makes of a host: the registrable label
      and the public suffix, either possibly empty. */
  datatype HostParts = HostParts(domain: string, suffix: string)

  type SuffixSplit = string -> HostParts

  /** The text after the first `://`, or all of it when there is none. */
  function AfterScheme(s: string): (r: string)
    ensures Find(s, "://").None? ==> r == s
    ensures Find(s, "://").Some? ==> r == s[Find(s, "://").value + 3..]
  {
    match Find(s, "://")
    case None => s
    case Some(i) => s[i + 3..]
  }

  /** The text before the first `/`, or all of it when there is none. */
  function UpToSlash(s: string): (r: string)
    ensures r <= s && '/' !in r
    ensures |r| < |s| ==> s[|r|] == '/'
  {
    match FirstIndexOf(s, '/')
    case None => s
    case Some(k) => s[..k]
  }

  /** The host part of a URL or bare name: the scheme and everything from
      the first following `/` removed. */
  function ExtractHost(s: string): (r: string)
    ensures '/' !in r
    ensures Find(s, "://").None? ==> r <= s
    ensures Find(s, "://").Some? ==> r <= s[Find(s, "://").value + 3..]
    ensures |r| < |AfterScheme(s)| ==> AfterScheme(s)[|r|] == '/'
  {
    UpToSlash(AfterScheme(s))
  }

  /** What is kept of a host: its registrable label and public suffix joined
      by a dot, or the whole host when it has no public suffix. */
  function Registrable(host: string, ext: HostParts): string {
    if ext.suffix == [] then host else ext.domain + "." + ext.suffix
  }

  /** `normalize_domain(s)`. */
  function NormalizeDomain(s: string, split: SuffixSplit): (r: string)
    ensures AllSpace(s) ==> r == []
    ensures NoUpper(r)
    ensures !AllSpace(s) && split(ExtractHost(Strip(s))).suffix != [] ==> '.' in r
  {
    var t := Strip(s);
    if t == [] then t
    else
      var host := ExtractHost(t);
      var ext := split(host);
      DotSurvives(ext.domain, ext.suffix);
      Lower(Registrable(host, ext))
  }

  lemma DotSurvives(d: string, x: string)
    ensures '.' in Lower(d + "." + x)
  {
    assert (d + "." + x)[|d|] == '.';
  }

  /** Only the split of the extracted host matters. */
  lemma OnlyTheHostIsSplit(s: string, split1: SuffixSplit, split2: SuffixSplit)
    requires split1(ExtractHost(Strip(s))) == split2(ExtractHost(Strip(s)))
    ensures NormalizeDomain(s, split1) == NormalizeDomain(s, split2)
  {
  }

  /** Surrounding whitespace makes no difference. */
  lemma SurroundingSpaceIgnored(pad1: string, s: string, pad2: string, split: SuffixSplit)
    requires AllSpace(pad1) && AllSpace(pad2)
    requires s != [] && !IsSpace(s[0]) && !IsSpace(s[|s| - 1])
    ensures NormalizeDomain(pad1 + s + pad2, split) == NormalizeDomain(s, split)
  {
    StripBetween(pad1, s, pad2);
    StripKeeps(s);
  }

  /** A URL `scheme://host/path` yields `host`, whatever the path holds. */
  lemma HostOfUrl(scheme: string, host: string, path: string)
    requires ':' !in scheme && '/' !in host
    requires path == [] || path[0] == '/'
    ensures ExtractHost(scheme + "://" + host + path) == host
  {
    var s := scheme + "://" + host + path;
    var i := |scheme|;
    assert OccursAt(s, "://", i) by {
      assert s[i..i + 3] == "://";
    }
    forall j | 0 <= j < i ensures !OccursAt(s, "://", j) {
      assert s[j] == scheme[j];
    }
    assert Find(s, "://") == Some(i);
    assert s[i + 3..] == host + path;
    var t := host + path;
    if path != [] {
      assert t[|host|] == '/';
      assert '/' !in t[..|host|] by {
        assert t[..|host|] == host;
      }
    } else {
      assert t == host;
    }
  }

  /** A bare host name with no scheme yields itself. */
  lemma HostOfBareName(host: string, path: string)
    requires ':' !in host && '/' !in host
    requires path == [] || path[0] == '/'
    requires ':' !in path
    ensures ExtractHost(host + path) == host
  {
    var s := host + path;
    forall j | 0 <= j ensures !OccursAt(s, "://", j) {
      if j < |s| {
        assert s[j] != ':' by {
          if j < |host| {
            assert s[j] == host[j];
          } else {
            assert s[j] == path[j - |host|];
          }
        }
      }
    }
    if path != [] {
      assert s[|host|] == '/';
      assert s[..|host|] == host;
    } else {
      assert s == host;
    }
  }

  /** The first `://` wins even inside a query string: a bare name whose path
      carries a URL yields that URL's host. */
  lemma SchemeInPathWins(host: string, inner: string)
    requires ':' !in host && '/' !in host && '/' !in inner
    ensures ExtractHost(host + "/?u=https://" + inner) == inner
  {
    var s := host + "/?u=https://" + inner;
    var i := |host| + 9;
    assert OccursAt(s, "://", i) by {
      assert s[i..i + 3] == "://";
    }
    forall j | 0 <= j < i ensures !OccursAt(s, "://", j) {
      assert s[j] != ':' by {
        if j < |host| {
          assert s[j] == host[j];
        }
      }
    }
    assert Find(s, "://") == Some(i);
    assert s[i + 3..] == inner;
  }

  lemma NoSpaceJoin(a: string, b: string)
    requires NoSpace(a) && NoSpace(b)
    ensures NoSpace(a + b)
  {
    forall i | 0 <= i < |a + b| ensures !IsSpace((a + b)[i]) {
      if i >= |a| {
        assert (a + b)[i] == b[i - |a|];
      }
    }
  }

  /** End to end: a URL `scheme://host/path`, with whitespace around it,
      normalises to its host's registrable label and public suffix joined by a
      dot, lower-cased; to the whole host lower-cased when the host has no
      public suffix. */
  lemma NormalizeUrl(pad1: string, scheme: string, host: string, path: string, pad2: string, split: SuffixSplit)
    requires AllSpace(pad1) && AllSpace(pad2)
    requires NoSpace(scheme) && NoSpace(host) && NoSpace(path)
    requires ':' !in scheme && '/' !in host
    requires path == [] || path[0] == '/'
    ensures NormalizeDomain(pad1 + scheme + "://" + host + path + pad2, split)
         == Lower(Registrable(host, split(host)))
  {
    var url := scheme + "://" + host + path;
    NoSpaceJoin(scheme, "://");
    NoSpaceJoin(scheme + "://", host);
    NoSpaceJoin(scheme + "://" + host, path);
    assert url[|scheme|] == ':';
    assert pad1 + scheme + "://" + host + path + pad2 == pad1 + url + pad2;
    SurroundingSpaceIgnored(pad1, url, pad2, split);
    HostOfUrl(scheme, host, path);
    NormalizeClean(url, split);
  }

  lemma NormalizeClean(s: string, split: SuffixSplit)
    requires s != [] && NoSpace(s)
    ensures NormalizeDomain(s, split) == Lower(Registrable(ExtractHost(s), split(ExtractHost(s))))
  {
    StripKeeps(s);
  }

  /** The platforms whose pages are never taken for a company's own site. */
  const Excluded: set<string> := {"linkedin.com", "facebook.com", "twitter.com", "youtube.com", "instagram.com"}

  predicate Acceptable(d: string) {
    d != [] && d !in Excluded
  }

  /** The first acceptable domain of the list. */
  function FirstAcceptable(ds: seq<string>): (r: Option<string>)
    ensures r.Some? ==> Acceptable(r.value)
    ensures r.Some? ==> exists i :: 0 <= i < |ds| && ds[i] == r.value
                          && forall j :: 0 <= j < i ==> !Acceptable(ds[j])
    ensures r.None? <==> forall i :: 0 <= i < |ds| ==> !Acceptable(ds[i])
    decreases |ds|
  {
    if ds == [] then None
    else if Acceptable(ds[0]) then Some(ds[0])
    else
      var r := FirstAcceptable(ds[1..]);
      assert forall i :: 1 <= i < |ds| ==> ds[i] == ds[1..][i - 1];
      assert r.Some? ==> ds[1..][0..] == ds[1..];
      r
  }

  /** The loop of `guess_domain_brave` over the result URLs: the first
      normalised domain that is non-empty and not a social platform. */
  function FirstCompanyDomain(urls: seq<string>, split: SuffixSplit): (r: Option<string>)
    ensures r.Some? ==> Acceptable(r.value)
    ensures r.Some? ==> exists i :: 0 <= i < |urls| && NormalizeDomain(urls[i], split) == r.value
                          && forall j :: 0 <= j < i ==> !Acceptable(NormalizeDomain(urls[j], split))
    ensures r.None? <==> forall i :: 0 <= i < |urls| ==> !Acceptable(NormalizeDomain(urls[i], split))
  {
    var ds := seq(|urls|, i requires 0 <= i < |urls| => NormalizeDomain(urls[i], split));
    FirstOfMapped(urls, u => NormalizeDomain(u, split), ds);
    FirstAcceptable(ds)
  }

  lemma FirstOfMapped(urls: seq<string>, f: string -> string, ds: seq<string>)
    requires |ds| == |urls| && forall i :: 0 <= i < |urls| ==> ds[i] == f(urls[i])
    ensures var r := FirstAcceptable(ds);
      && (r.Some? ==> exists i :: 0 <= i < |urls| && f(urls[i]) == r.value
                          && forall j :: 0 <= j < i ==> !Acceptable(f(urls[j])))
      && (r.None? <==> forall i :: 0 <= i < |urls| ==> !Acceptable(f(urls[i])))
  {
    var r := FirstAcceptable(ds);
    if r.Some? {
      var i :| 0 <= i < |ds| && ds[i] == r.value && forall j :: 0 <= j < i ==> !Acceptable(ds[j]);
      assert f(urls[i]) == r.value;
    }
  }

  const QuerySuffix := "\" (homepage OR website)"

  /** The discovery query: the company name in double quotes, then
      `(homepage OR website)`. */
  function DiscoveryQuery(company: string): (q: string)
    ensures StartsWith(q, "\"") && EndsWith(q, QuerySuffix)
    ensures |q| == 1 + |company| + |QuerySuffix| && q[1..|q| - |QuerySuffix|] == company
  {
    var q := "\"" + company + QuerySuffix;
    assert q[1..|q| - |QuerySuffix|] == company;
    q
  }

  /** `guess_domain_brave(company, key)`: `search` stands for the request,
      giving the result URLs (a missing `url` field as the empty string) or
      `None` when the request fails. */
  function DiscoverDomain(company: string, search: string -> Option<seq<string>>, split: SuffixSplit): (r: Option<string>)
    ensures search(DiscoveryQuery(company)).None? ==> r.None?
    ensures search(DiscoveryQuery(company)).Some? ==> r == FirstCompanyDomain(search(DiscoveryQuery(company)).value, split)
    ensures r.Some? ==> Acceptable(r.value)
    ensures search(DiscoveryQuery(company)).Some? ==>
      (r.None? <==> forall i :: 0 <= i < |search(DiscoveryQuery(company)).value| ==>
                      !Acceptable(NormalizeDomain(search(DiscoveryQuery(company)).value[i], split)))
  {
    match search(DiscoveryQuery(company))
    case None => None
    case Some(urls) => FirstCompanyDomain(urls, split)
  }

  /** Results that are all social-platform pages or unusable give no domain. */
  lemma OnlyPlatformsGiveNothing(urls: seq<string>, split: SuffixSplit)
    requires forall i :: 0 <= i < |urls| ==> NormalizeDomain(urls[i], split) in Excluded + {""}
    ensures FirstCompanyDomain(urls, split) == None
  {
  }

  /** Leading rejected domains do not change which domain is found. */
  lemma {:induction false} RejectedPrefixSkipped(skipped: seq<string>, ds: seq<string>)
    requires forall i :: 0 <= i < |skipped| ==> !Acceptable(skipped[i])
    ensures FirstAcceptable(skipped + ds) == FirstAcceptable(ds)
    decreases |skipped|
  {
    if skipped == [] {
      assert skipped + ds == ds;
    } else {
      assert (skipped + ds)[0] == skipped[0];
      assert (skipped + ds)[1..] == skipped[1..] + ds;
      RejectedPrefixSkipped(skipped[1..], ds);
    }
  }
}
