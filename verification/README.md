# Lead enrichment: email inference and validation, modelled in Dafny

The modelled program is a small lead-finding tool. It searches the web for
people or companies, drops result URLs it has already seen, and guesses the
company's domain from a web search. It then invents candidate email addresses
from a person's first and last name. Last, it classifies each address by its
syntax and by the DNS records of its domain, without talking SMTP.

This project models the deterministic core of that pipeline as pure Dafny
functions. It also proves what each step guarantees. Everything the program
obtains from outside becomes a function parameter (an "oracle"):

- the DNS resolver, as `Dns.Resolver`; a row's validations take one resolver
  per candidate (`dns(i)` answers during the i-th call), since each call of
  `validate_email_no_smtp` makes its own queries and the answers may change
  between calls;
- the public-suffix split of `tldextract`, as `Domains.SuffixSplit`;
- the Brave and SerpAPI requests, as `Search.Backend` and the `search` parameter of `Domains.DiscoverDomain`;
- the regular-expression match of `parse_title_for_person`, as the
  `matchTitle` parameter of `Search.ParseTitle` and `App.EnrichRow`: it is
  applied to the cleaned title, and when it gives no match the split
  fallback, `Search.ParseTitleFallback`, runs on that same cleaned title.

## Modules

| file | module | what it holds |
|---|---|---|
| common.dfy | `Common` | `Option` |
| text.dfy | `Text` | the Python `str` operations the program uses |
| first_occurrence.dfy | `FirstOccurrence` | the loop that keeps the first element of each key, and a reference definition of it |
| email_syntax.dfy | `EmailSyntax` | `EMAIL_RE` as a character-level predicate |
| candidates.dfy | `Candidates` | `generate_candidates` |
| dns.dfy | `Dns` | `has_mx` and `validate_email_no_smtp` |
| domains.dfy | `Domains` | `normalize_domain` and the result filter of `guess_domain_brave` |
| search.dfy | `Search` | the offset and provider order of `search_generic`, the three query builders, and the title parser's fallback |
| lex.dfy | `Lex` | Python's string order, and `sorted(set(xs))` |
| app.dfy | `App` | the script's term joining, URL dedupe, name split, best-candidate pick and one row of enrichment |

## Points worth knowing

- **`EMAIL_RE` accepts a trailing newline.** The pattern ends in `$` and is
  applied with `re.match`. In Python, `$` also matches just before a newline
  that ends the string, so `"a@b.co\n"` passes. `EmailSyntax.EmailRe` models
  this, and `EmailSyntax.TrailingNewlineMatches` exhibits it.
- **A null MX record counts as valid.** An MX record whose exchange is `.`
  announces that the domain takes no mail. Stripping the trailing dots leaves
  one empty host name. The host list is then non-empty, so the address is
  `valid` / `mx_present` with an empty `mx_hosts` field. See
  `Dns.NullMxCountsAsValid`.
- **The first `://` wins, even inside a path.** `normalize_domain` splits at
  the first `://` anywhere in its input. A bare name whose query string carries
  a URL therefore yields the host of that URL. See `Domains.SchemeInPathWins`.
- **The best pick is the first candidate whose domain resolved.** All
  candidates of a row share one domain, so when the resolver answers alike
  for every validation they all get the same status, and the "first valid,
  else first" rule picks the first candidate (`App.BestIsFirstCandidate`).
  Each validation queries DNS anew, though, so a domain that starts
  resolving between two calls makes a later candidate the pick
  (`App.BestIsFirstResolving`, `App.ChangingAnswersPickLater`).
- **One usable name is enough to get a candidate.** At a domain the
  pattern accepts after a plain local part (say `x@` + domain), the list is
  non-empty exactly when at least one of the two names can be a local part:
  the `first` and `last` conventions each use only one name
  (`Candidates.OneUsableNameSuffices`), and when both names hold a character
  the local part cannot carry, such as a space, nothing passes
  (`Candidates.UnusableNamesGiveNothing`, `Candidates.CandidatesIffUsableName`).
  At a domain without a `.` the list is always empty
  (`Candidates.NeedsDottedDomain`).
- **The candidate order is the loop's own list.** Candidates come in the
  order of the list at utils.py:71. The `COMMON_PATTERNS` list is never used
  and has a different order.
- **An unset API key and an empty one are the same.** Both are falsy in
  Python, and both are the empty string here.

## Model

| member | source | states |
|---|---|---|
| Text.Strip | utils.py:20 | the result is empty exactly when the input is all whitespace; otherwise it starts and ends with a non-whitespace character |
| Text.StripSlice | utils.py:20 | `strip()` keeps one contiguous part of its argument |
| Text.StripBetween | utils.py:20 | any whitespace around a text with non-whitespace ends is exactly what `strip()` removes |
| Text.Lower | utils.py:29-30 | same length and no upper-case ASCII letter left; every other character unchanged, and each capital replaced by its small letter |
| Text.LowerFixes | utils.py:29-30 | a text without capitals is its own lower-case form |
| Text.LowerIdempotent | utils.py:29-30 | lower-casing twice is lower-casing once |
| Text.Words | streamlit_app.py:174 | `split()` yields non-empty words that hold no whitespace, and no word at all exactly when the text is all whitespace |
| Text.WordsOfSpaced | streamlit_app.py:174 | words separated by any non-empty runs of whitespace, with any whitespace around them, split back into exactly those words |
| Text.WordsOfJoin | streamlit_app.py:174 | splitting a space-joined list of words gives back the words |
| Text.Find | utils.py:23 | the index of the first occurrence of the pattern, or none when it occurs nowhere |
| Text.LastIndexOf | utils.py:100 | the index of the last occurrence of the character, or none when it is absent |
| Text.RemoveAllAbsent | search.py:74 | `replace(p, "")` leaves a text unchanged when it lacks the pattern's first character |
| Text.RemoveAllTag | search.py:74 | `replace(p, "")` removes a trailing occurrence of `p` from a text that lacks `p`'s first character, and nothing else |
| FirstOccurrence.CollectIsKeepFirst | utils.py:69-74 | the loop with a `seen` set keeps exactly the reference selection "first element of each passing key", and `seen` ends as the set of passing keys |
| FirstOccurrence.CollectResumes | streamlit_app.py:143-149 | a loop started with the passing keys of a prefix already in `seen` keeps what the reference keeps beyond that prefix |
| FirstOccurrence.CollectTakes | streamlit_app.py:143-149 | from any starting `seen` set, the loop ends with that set plus the keys it kept, and keeps only passing elements whose key was not in the starting set |
| FirstOccurrence.KeepFirstSpec | utils.py:69-74 | the kept elements are a subsequence of the input, with distinct passing keys, each at the first occurrence of its key, covering every passing key |
| FirstOccurrence.KeepFirstKeys | utils.py:69-74 | the keys of the kept elements are exactly the passing keys of the input |
| FirstOccurrence.KeepFirstDropRepeat | utils.py:73-74 | removing an element whose key occurred earlier changes nothing |
| FirstOccurrence.KeepFirstHead | utils.py:73-74 | an input that starts with a passing element keeps it first |
| FirstOccurrence.KeepFirstLength | utils.py:69-74 | nothing is kept twice, so the result is never longer than the input |
| EmailSyntax.EmailReIsPattern | utils.py:5 | `re.match` with the trailing `$` accepts exactly the texts of the pattern's shape, and those texts followed by one newline |
| EmailSyntax.StrictMatchIffGrammar | utils.py:5 | locating the first `@` and the last `.` decides the pattern exactly: local run, `@`, host run, `.`, two or more letters, in both directions |
| EmailSyntax.EmailReSplit | utils.py:5 | a match holds exactly one `@`, a non-empty local part of allowed characters, and a `.` after the `@` |
| EmailSyntax.EmailReOfParts | utils.py:5 | `local@domain` passes only when the local part is non-empty and allowed, and the domain holds a `.` and no `@` |
| EmailSyntax.NoAtNoMatch | utils.py:5 | text without `@` never passes |
| EmailSyntax.JaneSmithMatches | utils.py:5 | `jane.smith@example.com` passes |
| EmailSyntax.NewlineAfterMatch | utils.py:5 | any match followed by one newline still passes, although it no longer has the pattern's shape |
| EmailSyntax.TrailingNewlineMatches | utils.py:5 | `a@b.co` matches, and `a@b.co` followed by a newline passes without the pattern's shape |
| Candidates.Renders | utils.py:55-71 | one rendering per convention of the loop's list, each ending in `@` + domain |
| Candidates.GenerateCandidates | utils.py:50-75 | empty when the trimmed, lower-cased first or last name, or the domain, is empty; every candidate passes `EMAIL_RE` and ends in `@` + domain; no candidate repeats |
| Candidates.CandidatesInPriorityOrder | utils.py:69-74 | the candidates are the renders in priority order, each at its first occurrence, and every passing render is among them |
| Candidates.JaneSmithFirst | utils.py:50-75 | for Jane Smith at example.com the first candidate is `jane.smith@example.com` |
| Candidates.FirstInitialLastnameNeverAdds | utils.py:62-74 | `firstinitial.lastname` renders as `flast`, which comes earlier, so the result is that of the first eleven conventions |
| Candidates.OneLetterSurnameCollapses | utils.py:57-74 | with a one-letter surname, `first.l` renders as `first.last` and `l.first` as `last.first`, leaving at most nine candidates |
| Candidates.NeedsDottedDomain | utils.py:56-73 | a domain without `.`, or with an `@`, yields no candidates |
| Candidates.CandidateDomain | utils.py:5 | an address that passes and ends in `@` + domain has a dotted, `@`-free domain |
| Candidates.UnusableNamesGiveNothing | utils.py:56-73 | when both names hold a character the local part cannot carry, there are no candidates |
| Candidates.OneUsableNameSuffices | utils.py:59-73 | at a domain that passes after `x@`, a usable first or last name alone gives at least one candidate (the `first` or `last` convention) |
| Candidates.CandidatesIffUsableName | utils.py:55-73 | at a domain that passes after `x@`, there is a candidate exactly when the first or the last name is usable as a local part |
| EmailSyntax.StrictMatchOfParts | utils.py:5 | with a usable local part, `local@d` matches exactly when `d` is a host run, a `.` and two or more letters |
| EmailSyntax.LocalPartSwap | utils.py:5 | whether `local@domain` passes does not depend on which usable local part is used |
| Dns.SortByPreference | utils.py:83 | sorted by ascending preference, a permutation of the records, and the records of each preference keep their input order |
| Dns.SortIsTheStableSort | utils.py:83 | any sorted ordering that keeps each preference's records in input order is the computed one |
| Dns.TrimTrailingDots | utils.py:83 | the result is a prefix, everything removed is a dot, and the result does not end in a dot |
| Dns.TrimAddedDots | utils.py:83 | any run of trailing dots after a dot-free end is removed exactly |
| Dns.ExchangeHosts | utils.py:83 | one host per record, each a prefix of the record's exchange that does not end in a dot, with only dots cut away |
| Dns.HasMx | utils.py:77-94 | with MX records, their exchanges by ascending preference without trailing dots; else the domain when A or AAAA resolves; else nothing; empty exactly when the resolver knows nothing of the domain |
| Dns.AddressRecordIsHost | utils.py:88-91 | a domain with an A record and no MX records is its own one host |
| Dns.MxHostsSorted | utils.py:82-85 | one host per MX record, taken in an order that is sorted by preference and is a permutation of the records |
| Dns.MxShadowsAddresses | utils.py:82-91 | when MX records exist, the A and AAAA answers play no part |
| Dns.DomainOf | utils.py:100 | the text after the last `@`, which holds no `@` |
| Dns.ValidateEmail | utils.py:96-107 | echoes the address; a non-match is `invalid` / `bad_syntax` with no hosts; `valid` goes with `mx_present` and only for matching addresses |
| Dns.ValidIffDomainResolves | utils.py:100-106 | a matching address is valid exactly when its domain has MX, A or AAAA records; `mx_hosts` is the comma-join of the host list; invalid means `no_mx_or_dns` with no hosts |
| Dns.BadSyntaxIgnoresResolver | utils.py:98-99 | a malformed address gets `bad_syntax` whatever the resolver says |
| Dns.OnlyTheDomainIsQueried | utils.py:100-101 | only the records of the text after the last `@` matter |
| Dns.NotAnEmailIsBadSyntax | utils.py:97-99 | `not-an-email` is `invalid` / `bad_syntax` with empty hosts |
| Dns.UnresolvedDomainIsInvalid | utils.py:88-104 | a domain with no records gives `invalid` / `no_mx_or_dns` and no hosts |
| Dns.NullMxCountsAsValid | utils.py:83-106 | a lone null MX record gives `valid` / `mx_present` with an empty host list |
| Domains.ExtractHost | utils.py:23-26 | the host holds no `/`; it is a prefix of the text after the first `://`, or of the whole text without one, and ends there or just before a `/` |
| Domains.NormalizeDomain | utils.py:19-30 | blank input gives the empty string; the result has no upper-case ASCII letter; with a public suffix it holds a `.` |
| Domains.NormalizeUrl | utils.py:19-30 | `scheme://host/path`, with whitespace around it, gives the registrable part of `host` (`domain.suffix`, or the whole host without a public suffix) lower-cased |
| Domains.OnlyTheHostIsSplit | utils.py:23-27 | only the suffix split of the extracted host matters |
| Domains.SurroundingSpaceIgnored | utils.py:20 | whitespace around the input makes no difference |
| Domains.HostOfUrl | utils.py:23-24 | `scheme://host/path` yields `host` |
| Domains.HostOfBareName | utils.py:25-26 | a host name with no scheme, followed by a path or by nothing, yields itself |
| Domains.SchemeInPathWins | utils.py:23-24 | the first `://` wins even inside a query string |
| Domains.FirstAcceptable | utils.py:41-45 | the first non-empty, non-platform domain of the list, with every earlier one rejected; none exactly when all are rejected |
| Domains.FirstCompanyDomain | utils.py:41-48 | the same, over the normalised result URLs |
| Domains.DiscoveryQuery | utils.py:34 | the company in double quotes followed by `(homepage OR website)`, the company recoverable from the query |
| Domains.DiscoverDomain | utils.py:32-48 | a failed request gives no domain; otherwise no domain exactly when every normalised result URL is empty or a platform, and a domain found is the first acceptable one of them |
| Domains.OnlyPlatformsGiveNothing | utils.py:41-48 | results that are all platforms or empty give no domain |
| Domains.RejectedPrefixSkipped | utils.py:41-45 | leading rejected domains do not change the domain found |
| Search.Offset | search.py:38 | never negative and never below `(page - 1) * max_results`, and equal to one of the two |
| Search.PagesTile | search.py:38 | page 1 starts at 0 and each page starts where the previous one ended |
| Search.EarlyPagesStartAtZero | search.py:38 | pages before the first are clamped to offset 0 |
| Search.SearchGeneric | search.py:35-49 | Brave's results exactly when its key is set and it answers; else SerpAPI's exactly when its key is set and it answers; else the error |
| Search.SerpApiOnlyAsFallback | search.py:39-46 | when Brave answers, SerpAPI's key and answers make no difference |
| Search.NoKeysNoSearch | search.py:49 | with neither key set the search raises |
| Search.TermParts | search.py:53-55 | empty exactly when every term is empty; every part opens with `(` |
| Search.BuildPeopleQuery | search.py:51-57 | starts with `site:linkedin.com/in`, ends with ` -jobs -hiring`, and between them holds each non-empty term parenthesised, in role, geo, industry order, each after one space |
| Search.PeopleQueryNoTerms | search.py:51-57 | with no terms the query is the two fixed parts |
| Search.BuildCompanyQuery | search.py:59-63 | starts with `site:linkedin.com/company`, followed by each non-empty term parenthesised, geo before industry, each after one space |
| Search.CompanyQueryBare | search.py:59-63 | the query is exactly `site:linkedin.com/company` when both terms are empty, and only then |
| Search.BuildGeneralQuery | search.py:65-71 | for a people target, the team-page terms, the role if given, then the geo and industry terms, space-joined; otherwise the geo and industry terms alone, or `site:*.com` when there are none |
| Search.GeneralQueryFallback | search.py:65-71 | the query is `site:*.com` exactly when the target is not people and geo and industry are empty |
| Search.GeneralQueryIgnoresRole | search.py:68 | role terms make no difference unless the target is people |
| Search.GeneralPeopleQueryOpens | search.py:67 | a people search opens with the team-page terms |
| Search.SplitAny | search.py:78 | at least one piece, and no piece holds an en dash, hyphen or bar |
| Search.SplitAnyPiece | search.py:78 | a separator-free text before a separator splits off whole |
| Search.SplitAnyWhole | search.py:78 | a separator-free text is one piece |
| Search.StrippedPieces | search.py:79 | never more pieces than parts, and no piece is blank or has whitespace at either end |
| Search.StrippedPiecesOne | search.py:79 | one part gives its stripped form, or nothing when it is blank |
| Search.StrippedPiecesAppend | search.py:79 | the pieces of two lists of parts are the pieces of the first followed by those of the second |
| Search.NoPiecesIffBlank | search.py:79 | no piece survives exactly when every part is blank |
| Search.StrippedNoSeparator | search.py:79 | stripping separator-free parts leaves separator-free pieces |
| Search.AllKept | search.py:79 | parts that are not blank are all kept, each stripped, in order |
| Search.CleanTitle | search.py:74 | the cleaned title is empty or has no whitespace at either end, and is never longer than the title |
| Search.CleanUnbarred | search.py:74 | a title without a bar character is only stripped |
| Search.CleanTagged | search.py:74 | a trimmed, bar-free title followed by a space and the LinkedIn tag cleans to itself |
| Search.ParseTitleFallback | search.py:78-83 | job and company are both set or both empty; with fewer than three pieces the cleaned title is the name; otherwise all three fields are trimmed and separator-free |
| Search.ParseFormattedTitle | search.py:78-82 | when the regular-expression branch does not match, `name – job – company` is its own cleaned title and parses back into its three parts |
| Search.UnseparatedTitleIsName | search.py:78-83 | a title with no separator is returned, cleaned, as the name alone |
| Lex.SortUnique | streamlit_app.py:102 | strictly increasing, with exactly the elements of the input |
| Lex.SortedUnique | streamlit_app.py:102 | two strictly increasing lists with the same elements are equal |
| Lex.SortUniqueIsTheSortedSet | streamlit_app.py:102 | any strictly increasing list of the input's elements is the computed one |
| App.NonEmpty | streamlit_app.py:101 | the non-empty terms, with exactly the input's elements minus the empty string |
| App.JoinTerms | streamlit_app.py:100-102 | empty exactly when every term is empty |
| App.JoinTermsIsSortedSet | streamlit_app.py:100-102 | the result is the ` OR `-join of the strictly increasing list of the distinct non-empty terms |
| App.JoinTermsOrderFree | streamlit_app.py:100-102 | the order and repetition of the terms make no difference |
| App.DedupeUrls | streamlit_app.py:143-151 | without remembering the seen set is unchanged; it never shrinks |
| App.DedupeUrlsSpec | streamlit_app.py:143-151 | the kept rows are a subsequence with distinct links, each at its first occurrence; with skipping, no remembered link is kept; every admissible link is kept; with remembering, the new seen set is the old one plus exactly the kept links |
| App.InitialSeen | streamlit_app.py:98 | the starting set is a subset of the loaded links; it holds all of them when remembering and nothing when not |
| App.SkipNeedsRemember | streamlit_app.py:98-148 | when links are not remembered the starting set is empty, so skipping remembered links changes nothing |
| App.SecondRunKeepsNothing | streamlit_app.py:143-151 | a second run over the same rows, skipping and remembering, keeps nothing |
| App.SplitName | streamlit_app.py:172-175 | first and last are both set or both empty, are whitespace-free, and are empty for fewer than two words |
| App.SplitNameOfWords | streamlit_app.py:172-175 | a space-joined name of two or more words splits into its first and last word |
| App.OneWordNameSplitsToNothing | streamlit_app.py:172-175 | a one-word name gives neither first nor last name |
| App.CandidateEmails | streamlit_app.py:176-177 | no candidates unless first, last and domain are all set; each candidate passes and ends in `@` + domain |
| App.Validations | streamlit_app.py:179 | one verdict per candidate, in order, for that candidate, valid exactly when the address matches and its domain resolved during its own validation |
| App.FirstValid | streamlit_app.py:180 | the first valid verdict, every earlier one invalid; none exactly when no verdict is valid |
| App.PickBest | streamlit_app.py:179-180 | none exactly for no verdicts; a valid pick exactly when some verdict is valid, and then the first valid one; otherwise the first verdict |
| App.ContactFields | streamlit_app.py:185-186 | all four fields empty when there is no pick; otherwise the pick's address and hosts, status `valid` exactly for a valid pick, reason `bad_syntax` exactly for a bad-syntax pick |
| App.DomainOfCandidate | utils.py:100 | an address ending in `@` + an `@`-free domain has that domain |
| App.CandidateStatus | streamlit_app.py:176-179 | a candidate's verdict is valid exactly when the shared domain resolved during that candidate's validation |
| App.BestIsFirstResolving | streamlit_app.py:176-180 | the pick is the first candidate whose domain resolved during its validation, and the first candidate when none did |
| App.BestIsFirstCandidate | streamlit_app.py:176-180 | when the domain resolved for the first candidate, or for none, the pick is the first candidate, valid exactly when the domain resolved |
| App.ChangingAnswersPickLater | streamlit_app.py:176-180 | a domain that gains an A record between the first and second validation makes the second candidate the pick |
| App.ProfileUrl | streamlit_app.py:157 | a result whose link is a LinkedIn profile URL is read as a profile exactly when people are searched for |
| App.RowPerson | streamlit_app.py:157-160 | outside a people profile, no name or job and a trimmed company no longer than the title; for a profile, the regular-expression match when there is one, and otherwise a job and company that are both set or both empty and free of separators |
| App.ProfileTitleParsed | streamlit_app.py:157-158 | a profile titled `name – job – company` that the regular-expression branch does not match gives those three fields |
| App.CompanyPageRow | streamlit_app.py:159-160 | a non-people result titled with a company followed by a space and the LinkedIn tag gives no name or job and that company |
| App.RowDomain | streamlit_app.py:162-165 | no domain without a company, a Brave key or a discovered domain; otherwise the normalised form of the discovered one |
| App.EnrichRow | streamlit_app.py:156-188 | the row keeps its URL; without a Brave key it has no domain, address or status; status and reason are set together |
| App.ContactOfCandidates | streamlit_app.py:179-186 | the address is a non-empty candidate; `valid` exactly when the domain resolved during some candidate's validation; the first candidate when it resolved for the first or for none |
| App.EnrichRowContact | streamlit_app.py:172-187 | an address is present only with a two-word name and a domain, and is a candidate for them; it is `valid` exactly when the domain resolved during some validation; it is the first candidate when the domain resolved for the first or for none; the status is empty exactly when no candidate was generated |

## Left out

- HTTP: `brave_search` and `serpapi_search` (search.py:4-33) and the request of `guess_domain_brave` are oracles. Any exception, HTTP error or malformed answer is `Failed` or `None`. A result missing its `url`, `title` or `snippet` field is taken to carry the empty string, as the program's `get(..., "")` does.
- The DNS resolver and its timeouts are an oracle. A failed or empty MX query is an empty MX list, and an A or AAAA query either resolves or it does not.
- `tldextract` is an oracle, so nothing is proved about which suffixes are public.
- Domains.NormalizeDomain: idempotence is not stated, because it depends on how `tldextract` splits its own output.
- Text.Lower: lower-cases ASCII letters only, not Python's full Unicode `str.lower()`. Domains.NormalizeDomain and Candidates.NormalizeName inherit this.
- The regular-expression match of `parse_title_for_person` (search.py:75-77) depends on non-greedy matching and a case-insensitive `at`. It is the `matchTitle` oracle, applied to the cleaned title; the cleaning before it (search.py:74) and the split fallback after it (search.py:78-83) are modelled.
- `fetch_html`, `estimate_headcount` and `estimate_headcount_from_html`, with `HEADCOUNT_PATTERNS`, are advisory page scraping. The head-count column is not part of `App.Row`.
- `geo_terms`, `role_terms`, `industry_terms` and `run_query` (streamlit_app.py:104-126), and the loop that gathers results per query, only wire widget values into the modelled builders.
- Streamlit widgets and layout, `load_seen` and `save_seen` (CSV files), the DataFrame export and `time.sleep` are user-interface and file I/O. `App.InitialSeen` takes the loaded set as a parameter.
- `COMMON_PATTERNS` (utils.py:7-10) is never used by the program.
- Integers are unbounded here, as they are in Python, so there is no overflow to model in the offset arithmetic.
