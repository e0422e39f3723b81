# sqli_crawler core, modelled in Dafny

sqli_crawler drives a headless browser over a set of seed sites. It forwards
every same-host request the pages make to a pool of checkers. For each
request, a checker replays copies in which one parameter value has quote
characters appended. It reports the first copy whose response body shows a
database error signature.

This project models the decision logic of that pipeline and proves its
properties:

- `Urls`: `normalize_url`, which turns a seed line into a crawl URL.
- `CrawlGate`: seed loading and the crawl admission gate (blocked country
  domains, depth, seen URLs, the per-host budget). It also models link
  expansion. The `Crawler` class holds the crawler's mutable state: the seen
  URLs, the per-host counter and the queue.
- `Routing`: the request interception decision (`handle_route`).
- `Injection`: the variant generator (`inject`) and the `islice` truncation.
- `Fingerprint`: the deduplication key (`hash_request`). It has two versions,
  the string the code builds and a collision-free tuple key.
- `Checking`: the check worker (`check_sqli`) as the `Checker` class, which
  holds the seen request keys and the output records. Its methods are:
  - `Claim`: the admission half, proved against `Screen`;
  - `Check`: one queued request, proved against `Outcome` and `Report`;
  - `Drain`: the worker's loop over a queue, one `Next` per request, proved
    against `Outcome` for each request and `Records` for the output.

  The replay loop is the method `Replay`, proved against `FirstHit`.

The HTTP round trip and the error-signature search are one oracle, `probe`.
It maps a variant to a status and the matched text, or to a transport failure.
The browser is also reduced to parameters: a host-of function, a visit
function that returns the page's links, and the booleans that `handle_route`
reads from the request and the page.

Behaviour worth noting; the model follows the code:

- `req_checks`: `None` replays every variant and `0` replays none. A negative
  value, or one above `sys.maxsize` (`Injection.MAXSIZE`, 2^63 - 1 on a
  64-bit CPython), makes `itertools.islice` raise `ValueError`. The
  command-line option accepts any integer. The error comes after the
  request's key has been claimed, so the request is consumed with no replay
  (`Verdict.InvalidLimit`).
- A transport error while replaying one variant abandons the whole request,
  because the `try` wraps the whole replay loop (`Scan.Broken`).
- The `headers` written in a record are the request's own dictionary, which
  was already modified in place. `cookie` has always been removed from it;
  `content-type` has been removed whenever there was a body
  (`Checking.ReplayHeaders`).

## Model

| member | source | states |
|---|---|---|
| Urls.NormalizeUrl | sqli_crawler/utils.py:8-9 | the result always ends in `/` |
| Urls.NormalizeShape | sqli_crawler/utils.py:9 | the result is the input without trailing slashes plus one `/`, prefixed with `https://` exactly when the input has no `://` |
| Urls.NormalizeSingleTrailingSlash | sqli_crawler/utils.py:9 | an input with a non-slash character gives a result with exactly one trailing `/` |
| Urls.NormalizeIgnoresTrailingSlashes | sqli_crawler/utils.py:9 | extra trailing slashes do not change the result, except when stripping them turns `x://` into `x:` |
| Urls.NormalizeIdempotent | sqli_crawler/utils.py:9 | normalising twice equals normalising once, unless the input is all slashes or its only `://` sits in the stripped tail |
| Urls.SlashOnlyIsNotIdempotent | sqli_crawler/utils.py:9 | `/` gives `https:///`, which normalises again to `https:/` |
| Urls.TrimmedSeparatorIsNotIdempotent | sqli_crawler/utils.py:9 | `abc://` gives `abc:/`, which normalises again to `https://abc:/` |
| Urls.TrailingSlashesCanMatter | sqli_crawler/utils.py:9 | `abc:` and `abc://` normalise differently |
| Urls.NormalizeBareHost | sqli_crawler/utils.py:9 | `example.com` becomes `https://example.com/` |
| Strings.RStripBy | sqli_crawler/utils.py:9 | `rstrip`: a prefix of the input, the dropped tail all matches, the last kept character does not |
| Strings.LStripBy | sqli_crawler/crawler.py:412 | `lstrip`: a suffix of the input, the dropped head all matches, the first kept character does not |
| Strings.StripBlank | sqli_crawler/crawler.py:412 | a line strips to empty exactly when it is all whitespace |
| Strings.Digits | sqli_crawler/crawler.py:284-285 | `str` of a natural number: non-empty, all digits, no leading zero |
| Strings.DigitsRoundTrip | sqli_crawler/crawler.py:284-285 | reading the decimal digits back gives the number |
| Strings.DecimalIsLowerCase | sqli_crawler/crawler.py:285 | `lower()` leaves an integer's decimal text unchanged |
| Strings.Contains | sqli_crawler/utils.py:9 | `needle in s`: a needle is never longer than a text containing it, and a prefix is contained |
| Strings.Strip | sqli_crawler/crawler.py:412 | `strip()`: the result is a contiguous piece of the input with only whitespace before and after it, and neither of its ends is whitespace |
| Strings.Join | sqli_crawler/crawler.py:235-238 | `sep.join(parts)`: empty for no parts, the part itself for one, and otherwise starts with the first part and the separator |
| Strings.Decimal | sqli_crawler/crawler.py:285 | `str(i)`: starts with `-` exactly for negatives, and the digits after it read back as the absolute value |
| Injection.Text | sqli_crawler/crawler.py:282-287 | `None` becomes `null`, booleans become `true`/`false`, integers their decimal text, strings stay; other values are skipped |
| Injection.Mutate | sqli_crawler/crawler.py:288-290 | a variant changes only the chosen field of the chosen argument, to its text plus the two quotes; keys and every other field and argument stay |
| Injection.Inject | sqli_crawler/crawler.py:277-290 | every variant the generator yields has as many arguments as the call |
| Injection.PositionsExact | sqli_crawler/crawler.py:277-287 | the reference position list holds exactly the eligible fields, strictly in (argument, key) order |
| Injection.InjectEnumeratesPositions | sqli_crawler/crawler.py:277-290 | variant `n` of the generator is the mutation of the `n`-th eligible field |
| Injection.InjectCount | sqli_crawler/crawler.py:277-290 | there are exactly as many variants as eligible fields |
| Injection.InjectVariantShape | sqli_crawler/crawler.py:288-290 | every variant mutates exactly one eligible field |
| Injection.InjectOrder | sqli_crawler/crawler.py:278-281 | variants come in argument order, then key order within a dictionary |
| Injection.TwoParamsExample | sqli_crawler/crawler.py:277-290 | `params={a: "1", b: "2"}` gives exactly the two variants `a="1'\""` and `b="2'\""` |
| Injection.Islice | sqli_crawler/crawler.py:352-354 | `None` keeps everything; a stop from 0 to `sys.maxsize` keeps that many from the front; a negative stop or one above `sys.maxsize` is an error |
| Fingerprint.HashRequestInjective | sqli_crawler/crawler.py:235-239 | two requests share a key if and only if method, URL and all three key sets agree |
| Fingerprint.NoneIsEmpty | sqli_crawler/crawler.py:236 | `None` and an empty dictionary contribute the same, empty, part |
| Fingerprint.MutateKeepsKeys | sqli_crawler/crawler.py:288-290 | a variant has the same key set in every argument |
| Fingerprint.VariantsShareHash | sqli_crawler/crawler.py:331-354 | every variant has the same key as the request it came from |
| Fingerprint.KeyOrder | sqli_crawler/crawler.py:236 | `set(d)` lists every key of the dictionary exactly once, and nothing else |
| Fingerprint.Segment | sqli_crawler/crawler.py:236 | `None` and an empty dictionary both give the empty segment |
| Fingerprint.SingleSegment | sqli_crawler/crawler.py:236 | a one-key dictionary contributes exactly its key |
| Fingerprint.HashString | sqli_crawler/crawler.py:235-239 | the string is the method, the URL and the three segments, in that order, separated by `\|` |
| Fingerprint.HashStringIgnoresValues | sqli_crawler/crawler.py:235-239 | dictionaries whose keys were inserted in the same order give the same string, whatever their values |
| Fingerprint.HashStringCollides | sqli_crawler/crawler.py:235-239 | a field `k1\|k2` and the fields `k1` plus `k2\|` give the same string key, while the tuple keys differ |
| Routing.HandleRoute | sqli_crawler/crawler.py:117-142 | images are aborted and never forwarded; a request is forwarded exactly when its type is document, xhr, fetch or other and its host is the page's; it is aborted exactly when it is an image or a navigation away from a loaded page |
| Routing.NavigationForwardedAndAborted | sqli_crawler/crawler.py:121-140 | a same-host navigation from a loaded page is both forwarded and aborted |
| CrawlGate.Blocked | sqli_crawler/crawler.py:160 | a blocked host ends in a dot followed by two characters |
| CrawlGate.BlockedIgnoresCase | sqli_crawler/crawler.py:160 | lower-casing the host first does not change the decision |
| CrawlGate.BlockedExamples | sqli_crawler/crawler.py:160 | `.ru`, `.su` and `.by` hosts are blocked in any letter case, only as a suffix |
| CrawlGate.SeedTasks | sqli_crawler/crawler.py:412-413 | there are never more seed tasks than input lines |
| CrawlGate.LoadSeeds | sqli_crawler/crawler.py:412-413 | the seed loop queues exactly `SeedTasks` of the input lines, in order |
| CrawlGate.SeedTasksSpec | sqli_crawler/crawler.py:412-413 | every non-blank input line gives a task with its stripped, normalised URL at the configured depth, and every task comes from one |
| CrawlGate.SeedTasksShape | sqli_crawler/crawler.py:412-413 | every seed URL ends in `/`; an input of blank lines gives no tasks |
| CrawlGate.HostCountAbsent | sqli_crawler/crawler.py:170 | a host never admitted has count zero |
| CrawlGate.AdmitKeepsInvariant | sqli_crawler/crawler.py:177-178 | admitting a URL keeps the seen set and the counter equal to what the admission log says |
| CrawlGate.Crawler.constructor | sqli_crawler/crawler.py:410-413 | the queue starts as the seed tasks; nothing is seen |
| CrawlGate.Crawler.ShouldCrawl | sqli_crawler/crawler.py:158-178 | admitted if and only if the host is not blocked, the depth is non-negative, the URL is unseen and the host is under its budget; admission records the URL and adds one to that host's count only; refusal changes nothing |
| CrawlGate.Crawler.Step | sqli_crawler/crawler.py:152-203 | the head task is removed; when it is admitted at positive depth and the visit succeeds, its links are appended at depth minus one, and otherwise nothing is appended |
| Checking.ReplayHeaders | sqli_crawler/crawler.py:310-347 | the headers lose `cookie`, and `content-type` when there is a body; every other header is kept |
| Checking.FirstHitFrom | sqli_crawler/crawler.py:352-399 | the loop stops at the first variant with a match or a transport failure; every variant before it got a response without a match |
| Checking.FirstHit | sqli_crawler/crawler.py:352-399 | the replay ends clean exactly when every variant got a response without a match |
| Checking.Replay | sqli_crawler/crawler.py:352-399 | the replay loop returns exactly `FirstHit` of the variants |
| Checking.SentWithinLimit | sqli_crawler/crawler.py:352-354 | no more than `req_checks` requests are sent, and the first one sent is the generator's first variant |
| Checking.DropFalsy | sqli_crawler/crawler.py:394 | an entry is kept if and only if its value is truthy |
| Checking.DropFalsyAppend | sqli_crawler/crawler.py:394 | the filter keeps the surviving entries in their original order |
| Checking.ScanRecord | sqli_crawler/crawler.py:382-394 | a record holds only truthy values, at most nine of them |
| Checking.ScanRecordNames | sqli_crawler/crawler.py:382-394 | a record holds only truthy values under the nine field names |
| Checking.ScanRecordContents | sqli_crawler/crawler.py:382-394 | the variant's params, data and json, the match and the status are in the record exactly when truthy |
| Checking.ScanRecordRequest | sqli_crawler/crawler.py:382-394 | the method, the URL, the headers and the cookies are in the record exactly when truthy |
| Checking.RequestHashShape | sqli_crawler/crawler.py:310-337 | the key holds the request's method and URL; form data and JSON never both contribute keys; the three key sets are all empty exactly when there is nothing to check, that is, params, form data and JSON are all empty |
| Checking.Variants | sqli_crawler/crawler.py:352-354 | the replayed variants are a prefix of the generator's output, three arguments each, and are missing exactly for a limit that is negative or above `sys.maxsize` |
| Checking.OutcomeCases | sqli_crawler/crawler.py:310-399 | a request is dropped for an unknown content type, else for nothing to check (params, form data and JSON all empty), else for an already claimed key, each as an if-and-only-if; a claimed one is abandoned exactly for a limit that is negative or above `sys.maxsize`; a hit names a generator variant that got a matching response after only quiet ones |
| Checking.Report | sqli_crawler/crawler.py:382-399 | a request writes at most one record |
| Checking.Checker.constructor | sqli_crawler/crawler.py:72 | `req_checks` is fixed; no key is claimed and nothing has been written |
| Checking.Checker.Claim | sqli_crawler/crawler.py:302-343 | the request is dropped for exactly the reason `Screen` gives for the keys claimed so far, and then they are unchanged; otherwise its key was new and is added |
| Checking.Checker.Check | sqli_crawler/crawler.py:299-407 | the verdict is `Outcome` for the keys claimed so far; a request that is not dropped claims its key, which was new; the output grows by `Report` of the verdict, the record of the matching variant on a hit and nothing otherwise |
| Checking.Checker.Next | sqli_crawler/crawler.py:298-407 | one more request is judged as `Outcome` prescribes; the claimed keys and the output grow by its own |
| Checking.Checker.Drain | sqli_crawler/crawler.py:298-407 | over a queue, request `i` gets `Outcome` for the keys claimed before the queue and by the requests before it; no two claimed requests share a key; every claimed key was new; the claimed set grows by exactly those keys; the output grows by `Records`, the records of the hits in queue order |
| Checking.DrainSeen | sqli_crawler/crawler.py:339-343 | a request counts as already checked exactly when its key was claimed before the queue or by an earlier request that was not dropped |
| Checking.VictimScenario | sqli_crawler/crawler.py:301-399 | `GET http://victim.test/search?q=test` against a server that always shows `Query failed` gives one variant `q=test'"`, a hit on it, and a record with the URL, that parameter, the match and the status |

## Left out

- The browser is not modelled: Playwright pages, popups, dialogs, timeouts and the form submission script are out. Their observable results (a host function, the links a visit yields or a failed visit, and the request's type, host match and navigation flags) are parameters.
- HTTP is not modelled: aiohttp sessions, bodies and timeouts are out. The `probe` oracle stands for the round trip and the `SQLI_REGEX` search.
- Library parsing is not modelled: `urldefrag`, `urlsplit`, `parse_qsl`, `MimeType.parse`, the JSON parser, the multipart parser and `SimpleCookie`. A `CheckRequest` holds their results.
- A body that fails to parse is modelled as `Body.UnknownType`. Examples are invalid JSON (crawler.py:316) and a multipart part that does not decode (crawler.py:258). In the code the parser raises before the key is claimed, and the handler at crawler.py:404-405 ends the request. Nothing is claimed or written, which is the effect the model gives an unknown content type.
- JSON bodies are modelled as objects only. The code treats other JSON values as follows, and the model does not:
  - `null` gives `json = None`, the same as a request without JSON. An empty body is never parsed (crawler.py:310).
  - A non-empty string is joined into the key as it is (crawler.py:236), and the key is claimed (crawler.py:343). The params variants are then replayed; a JSON body has no form data. `inject` raises only when it reaches the string (crawler.py:281). So a hit on an earlier variant is still recorded; otherwise the request ends in the exception handler (crawler.py:404-405). The empty string counts as no JSON.
  - A number, a boolean or an array makes `"|".join` in `hash_request` raise before the key is claimed (crawler.py:331-337), so the request is dropped and nothing changes. The exception is a request with nothing to check, whose JSON is `0`, `false` or `[]`: it is skipped as such (crawler.py:326-328).
- Floats are not modelled: a float parameter value would become `str(v).lower()`. `Value` has integers, booleans, strings, null and an opaque `Other`.
- Injection.Text: `lower()` is modelled for ASCII letters only. Here the code lower-cases only text it builds itself (`True`, `False` and decimal digits), which is ASCII.
- CrawlGate.Blocked: `lower()` is modelled for ASCII letters only, while the host comes from the page and may hold other letters. The suffix test is still exact: no non-ASCII character lower-cases to a text ending in `.`, `r`, `u`, `s`, `b` or `y`.
- Fingerprint.HashString: the order in which `set(d)` lists keys is not modelled. `KeyOrder` picks some listing for each sequence of keys in insertion order. The choice depends on the sequence, not only on the set, so the model does not prove that two orders of the same keys are listed alike. Equal key sequences give equal strings (`HashStringIgnoresValues`). Nothing is promised for the same keys inserted in another order. In CPython the listing follows the hash table and can depend on insertion order where keys collide. So the code may check the same key set twice.
- Checking.Checker.Claim: the model deduplicates on the tuple key (`Fingerprint.HashRequest`), not on the code's string. The string key can differ from the tuple in two ways, so the model does not promise the code's exact skips. First, it can skip a request whose fields differ from an earlier one's, when the strings collide (see Findings). Second, it can re-check a key set that was listed in another order.
- CrawlGate.Crawler.Step: the links come as a sequence in a fixed order. The code iterates over a `set` in an arbitrary order.
- Concurrency is not modelled: the asyncio queues, several crawlers and checkers, and the lock. Each worker is modelled as one sequential loop.
- Output is not modelled: JSON serialisation (`json_dumps`, which crawler.py:31 imports from the package's `utils` module, is not part of this model), writing and flushing the output, logging, the sound played on a hit (`squeal`), command-line parsing and `color_log.py`.
- `get_form_data` and `parse_multipart` convert between formats and are not part of this model.

## Findings

| source | as written | input that shows it | evidently intended | confidence | as-written member | corrected member |
|---|---|---|---|---|---|---|
| sqli_crawler/crawler.py:235-239 | the key joins the three key sets with `,` and the parts with `\|` without escaping | method `POST`, URL `http://h/p`, params `{"a\|b": "1"}` against params `{"a": "1"}` with form data `{"b\|": "2"}`: both give `POST\|http://h/p\|a\|b\|\|` | requests with different parameter names get different keys, so the second is still checked | medium, not executed | Fingerprint.HashStringCollides | Fingerprint.HashRequestInjective |
