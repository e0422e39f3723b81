/**
 * The check worker of the scanner (`check_sqli`, sqli_crawler/crawler.py:292-407)
 * over requests that arrive already parsed: skip what cannot or need not be
 * checked, claim the request's key, replay at most `req_checks` variants in
 * generator order and report the first one whose response shows a database
 * error signature.
 *
 * The HTTP round trip and the signature search are one oracle, `probe`, that
 * maps a variant to a status and the matched text, or to a transport failure.
 */
module Checking {
  import opened Wrappers
  import opened Injection
  import opened Fingerprint

  /** A request body, parsed according to its content type. */
  datatype Body =
    | NoBody                         // no post data, or an empty one
    | FormUrlEncoded(fields: Dict)   // application/x-www-form-urlencoded: string values
    | Json(obj: Dict)             // application/json, an object
    | Multipart(parts: Dict)         // multipart/form-data: file parts are `Other`
    | UnknownType(mime: string)      // any other content type, or a body that fails to parse

  /**
   * An intercepted request after parsing: the method upper-cased, the URL
   * without fragment and query, the query as `params`, the cookie header as
   * `cookies` (empty when there is none).
   */
  datatype CheckRequest = CheckRequest(
    httpMethod: string,
    url: string,
    params: Dict,
    headers: map<string, string>,
    cookies: Dict,
    body: Body)

  /** `data`: the form or multipart fields, `None` otherwise. */
  function FormData(b: Body): Option<Dict> {
    match b
    case FormUrlEncoded(f) => Some(f)
    case Multipart(p) => Some(p)
    case _ => None
  }

  /** `json`: the parsed object, `None` otherwise. */
  function JsonData(b: Body): Option<Dict> {
    match b
    case Json(o) => Some(o)
    case _ => None
  }

  function InjectArgs(req: CheckRequest): Args {
    [Some(req.params), FormData(req.body), JsonData(req.body)]
  }

  /** `not d` for a dictionary or `None`. */
  predicate IsEmpty(d: Option<Dict>) {
    d.None? || d.value == []
  }

  predicate NothingToCheck(req: CheckRequest) {
    req.params == [] && IsEmpty(FormData(req.body)) && IsEmpty(JsonData(req.body))
  }

  function RequestHash(req: CheckRequest): RequestKey {
    HashRequest(req.httpMethod, req.url, Some(req.params), FormData(req.body), JsonData(req.body))
  }

  /**
   * A body is form data or JSON, never both, so one of the two body key sets
   * is empty; and the key is empty in all three dictionaries exactly when
   * there is nothing to check (params, form data and JSON all empty).
   */
  lemma RequestHashShape(req: CheckRequest)
    ensures var r := RequestHash(req);
      && r.httpMethod == req.httpMethod && r.url == req.url
      && (r.data == {} || r.json == {})
      && (NothingToCheck(req) <==> r.params == {} && r.data == {} && r.json == {})
  {
    assert req.params != [] ==> req.params[0].key in KeySet(Some(req.params));
    assert FormData(req.body).Some? && FormData(req.body).value != [] ==>
      FormData(req.body).value[0].key in KeySet(FormData(req.body));
    assert JsonData(req.body).Some? && JsonData(req.body).value != [] ==>
      JsonData(req.body).value[0].key in KeySet(JsonData(req.body));
  }

  /**
   * The header dictionary after the worker has popped `content-type` (only
   * when there is a body) and `cookie` out of it in place.
   */
  function ReplayHeaders(req: CheckRequest): (h: map<string, string>)
    ensures "cookie" !in h
    ensures !req.body.NoBody? ==> "content-type" !in h
    ensures forall k | k in req.headers && k != "cookie" && (req.body.NoBody? || k != "content-type") ::
      k in h && h[k] == req.headers[k]
    ensures h.Keys <= req.headers.Keys
  {
    (if req.body.NoBody? then req.headers else req.headers - {"content-type"}) - {"cookie"}
  }

  // ---------------------------------------------------------------------------
  // Replaying the variants.

  /** What replaying one variant gives: a status and the matched signature, or a transport failure. */
  datatype Reply = Response(status: int, found: Option<string>) | TransportError

  /**
   * How the replay loop ends: every variant replayed without a match, a match
   * on `variant`, the one at `index`, or an exception on variant `index` that
   * abandons the request.
   */
  datatype Scan = Clean | Hit(index: nat, variant: Args, status: int, found: string) | Broken(index: nat)

  predicate Quiet(r: Reply) {
    r.Response? && r.found.None?
  }

  /** The number of variants before the one the loop stopped at. */
  function Reached(s: Scan, n: nat): nat {
    match s
    case Clean => n
    case Hit(i, _, _, _) => i
    case Broken(i) => i
  }

  /** The number of requests sent. */
  function Sent(s: Scan, n: nat): nat {
    match s
    case Clean => n
    case Hit(i, _, _, _) => i + 1
    case Broken(i) => i + 1
  }

  /**
   * The outcome of replaying `variants[i..]` in order, stopping at the first
   * match or failure: everything before the stopping point was a response
   * without a signature.
   */
  function FirstHitFrom(variants: seq<Args>, probe: Args -> Reply, i: nat): (s: Scan)
    requires i <= |variants|
    ensures s.Hit? ==>
      && i <= s.index < |variants| && s.variant == variants[s.index]
      && probe(variants[s.index]) == Response(s.status, Some(s.found))
    ensures s.Broken? ==> i <= s.index < |variants| && probe(variants[s.index]).TransportError?
    ensures forall j | i <= j < Reached(s, |variants|) :: Quiet(probe(variants[j]))
    ensures Reached(s, |variants|) <= Sent(s, |variants|) <= |variants|
    decreases |variants| - i
  {
    if i == |variants| then Clean
    else
      match probe(variants[i])
      case TransportError => Broken(i)
      case Response(status, Some(m)) => Hit(i, variants[i], status, m)
      case Response(_, None) => FirstHitFrom(variants, probe, i + 1)
  }

  /** The outcome of the replay loop: clean exactly when every variant was answered without a signature. */
  function FirstHit(variants: seq<Args>, probe: Args -> Reply): (s: Scan)
    ensures s == Clean <==> forall j | 0 <= j < |variants| :: Quiet(probe(variants[j]))
  {
    FirstHitFrom(variants, probe, 0)
  }

  /** The replay loop: `for ... in islice(...)`, `continue` on no match, `break` after reporting. */
  method Replay(variants: seq<Args>, probe: Args -> Reply) returns (s: Scan)
    ensures s == FirstHit(variants, probe)
  {
    var i := 0;
    while i < |variants|
      invariant 0 <= i <= |variants|
      invariant FirstHitFrom(variants, probe, i) == FirstHit(variants, probe)
    {
      var reply := probe(variants[i]);
      if reply.TransportError? {
        return Broken(i);
      }
      if reply.found.Some? {
        return Hit(i, variants[i], reply.status, reply.found.value);
      }
      i := i + 1;
    }
    return Clean;
  }

  /**
   * The loop never sends more than the truncated list holds, so never more
   * than `req_checks`; a limit above `sys.maxsize` sends nothing at all.
   */
  lemma SentWithinLimit(variants: seq<Args>, limit: nat, probe: Args -> Reply)
    ensures match Islice(variants, Some(limit))
      case None => limit > MAXSIZE
      case Some(sent) =>
        && Sent(FirstHit(sent, probe), |sent|) <= limit
        && (limit >= 1 && variants != [] ==> sent[0] == variants[0])
  {
  }

  // ---------------------------------------------------------------------------
  // The record written for a match.

  /** A value in the output record. */
  datatype Cell = Nothing | Text(s: string) | Number(n: int) | Object(fields: Dict) | HeaderMap(h: map<string, string>)

  type Record = seq<(string, Cell)>

  /** Python truthiness of the record's values. */
  predicate Truthy(c: Cell) {
    match c
    case Nothing => false
    case Text(s) => s != ""
    case Number(n) => n != 0
    case Object(f) => f != []
    case HeaderMap(h) => h != map[]
  }

  /** `{k: v for k, v in res.items() if v}`. */
  function DropFalsy(entries: Record): (r: Record)
    ensures forall e :: e in r <==> e in entries && Truthy(e.1)
    ensures |r| <= |entries|
  {
    if entries == [] then []
    else (if Truthy(entries[0].1) then [entries[0]] else []) + DropFalsy(entries[1..])
  }

  /** The filter keeps the surviving entries in their original order. */
  lemma {:induction false} DropFalsyAppend(xs: Record, ys: Record)
    ensures DropFalsy(xs + ys) == DropFalsy(xs) + DropFalsy(ys)
  {
    if xs == [] {
      assert xs + ys == ys;
    } else {
      assert (xs + ys)[0] == xs[0];
      assert (xs + ys)[1..] == xs[1..] + ys;
      DropFalsyAppend(xs[1..], ys);
    }
  }

  function ObjectCell(d: Option<Dict>): Cell {
    if d.None? then Nothing else Object(d.value)
  }

  /**
   * The record for a match on `variant`, its fields in the source's order,
   * with every falsy one left out.
   */
  function ScanRecord(httpMethod: string, url: string, variant: Args, headers: map<string, string>,
                      cookies: Dict, found: string, status: int): (r: Record)
    requires |variant| == 3
    ensures forall e | e in r :: Truthy(e.1)
    ensures |r| <= 9
  {
    DropFalsy(RecordFields(httpMethod, url, variant, headers, cookies, found, status))
  }

  /** The entries a record is built from, before the falsy ones are dropped. */
  function RecordFields(httpMethod: string, url: string, variant: Args, headers: map<string, string>,
                        cookies: Dict, found: string, status: int): Record
    requires |variant| == 3
  {
    [
      ("method", Text(httpMethod)),
      ("url", Text(url)),
      ("params", ObjectCell(variant[0])),
      ("headers", HeaderMap(headers)),
      ("cookies", Object(cookies)),
      ("data", ObjectCell(variant[1])),
      ("json", ObjectCell(variant[2])),
      ("match", Text(found)),
      ("status", Number(status))
    ]
  }

  /** A record holds only truthy values, under the nine field names. */
  lemma ScanRecordNames(httpMethod: string, url: string, variant: Args, headers: map<string, string>,
                        cookies: Dict, found: string, status: int)
    requires |variant| == 3
    ensures var r := ScanRecord(httpMethod, url, variant, headers, cookies, found, status);
      forall e | e in r :: Truthy(e.1) && e.0 in {"method", "url", "params", "headers", "cookies", "data", "json", "match", "status"}
  {
    var fields := RecordFields(httpMethod, url, variant, headers, cookies, found, status);
    forall e | e in fields
      ensures e.0 in {"method", "url", "params", "headers", "cookies", "data", "json", "match", "status"}
    {
      var i :| 0 <= i < |fields| && fields[i] == e;
    }
  }

  /** A record holds the variant's three dictionaries, the match and the status exactly when they are truthy. */
  lemma ScanRecordContents(httpMethod: string, url: string, variant: Args, headers: map<string, string>,
                           cookies: Dict, found: string, status: int)
    requires |variant| == 3
    ensures var r := ScanRecord(httpMethod, url, variant, headers, cookies, found, status);
      && (("match", Text(found)) in r <==> found != "")
      && (("status", Number(status)) in r <==> status != 0)
      && (("params", ObjectCell(variant[0])) in r <==> !IsEmpty(variant[0]))
      && (("data", ObjectCell(variant[1])) in r <==> !IsEmpty(variant[1]))
      && (("json", ObjectCell(variant[2])) in r <==> !IsEmpty(variant[2]))
  {
    var fields := RecordFields(httpMethod, url, variant, headers, cookies, found, status);
    assert fields[7] == ("match", Text(found)) && fields[8] == ("status", Number(status));
    assert fields[2] == ("params", ObjectCell(variant[0])) && fields[5] == ("data", ObjectCell(variant[1]));
    assert fields[6] == ("json", ObjectCell(variant[2]));
  }

  /** A record holds the request's method, URL, headers and cookies exactly when they are truthy. */
  lemma ScanRecordRequest(httpMethod: string, url: string, variant: Args, headers: map<string, string>,
                          cookies: Dict, found: string, status: int)
    requires |variant| == 3
    ensures var r := ScanRecord(httpMethod, url, variant, headers, cookies, found, status);
      && (("method", Text(httpMethod)) in r <==> httpMethod != "")
      && (("url", Text(url)) in r <==> url != "")
      && (("headers", HeaderMap(headers)) in r <==> headers != map[])
      && (("cookies", Object(cookies)) in r <==> cookies != [])
  {
    var fields := RecordFields(httpMethod, url, variant, headers, cookies, found, status);
    assert fields[0] == ("method", Text(httpMethod)) && fields[1] == ("url", Text(url));
    assert fields[3] == ("headers", HeaderMap(headers)) && fields[4] == ("cookies", Object(cookies));
  }

  // ---------------------------------------------------------------------------
  // The worker.

  datatype Skip = UnknownContentType | NoParameters | AlreadyChecked

  /**
   * What became of one queued request: dropped before any replay; claimed and
   * then abandoned because `islice` rejects a `req_checks` that is negative or
   * above `sys.maxsize`; or claimed
   * and replayed with the given outcome.
   */
  datatype Verdict = Skipped(reason: Skip) | InvalidLimit | Checked(scan: Scan)

  /**
   * The variants replayed for `req`; `None` when `islice` raises on a
   * `req_checks` that is negative or above `sys.maxsize`.
   */
  function Variants(req: CheckRequest, reqChecks: Option<int>): (r: Option<seq<Args>>)
    ensures r.None? <==> reqChecks.Some? && (reqChecks.value < 0 || reqChecks.value > MAXSIZE)
    ensures r.Some? ==> r.value <= Inject(InjectArgs(req))
    ensures r.Some? ==> forall v | v in r.value :: |v| == 3
  {
    Islice(Inject(InjectArgs(req)), reqChecks)
  }

  /** Why `req` is dropped before any replay when the keys in `seen` are claimed, if it is. */
  function Screen(req: CheckRequest, seen: set<RequestKey>): Option<Skip> {
    if req.body.UnknownType? then Some(UnknownContentType)
    else if NothingToCheck(req) then Some(NoParameters)
    else if RequestHash(req) in seen then Some(AlreadyChecked)
    else None
  }

  /**
   * What the worker decides for `req` when the keys in `seen` are already
   * claimed and `reply` answers its variants.
   */
  function Outcome(req: CheckRequest, reqChecks: Option<int>, reply: Args -> Reply, seen: set<RequestKey>): Verdict {
    match Screen(req, seen)
    case Some(reason) => Skipped(reason)
    case None =>
      match Variants(req, reqChecks)
      case None => InvalidLimit
      case Some(vs) => Checked(FirstHit(vs, reply))
  }

  /**
   * A request is dropped for an unknown content type, then for having nothing
   * to check (params, form data and JSON all empty), then for an already
   * claimed key; a claimed one is abandoned exactly when the limit is negative
   * or above `sys.maxsize`, and otherwise replayed; a replay reports at most
   * one variant, the first whose answer carries a signature.
   */
  lemma OutcomeCases(req: CheckRequest, reqChecks: Option<int>, reply: Args -> Reply, seen: set<RequestKey>)
    ensures var v := Outcome(req, reqChecks, reply, seen);
      && (v == Skipped(UnknownContentType) <==> req.body.UnknownType?)
      && (v == Skipped(NoParameters) <==> !req.body.UnknownType? && NothingToCheck(req))
      && (v == Skipped(AlreadyChecked) <==> !req.body.UnknownType? && !NothingToCheck(req) && RequestHash(req) in seen)
      && (v == InvalidLimit <==> !v.Skipped? && reqChecks.Some? && (reqChecks.value < 0 || reqChecks.value > MAXSIZE))
      && (v.Checked? && v.scan.Hit? ==>
            var vs := Variants(req, reqChecks).value;
            && v.scan.index < |vs| && v.scan.variant == vs[v.scan.index] == Inject(InjectArgs(req))[v.scan.index]
            && |v.scan.variant| == 3
            && reply(v.scan.variant) == Response(v.scan.status, Some(v.scan.found))
            && forall j | 0 <= j < v.scan.index :: Quiet(reply(vs[j])))
  {
  }

  /** The records the worker writes for `req` given its verdict `v`: one for a match, none otherwise. */
  function Report(req: CheckRequest, v: Verdict): (r: seq<Record>)
    ensures |r| <= 1
  {
    if v.Checked? && v.scan.Hit? && |v.scan.variant| == 3 then
      [ScanRecord(req.httpMethod, req.url, v.scan.variant, ReplayHeaders(req), req.cookies, v.scan.found, v.scan.status)]
    else []
  }

  /** Everything written for a queue of requests and their verdicts, in queue order. */
  function Records(items: seq<CheckRequest>, verdicts: seq<Verdict>): seq<Record>
    requires |items| == |verdicts|
  {
    if items == [] then []
    else
      var n := |items| - 1;
      Records(items[..n], verdicts[..n]) + Report(items[n], verdicts[n])
  }

  class Checker {
    /** `req_checks`: `None` replays every variant. */
    const reqChecks: Option<int>
    /** `seen_requests`: the keys of every request claimed so far. */
    var seenRequests: set<RequestKey>
    /** The records written so far. */
    var output: seq<Record>

    constructor (reqChecks: Option<int>)
      ensures this.reqChecks == reqChecks && seenRequests == {} && output == []
    {
      this.reqChecks := reqChecks;
      seenRequests := {};
      output := [];
    }

    /**
     * The first half of the worker's iteration: parse the body by content
     * type, drop requests with nothing to check (params, form data and JSON
     * all empty) or whose key was already claimed, and otherwise claim the key.
     */
    method Claim(req: CheckRequest) returns (skip: Option<Skip>)
      modifies this`seenRequests
      ensures skip == Screen(req, old(seenRequests))
      ensures skip.Some? ==> seenRequests == old(seenRequests)
      ensures skip.None? ==> RequestHash(req) !in old(seenRequests) && seenRequests == old(seenRequests) + {RequestHash(req)}
    {
      var data: Option<Dict> := None;
      var json: Option<Dict> := None;
      if !req.body.NoBody? {
        match req.body {
          case FormUrlEncoded(fields) => data := Some(fields);
          case Json(obj) => json := Some(obj);
          case Multipart(parts) => data := Some(parts);
          case UnknownType(_) => return Some(UnknownContentType);
        }
      }
      assert data == FormData(req.body) && json == JsonData(req.body);
      var params := Some(req.params);
      if IsEmpty(params) && IsEmpty(data) && IsEmpty(json) {
        return Some(NoParameters);
      }
      var key := HashRequest(req.httpMethod, req.url, params, data, json);
      assert key == RequestHash(req);
      if key in seenRequests {
        return Some(AlreadyChecked);
      }
      seenRequests := seenRequests + {key};
      return None;
    }

    /**
     * One iteration of the check worker for `req`: it reaches the verdict
     * `Outcome` prescribes for the keys claimed so far, claims the key of a
     * request it does not drop, and writes the record of a match.
     */
    method Check(req: CheckRequest, probe: Args -> Reply) returns (v: Verdict)
      modifies this
      ensures v == Outcome(req, reqChecks, probe, old(seenRequests))
      ensures v.Skipped? ==> seenRequests == old(seenRequests)
      ensures !v.Skipped? ==> RequestHash(req) !in old(seenRequests) && seenRequests == old(seenRequests) + {RequestHash(req)}
      ensures output == old(output) + Report(req, v)
    {
      var skip := Claim(req);
      if skip.Some? {
        return Skipped(skip.value);
      }
      var variants := Variants(req, reqChecks);
      if variants.None? {
        return InvalidLimit;
      }
      var scan := Replay(variants.value, probe);
      if scan.Hit? {
        assert scan.variant in variants.value;
        var record := ScanRecord(req.httpMethod, req.url, scan.variant, ReplayHeaders(req), req.cookies, scan.found, scan.status);
        output := output + [record];
      }
      return Checked(scan);
    }

    /**
     * The worker draining a queue, one request after another: each request
     * gets the verdict `Outcome` prescribes for the keys claimed before it, no
     * two claimed requests share a key, every claimed key was new, and the
     * output grows by the records of the matches, in queue order.
     */
    method Drain(items: seq<CheckRequest>, probe: CheckRequest -> Args -> Reply) returns (verdicts: seq<Verdict>)
      modifies this
      ensures |verdicts| == |items|
      ensures forall i | 0 <= i < |items| ::
        verdicts[i] == Outcome(items[i], reqChecks, probe(items[i]), old(seenRequests) + Claimed(items[..i], verdicts[..i]))
      ensures forall i | 0 <= i < |items| :: verdicts[i].Skipped? || RequestHash(items[i]) !in old(seenRequests)
      ensures forall i, j | 0 <= i < j < |items| && !verdicts[i].Skipped? && !verdicts[j].Skipped? ::
        RequestHash(items[i]) != RequestHash(items[j])
      ensures seenRequests == old(seenRequests) + Claimed(items, verdicts)
      ensures output == old(output) + Records(items, verdicts)
    {
      verdicts := [];
      var k := 0;
      while k < |items|
        invariant 0 <= k <= |items| && |verdicts| == k
        invariant Drained(items, verdicts, reqChecks, probe, old(seenRequests))
        invariant seenRequests == old(seenRequests) + Claimed(items[..k], verdicts)
        invariant output == old(output) + Records(items[..k], verdicts)
      {
        var v := Next(items, verdicts, probe, old(seenRequests), old(output));
        verdicts := verdicts + [v];
        k := k + 1;
      }
      assert items[..k] == items;
    }

    /** One pass of `Drain`'s loop: check the next request of the queue. */
    method Next(items: seq<CheckRequest>, verdicts: seq<Verdict>, probe: CheckRequest -> Args -> Reply,
                ghost initial: set<RequestKey>, ghost written: seq<Record>) returns (v: Verdict)
      requires |verdicts| < |items|
      requires Drained(items, verdicts, reqChecks, probe, initial)
      requires seenRequests == initial + Claimed(items[..|verdicts|], verdicts)
      requires output == written + Records(items[..|verdicts|], verdicts)
      modifies this
      ensures Drained(items, verdicts + [v], reqChecks, probe, initial)
      ensures seenRequests == initial + Claimed(items[..|verdicts| + 1], verdicts + [v])
      ensures output == written + Records(items[..|verdicts| + 1], verdicts + [v])
    {
      ghost var seen, before := seenRequests, output;
      v := Check(items[|verdicts|], probe(items[|verdicts|]));
      NextDrained(items, verdicts, v, |verdicts|, initial, seen, reqChecks, probe);
      NextClaimed(items, verdicts, v, |verdicts|, initial, seen, seenRequests);
      NextRecords(items, verdicts, v, |verdicts|, written, before, output);
    }
  }

  /**
   * The first `|verdicts|` requests of the queue have been judged in order,
   * starting from the claimed keys `initial`: each got the verdict `Outcome`
   * prescribes for the keys claimed before it, every key claimed was new, and
   * no two claimed requests share a key.
   */
  ghost predicate Drained(items: seq<CheckRequest>, verdicts: seq<Verdict>, reqChecks: Option<int>,
                          probe: CheckRequest -> Args -> Reply, initial: set<RequestKey>)
    requires |verdicts| <= |items|
  {
    && (forall i | 0 <= i < |verdicts| ::
          verdicts[i] == Outcome(items[i], reqChecks, probe(items[i]), initial + Claimed(items[..i], verdicts[..i])))
    && (forall i | 0 <= i < |verdicts| :: verdicts[i].Skipped? || RequestHash(items[i]) !in initial)
    && (forall i, j | 0 <= i < j < |verdicts| && !verdicts[i].Skipped? && !verdicts[j].Skipped? ::
          RequestHash(items[i]) != RequestHash(items[j]))
  }

  /** The loop step of `Drain`: one more request judged as `Outcome` prescribes keeps the queue drained. */
  lemma NextDrained(items: seq<CheckRequest>, verdicts: seq<Verdict>, v: Verdict, k: nat,
                    initial: set<RequestKey>, seen: set<RequestKey>,
                    reqChecks: Option<int>, probe: CheckRequest -> Args -> Reply)
    requires k < |items| && |verdicts| == k
    requires Drained(items, verdicts, reqChecks, probe, initial)
    requires seen == initial + Claimed(items[..k], verdicts)
    requires v == Outcome(items[k], reqChecks, probe(items[k]), seen)
    requires !v.Skipped? ==> RequestHash(items[k]) !in seen
    ensures Drained(items, verdicts + [v], reqChecks, probe, initial)
  {
    var next := verdicts + [v];
    assert forall i | 0 <= i <= k :: next[..i] == verdicts[..i];
    assert forall i | 0 <= i < k + 1 ::
      next[i] == Outcome(items[i], reqChecks, probe(items[i]), initial + Claimed(items[..i], next[..i]));
    ClaimedMembers(items[..k], verdicts);
    forall i, j | 0 <= i < j < k + 1 && !next[i].Skipped? && !next[j].Skipped?
      ensures RequestHash(items[i]) != RequestHash(items[j])
    {
      if j == k {
        assert items[..k][i] == items[i];
        assert RequestHash(items[i]) in seen;
      } else {
        assert next[i] == verdicts[i] && next[j] == verdicts[j];
      }
    }
  }

  /** One more verdict claims the request's key unless it was a skip. */
  lemma NextClaimed(items: seq<CheckRequest>, verdicts: seq<Verdict>, v: Verdict, k: nat,
                    initial: set<RequestKey>, before: set<RequestKey>, after: set<RequestKey>)
    requires k < |items| && |verdicts| == k
    requires before == initial + Claimed(items[..k], verdicts)
    requires v.Skipped? ==> after == before
    requires !v.Skipped? ==> after == before + {RequestHash(items[k])}
    ensures after == initial + Claimed(items[..k + 1], verdicts + [v])
  {
    var items', verdicts' := items[..k + 1], verdicts + [v];
    assert items'[..k] == items[..k] && verdicts'[..k] == verdicts;
    assert items'[k] == items[k] && verdicts'[k] == v;
  }

  /** One more verdict appends its report to what the earlier ones wrote. */
  lemma NextRecords(items: seq<CheckRequest>, verdicts: seq<Verdict>, v: Verdict, k: nat,
                    written: seq<Record>, before: seq<Record>, after: seq<Record>)
    requires k < |items| && |verdicts| == k
    requires before == written + Records(items[..k], verdicts)
    requires after == before + Report(items[k], v)
    ensures after == written + Records(items[..k + 1], verdicts + [v])
  {
    var items', verdicts' := items[..k + 1], verdicts + [v];
    assert items'[..k] == items[..k] && verdicts'[..k] == verdicts;
    assert items'[k] == items[k] && verdicts'[k] == v;
    assert Records(items', verdicts') == Records(items[..k], verdicts) + Report(items[k], v);
  }

  /**
   * In a drained queue, request `i` is dropped as already checked exactly
   * when its key was claimed before the queue, or by an earlier request of it.
   */
  lemma DrainSeen(items: seq<CheckRequest>, verdicts: seq<Verdict>, initial: set<RequestKey>, i: nat)
    requires |items| == |verdicts| && i < |items|
    ensures RequestHash(items[i]) in initial + Claimed(items[..i], verdicts[..i]) <==>
      || RequestHash(items[i]) in initial
      || exists j | 0 <= j < i :: !verdicts[j].Skipped? && RequestHash(items[j]) == RequestHash(items[i])
  {
    ClaimedMembers(items[..i], verdicts[..i]);
    var key := RequestHash(items[i]);
    if key in Claimed(items[..i], verdicts[..i]) {
      var j :| 0 <= j < i && !verdicts[..i][j].Skipped? && RequestHash(items[..i][j]) == key;
      assert !verdicts[j].Skipped? && RequestHash(items[j]) == key;
    }
    if exists j | 0 <= j < i :: !verdicts[j].Skipped? && RequestHash(items[j]) == key {
      var j :| 0 <= j < i && !verdicts[j].Skipped? && RequestHash(items[j]) == key;
      assert !verdicts[..i][j].Skipped? && RequestHash(items[..i][j]) == key;
    }
  }

  /** The keys of the requests in `items` that were claimed rather than skipped. */
  function Claimed(items: seq<CheckRequest>, verdicts: seq<Verdict>): set<RequestKey>
    requires |items| == |verdicts|
  {
    if items == [] then {}
    else
      Claimed(items[..|items| - 1], verdicts[..|items| - 1])
      + (if verdicts[|items| - 1].Skipped? then {} else {RequestHash(items[|items| - 1])})
  }

  lemma {:induction false} ClaimedMembers(items: seq<CheckRequest>, verdicts: seq<Verdict>)
    requires |items| == |verdicts|
    ensures forall key :: key in Claimed(items, verdicts) <==>
      exists i | 0 <= i < |items| :: !verdicts[i].Skipped? && RequestHash(items[i]) == key
    decreases |items|
  {
    if items != [] {
      var n := |items| - 1;
      ClaimedMembers(items[..n], verdicts[..n]);
      forall key | key in Claimed(items, verdicts)
        ensures exists i | 0 <= i < |items| :: !verdicts[i].Skipped? && RequestHash(items[i]) == key
      {
        if key !in Claimed(items[..n], verdicts[..n]) {
          assert !verdicts[n].Skipped? && RequestHash(items[n]) == key;
        } else {
          var i :| 0 <= i < n && !verdicts[..n][i].Skipped? && RequestHash(items[..n][i]) == key;
          assert !verdicts[i].Skipped? && RequestHash(items[i]) == key;
        }
      }
      forall key | exists i | 0 <= i < |items| :: !verdicts[i].Skipped? && RequestHash(items[i]) == key
        ensures key in Claimed(items, verdicts)
      {
        var i :| 0 <= i < |items| && !verdicts[i].Skipped? && RequestHash(items[i]) == key;
        if i < n {
          assert !verdicts[..n][i].Skipped? && RequestHash(items[..n][i]) == key;
        }
      }
    }
  }

  /**
   * For example, `GET http://victim.test/search?q=test`
   * against a server whose every answer shows "Query failed" gives one variant,
   * a match on it, and a record with the probed parameter and the matched text.
   */
  lemma {:induction false} VictimScenario()
    ensures var req := CheckRequest("GET", "http://victim.test/search", [Entry("q", Str("test"))], map[], [], NoBody);
      var probe := (v: Args) => Response(200, Some("Query failed"));
      var vs := Inject(InjectArgs(req));
      && vs == [[Some([Entry("q", Str("test'\""))]), None, None]]
      && FirstHit(vs, probe) == Hit(0, vs[0], 200, "Query failed")
      && var record := ScanRecord(req.httpMethod, req.url, vs[0], ReplayHeaders(req), req.cookies, "Query failed", 200);
         && ("params", Object([Entry("q", Str("test'\""))])) in record
         && ("match", Text("Query failed")) in record
         && ("status", Number(200)) in record
         && ("url", Text("http://victim.test/search")) in record
         && ("data", Nothing) !in record
  {
    var args := [Some([Entry("q", Str("test"))]), None, None];
    InjectOfOneParam(args);
    ScanRecordContents("GET", "http://victim.test/search", [Some([Entry("q", Str("test'\""))]), None, None],
                       map[], [], "Query failed", 200);
    ScanRecordRequest("GET", "http://victim.test/search", [Some([Entry("q", Str("test'\""))]), None, None],
                      map[], [], "Query failed", 200);
  }

  lemma {:induction false} InjectOfOneParam(args: Args)
    requires args == [Some([Entry("q", Str("test"))]), None, None]
    ensures Inject(args) == [[Some([Entry("q", Str("test'\""))]), None, None]]
  {
    assert "test" + QUOTES == "test'\"";
    var first := Mutate(args, Pos(0, 0));
    assert first[0].value[0] == Entry("q", Str("test'\""));
    assert first[0].value == [Entry("q", Str("test'\""))];
    assert first == [Some([Entry("q", Str("test'\""))]), None, None];
    assert EntryVariants(args, 0, 1) == [];
    assert EntryVariants(args, 0, 0) == [first];
    assert SlotVariants(args, 1) == [] by {
      assert SlotVariants(args, 3) == [];
      assert SlotVariants(args, 2) == [];
    }
  }
}
