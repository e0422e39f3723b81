/**
 * `SQLiCrawler.hash_request` (sqli_crawler/crawler.py:227-239): the key under
 * which an intercepted request is checked at most once. It is built from the
 * method, the URL and the key sets of `params`, `data` and `json`; values never
 * enter it.
 *
 * `HashString` is the key as the source writes it, a "|"-join of
 * ","-joined key sets, and `HashStringCollides` shows that two requests with
 * different field names can share it. `HashRequest` is the key as intended, a
 * tuple, and it is the one the check pipeline uses.
 */
module Fingerprint {
  import opened Wrappers
  import opened Strings
  import opened Injection

  datatype RequestKey = RequestKey(httpMethod: string, url: string, params: set<string>, data: set<string>, json: set<string>)

  /** `set(v)` of a dictionary; `None` contributes no keys. */
  function KeySet(d: Option<Dict>): (r: set<string>)
    ensures forall k :: k in r <==> d.Some? && exists i | 0 <= i < |d.value| :: d.value[i].key == k
  {
    if d.None? then {} else set i | 0 <= i < |d.value| :: d.value[i].key
  }

  function HashRequest(httpMethod: string, url: string, params: Option<Dict>, data: Option<Dict>, json: Option<Dict>): (r: RequestKey)
    ensures r.httpMethod == httpMethod && r.url == url
    ensures r.params == KeySet(params) && r.data == KeySet(data) && r.json == KeySet(json)
  {
    RequestKey(httpMethod, url, KeySet(params), KeySet(data), KeySet(json))
  }

  /**
   * Two requests share a key exactly when they agree on method, URL and the
   * key sets of the three dictionaries, whatever their values.
   */
  lemma HashRequestInjective(
    m1: string, u1: string, p1: Option<Dict>, d1: Option<Dict>, j1: Option<Dict>,
    m2: string, u2: string, p2: Option<Dict>, d2: Option<Dict>, j2: Option<Dict>)
    ensures HashRequest(m1, u1, p1, d1, j1) == HashRequest(m2, u2, p2, d2, j2)
      <==> m1 == m2 && u1 == u2 && KeySet(p1) == KeySet(p2) && KeySet(d1) == KeySet(d2) && KeySet(j1) == KeySet(j2)
  {
  }

  /** `None` and an empty dictionary give the same, empty, segment. */
  lemma NoneIsEmpty()
    ensures KeySet(None) == KeySet(Some([])) == {}
  {
  }

  /** A variant keeps the key sets of its source, so every variant of a request has the request's key. */
  lemma MutateKeepsKeys(args: Args, p: Pos, s: nat)
    requires Eligible(args, p) && s < |args|
    ensures KeySet(Mutate(args, p)[s]) == KeySet(args[s])
  {
    var r := Mutate(args, p);
    if s == p.slot {
      forall k
        ensures k in KeySet(r[s]) <==> k in KeySet(args[s])
      {
        if k in KeySet(r[s]) {
          var i :| 0 <= i < |r[s].value| && r[s].value[i].key == k;
          assert args[s].value[i].key == k;
        }
        if k in KeySet(args[s]) {
          var i :| 0 <= i < |args[s].value| && args[s].value[i].key == k;
          assert r[s].value[i].key == k;
        }
      }
    }
  }

  /** Every variant `inject` yields for a request hashes like the request itself. */
  lemma VariantsShareHash(httpMethod: string, url: string, params: Option<Dict>, data: Option<Dict>, json: Option<Dict>, n: nat)
    requires n < |Inject([params, data, json])|
    ensures var v := Inject([params, data, json])[n];
      |v| == 3 && HashRequest(httpMethod, url, v[0], v[1], v[2]) == HashRequest(httpMethod, url, params, data, json)
  {
    var args: Args := [params, data, json];
    InjectEnumeratesPositions(args);
    var p := Positions(args)[n];
    MutateKeepsKeys(args, p, 0);
    MutateKeepsKeys(args, p, 1);
    MutateKeepsKeys(args, p, 2);
  }

  // ---------------------------------------------------------------------------
  // The key as written: a string.

  /** The keys of a dictionary, in insertion order. */
  function Keys(d: Dict): seq<string> {
    seq(|d|, i requires 0 <= i < |d| => d[i].key)
  }

  /** `r` lists every element of `s` exactly once. */
  ghost predicate Lists(r: seq<string>, s: set<string>) {
    |r| == |s| && forall x :: x in r <==> x in s
  }

  /** Some listing of the elements of `s`. */
  ghost function SetOrder(s: set<string>): (r: seq<string>)
    ensures Lists(r, s)
    decreases |s|
  {
    if s == {} then []
    else
      var x :| x in s;
      [x] + SetOrder(s - {x})
  }

  /**
   * The order in which `set(d)` yields the keys of a dictionary whose keys were
   * inserted in the order `keys`. CPython's order follows its hash table: it
   * depends on the hashes of the keys and, where they collide, on the order of
   * insertion. The model fixes some listing for each key sequence and nothing
   * more: nothing proves that two dictionaries with the same keys in a
   * different order are listed alike.
   */
  ghost function KeyOrder(keys: seq<string>): (r: seq<string>)
    ensures |r| == |set k | k in keys|
    ensures forall x :: x in r <==> x in keys
  {
    var s := set k | k in keys;
    CardBound(keys);
    assert Lists(SetOrder(s), s) && |SetOrder(s)| <= |keys|;
    // The choice mentions `keys` itself, so it is made per key sequence.
    var r :| Lists(r, s) && |r| <= |keys|;
    r
  }

  /** A sequence has no more distinct elements than entries. */
  lemma {:induction false} CardBound(keys: seq<string>)
    ensures |set k | k in keys| <= |keys|
  {
    if keys != [] {
      var rest := keys[1..];
      CardBound(rest);
      assert (set k | k in keys) == (set k | k in rest) + {keys[0]};
    }
  }

  /** `",".join(set(v)) if isinstance(v, dict) else [v, ""][v is None]` for a dictionary argument. */
  ghost function Segment(d: Option<Dict>): (r: string)
    ensures d.None? ==> r == ""
    ensures d == Some([]) ==> r == ""
  {
    if d.None? then "" else Join(",", KeyOrder(Keys(d.value)))
  }

  /** The string key: the five parts joined by `|`. */
  ghost function HashString(httpMethod: string, url: string, params: Option<Dict>, data: Option<Dict>, json: Option<Dict>): (r: string)
    ensures r == httpMethod + "|" + url + "|" + Segment(params) + "|" + Segment(data) + "|" + Segment(json)
  {
    JoinFive(httpMethod, url, Segment(params), Segment(data), Segment(json));
    Join("|", [httpMethod, url, Segment(params), Segment(data), Segment(json)])
  }

  /** Both absent, or both present with the same keys in the same insertion order. */
  predicate SameKeys(a: Option<Dict>, b: Option<Dict>) {
    a.None? == b.None? && (a.Some? ==> Keys(a.value) == Keys(b.value))
  }

  /**
   * The string ignores values: dictionaries whose keys were inserted in the
   * same order give the same string, whatever their values.
   */
  lemma HashStringIgnoresValues(
    httpMethod: string, url: string, p1: Option<Dict>, d1: Option<Dict>, j1: Option<Dict>,
    p2: Option<Dict>, d2: Option<Dict>, j2: Option<Dict>)
    requires SameKeys(p1, p2) && SameKeys(d1, d2) && SameKeys(j1, j2)
    ensures HashString(httpMethod, url, p1, d1, j1) == HashString(httpMethod, url, p2, d2, j2)
  {
    assert Segment(p1) == Segment(p2);
    assert Segment(d1) == Segment(d2);
    assert Segment(j1) == Segment(j2);
  }

  lemma SingleKey(k: string, v: Value)
    ensures KeySet(Some([Entry(k, v)])) == {k}
  {
    assert [Entry(k, v)][0].key == k;
  }

  lemma SingletonOrder(k: string)
    ensures KeyOrder([k]) == [k]
  {
    var r := KeyOrder([k]);
    assert (set x | x in [k]) == {k};
    assert k in r;
  }

  /** A one-field dictionary contributes exactly its key. */
  lemma SingleSegment(k: string, v: Value)
    ensures Segment(Some([Entry(k, v)])) == k
  {
    assert Keys([Entry(k, v)]) == [k];
    SingletonOrder(k);
  }

  /**
   * The separators are not escaped: a query field named `k1|k2` collides with
   * a query field `k1` plus a form field `k2|` on the same method and URL (for
   * instance `a|b` against `a` and `b|`, both giving `POST|http://h/p|a|b||`),
   * so the second request is taken as already checked although its fields
   * differ. The tuple key tells them apart.
   */
  lemma {:induction false} HashStringCollides(httpMethod: string, url: string, k1: string, k2: string, v1: Value, v2: Value)
    ensures HashString(httpMethod, url, Some([Entry(k1 + "|" + k2, v1)]), None, None)
         == HashString(httpMethod, url, Some([Entry(k1, v1)]), Some([Entry(k2 + "|", v2)]), None)
    ensures HashRequest(httpMethod, url, Some([Entry(k1 + "|" + k2, v1)]), None, None)
         != HashRequest(httpMethod, url, Some([Entry(k1, v1)]), Some([Entry(k2 + "|", v2)]), None)
  {
    SingleSegment(k1 + "|" + k2, v1);
    SingleSegment(k1, v1);
    SingleSegment(k2 + "|", v2);
    SingleKey(k1 + "|" + k2, v1);
    SingleKey(k1, v1);
    assert |k1 + "|" + k2| != |k1|;
  }

  lemma JoinFive(a: string, b: string, c: string, d: string, e: string)
    ensures Join("|", [a, b, c, d, e]) == a + "|" + b + "|" + c + "|" + d + "|" + e
  {
    assert Join("|", [d, e]) == d + "|" + e by {
      assert [d, e][1..] == [e];
    }
    assert Join("|", [c, d, e]) == c + "|" + d + "|" + e by {
      assert [c, d, e][1..] == [d, e];
    }
    assert Join("|", [b, c, d, e]) == b + "|" + c + "|" + d + "|" + e by {
      assert [b, c, d, e][1..] == [c, d, e];
    }
    assert [a, b, c, d, e][1..] == [b, c, d, e];
  }
}
