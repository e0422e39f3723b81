/**
 * The crawl side of the scanner (sqli_crawler/crawler.py:144-218, 409-413):
 * seeds become crawl tasks; each task dequeued passes an admission gate over
 * the shared `seen_urls` set and `seen_hosts` counter; an admitted task at
 * positive depth enqueues the page's same-host links one level deeper.
 */
module CrawlGate {
  import opened Wrappers
  import opened Strings
  import opened Urls

  /** An entry of the crawl queue: `(url, depth)`. */
  datatype CrawlTask = CrawlTask(url: string, depth: int)

  /** One successful pass through the gate. */
  datatype Admission = Admission(url: string, host: string)

  /**
   * `host.lower().endswith((".ru", ".su", ".by"))`: hosts under these
   * top-level domains are never crawled, whatever their case.
   */
  predicate Blocked(host: string)
    ensures Blocked(host) ==> |host| >= 3 && host[|host| - 3] == '.'
  {
    var lower := LowerAscii(host);
    assert |host| >= 3 ==> lower[|host| - 3] == LowerChar(host[|host| - 3]);
    assert EndsWith(lower, ".ru") || EndsWith(lower, ".su") || EndsWith(lower, ".by") ==> lower[|lower| - 3..][0] == '.';
    EndsWith(lower, ".ru") || EndsWith(lower, ".su") || EndsWith(lower, ".by")
  }

  /** The block list cannot tell a host from its lower-case form. */
  lemma BlockedIgnoresCase(host: string)
    ensures Blocked(LowerAscii(host)) <==> Blocked(host)
  {
    LowerAsciiIdempotent(host);
  }

  /** The block list looks at the last label only, ignoring case; a port hides it. */
  lemma {:induction false} BlockedExamples()
    ensures Blocked("example.RU") && Blocked("minsk.By")
    ensures !Blocked("example.ru.com") && !Blocked("example.ru:8080") && !Blocked("ru")
  {
    assert LowerAscii("example.RU")[7..] == ".ru";
    assert LowerAscii("minsk.By")[5..] == ".by";
    var a := LowerAscii("example.ru.com");
    assert a[11..] == "com";
    var b := LowerAscii("example.ru:8080");
    assert b[12..] == "080";
  }

  /**
   * The tasks `run` enqueues before any worker starts: one per input line that
   * is not blank once stripped, normalised, at the configured depth, in input order.
   */
  function SeedTasks(lines: seq<string>, depth: int): (r: seq<CrawlTask>)
    ensures |r| <= |lines|
  {
    if lines == [] then []
    else
      var line := Strip(lines[0]);
      var rest := SeedTasks(lines[1..], depth);
      if line == [] then rest else [CrawlTask(NormalizeUrl(line), depth)] + rest
  }

  /**
   * Seeds are the non-blank lines, stripped and normalised, at the configured
   * depth: every such line gives a task and every task comes from such a line.
   */
  lemma {:induction false} SeedTasksSpec(lines: seq<string>, depth: int)
    ensures |SeedTasks(lines, depth)| <= |lines|
    ensures forall t | t in SeedTasks(lines, depth) ::
      && t.depth == depth
      && exists x | x in lines :: Strip(x) != [] && t.url == NormalizeUrl(Strip(x))
    ensures forall x | x in lines && Strip(x) != [] :: CrawlTask(NormalizeUrl(Strip(x)), depth) in SeedTasks(lines, depth)
  {
    if lines != [] {
      var line := Strip(lines[0]);
      var rest := SeedTasks(lines[1..], depth);
      var here: seq<CrawlTask> := if line == [] then [] else [CrawlTask(NormalizeUrl(line), depth)];
      SeedTasksSpec(lines[1..], depth);
      assert SeedTasks(lines, depth) == here + rest;
      forall t: CrawlTask | t in here + rest
        ensures t.depth == depth && exists x | x in lines :: Strip(x) != [] && t.url == NormalizeUrl(Strip(x))
      {
        if t in rest {
          var x :| x in lines[1..] && Strip(x) != [] && t.url == NormalizeUrl(Strip(x));
          assert x in lines;
        } else {
          assert lines[0] in lines;
        }
      }
      forall x | x in lines && Strip(x) != []
        ensures CrawlTask(NormalizeUrl(Strip(x)), depth) in here + rest
      {
        if x != lines[0] {
          assert x in lines[1..];
        }
      }
    }
  }

  /** Every seed URL ends in `/`; input made of blank lines yields no seed. */
  lemma SeedTasksShape(lines: seq<string>, depth: int)
    ensures forall t | t in SeedTasks(lines, depth) :: |t.url| > 0 && t.url[|t.url| - 1] == '/'
    ensures (forall x | x in lines :: forall i | 0 <= i < |x| :: IsSpace(x[i])) ==> SeedTasks(lines, depth) == []
  {
    SeedTasksSpec(lines, depth);
    if forall x | x in lines :: forall i | 0 <= i < |x| :: IsSpace(x[i]) {
      forall x | x in lines
        ensures Strip(x) == []
      {
        StripBlank(x);
      }
    }
  }

  /** The links of a page, each queued at `depth`, in the order given. */
  function Children(links: seq<string>, depth: int): (r: seq<CrawlTask>)
    ensures |r| == |links|
    ensures forall i | 0 <= i < |links| :: r[i].url == links[i] && r[i].depth == depth
  {
    seq(|links|, i requires 0 <= i < |links| => CrawlTask(links[i], depth))
  }

  /** Number of admissions recorded for `host`. */
  function HostCount(log: seq<Admission>, host: string): nat {
    if log == [] then 0
    else HostCount(log[..|log| - 1], host) + (if log[|log| - 1].host == host then 1 else 0)
  }

  lemma {:induction false} HostCountAbsent(log: seq<Admission>, host: string)
    requires forall i | 0 <= i < |log| :: log[i].host != host
    ensures HostCount(log, host) == 0
  {
    if log != [] {
      HostCountAbsent(log[..|log| - 1], host);
    }
  }

  lemma HostCountAppend(log: seq<Admission>, a: Admission, host: string)
    ensures HostCount(log + [a], host) == HostCount(log, host) + (if a.host == host then 1 else 0)
  {
    assert (log + [a])[..|log|] == log;
  }

  function UrlsOf(log: seq<Admission>): set<string> {
    set a | a in log :: a.url
  }

  lemma UrlsAppend(log: seq<Admission>, a: Admission)
    ensures UrlsOf(log + [a]) == UrlsOf(log) + {a.url}
  {
    assert forall b | b in log + [a] :: b in log || b == a;
  }

  /** `Hits` on a `Counter` modelled as a map. */
  function CounterGet(counts: map<string, nat>, host: string): nat {
    if host in counts then counts[host] else 0
  }

  /**
   * Each URL is admitted at most once, `seen_urls` holds exactly the admitted
   * URLs, and every host's counter is its number of admissions, which never
   * exceeds `crawl_per_host`.
   */
  ghost predicate GateInvariant(log: seq<Admission>, urls: set<string>, counts: map<string, nat>, cap: int) {
    && (forall i, j | 0 <= i < j < |log| :: log[i].url != log[j].url)
    && urls == UrlsOf(log)
    && (forall i | 0 <= i < |log| :: log[i].host in counts)
    && (forall h | h in counts :: counts[h] == HostCount(log, h) && 0 < counts[h] <= cap)
  }

  /** Admitting a fresh URL on a host below its cap keeps the invariant. */
  lemma AdmitKeepsInvariant(log: seq<Admission>, urls: set<string>, counts: map<string, nat>, cap: int, url: string, host: string)
    requires GateInvariant(log, urls, counts, cap)
    requires url !in urls && CounterGet(counts, host) < cap
    ensures GateInvariant(log + [Admission(url, host)], urls + {url},
                          counts[host := CounterGet(counts, host) + 1], cap)
  {
    if host !in counts {
      HostCountAbsent(log, host);
    }
    assert forall i | 0 <= i < |log| :: log[i].url != url by {
      assert forall i | 0 <= i < |log| :: log[i] in log;
    }
    UrlsAppend(log, Admission(url, host));
    var counts' := counts[host := CounterGet(counts, host) + 1];
    forall h | h in counts'
      ensures counts'[h] == HostCount(log + [Admission(url, host)], h)
    {
      HostCountAppend(log, Admission(url, host), h);
    }
  }

  /** One line of the seed loop keeps its invariant. */
  lemma SeedStep(lines: seq<string>, i: nat, depth: int, tasks: seq<CrawlTask>)
    requires i < |lines|
    requires tasks + SeedTasks(lines[i..], depth) == SeedTasks(lines, depth)
    ensures var line := Strip(lines[i]);
      (if line == [] then tasks else tasks + [CrawlTask(NormalizeUrl(line), depth)])
        + SeedTasks(lines[i + 1..], depth) == SeedTasks(lines, depth)
  {
    assert lines[i..][1..] == lines[i + 1..];
    var line := Strip(lines[i]);
    if line != [] {
      var rest := SeedTasks(lines[i + 1..], depth);
      assert tasks + ([CrawlTask(NormalizeUrl(line), depth)] + rest)
          == (tasks + [CrawlTask(NormalizeUrl(line), depth)]) + rest;
    }
  }

  /** The loop of `run` that reads the seed lines and queues their tasks. */
  method LoadSeeds(lines: seq<string>, depth: int) returns (tasks: seq<CrawlTask>)
    ensures tasks == SeedTasks(lines, depth)
  {
    tasks := [];
    var i := 0;
    while i < |lines|
      invariant 0 <= i <= |lines|
      invariant tasks + SeedTasks(lines[i..], depth) == SeedTasks(lines, depth)
    {
      SeedStep(lines, i, depth, tasks);
      var line := Strip(lines[i]);
      if line != [] {
        tasks := tasks + [CrawlTask(NormalizeUrl(line), depth)];
      }
      i := i + 1;
    }
    assert lines[|lines|..] == [];
  }

  class Crawler {
    /** `crawl_per_host`. */
    const perHost: int
    /** `seen_urls`: every URL ever admitted. */
    var seenUrls: set<string>
    /** `seen_hosts`, a `Counter`: a host that is absent counts as 0. */
    var seenHosts: map<string, nat>
    /** `crawl_queue`, first in, first out. */
    var queue: seq<CrawlTask>
    /** Every admission, in order. */
    ghost var log: seq<Admission>

    ghost predicate Valid()
      reads this
    {
      GateInvariant(log, seenUrls, seenHosts, perHost)
    }

    /** `seen_hosts[host]`. */
    function Hits(host: string): nat
      reads this
    {
      CounterGet(seenHosts, host)
    }

    /** `run`'s setup: empty shared state and the seeds in the queue. */
    constructor (lines: seq<string>, crawlDepth: int, crawlPerHost: int)
      ensures Valid()
      ensures perHost == crawlPerHost && seenUrls == {} && seenHosts == map[] && log == []
      ensures queue == SeedTasks(lines, crawlDepth)
    {
      var tasks := LoadSeeds(lines, crawlDepth);
      perHost := crawlPerHost;
      seenUrls := {};
      seenHosts := map[];
      log := [];
      queue := tasks;
    }

    /**
     * The admission gate: a blocked host is skipped before any state is read;
     * then a negative depth, an already seen URL or a host at its cap is
     * rejected; otherwise the URL is claimed and its host's counter goes up by one.
     */
    method ShouldCrawl(url: string, host: string, depth: int) returns (admitted: bool)
      requires Valid()
      modifies this`seenUrls, this`seenHosts, this`log
      ensures Valid()
      ensures admitted <==> !Blocked(host) && depth >= 0 && url !in old(seenUrls) && old(Hits(host)) < perHost
      ensures admitted ==> && seenUrls == old(seenUrls) + {url}
                           && seenHosts == old(seenHosts)[host := old(Hits(host)) + 1]
                           && log == old(log) + [Admission(url, host)]
      ensures !admitted ==> seenUrls == old(seenUrls) && seenHosts == old(seenHosts) && log == old(log)
    {
      if Blocked(host) {
        return false;
      }
      if depth < 0 || url in seenUrls || Hits(host) >= perHost {
        return false;
      }
      AdmitKeepsInvariant(log, seenUrls, seenHosts, perHost, url, host);
      seenUrls := seenUrls + {url};
      seenHosts := seenHosts[host := Hits(host) + 1];
      log := log + [Admission(url, host)];
      admitted := true;
    }

    /**
     * One iteration of a crawl worker: dequeue a task and pass it through the
     * gate; if admitted, `visit` stands for opening the page, giving its
     * same-host links or `None` when navigation failed. Links are queued one
     * level deeper only when the task's depth is positive.
     */
    method Step(hostOf: string -> string, visit: string -> Option<seq<string>>) returns (admitted: bool)
      requires Valid() && queue != []
      modifies this
      ensures Valid()
      ensures var t := old(queue[0]);
        admitted <==> !Blocked(hostOf(t.url)) && t.depth >= 0 && t.url !in old(seenUrls) && old(Hits(hostOf(t.url))) < perHost
      ensures var t := old(queue[0]);
        admitted ==> seenUrls == old(seenUrls) + {t.url} && seenHosts == old(seenHosts)[hostOf(t.url) := old(Hits(hostOf(t.url))) + 1]
      ensures !admitted ==> seenUrls == old(seenUrls) && seenHosts == old(seenHosts)
      ensures var t := old(queue[0]); var links := visit(t.url);
        queue == old(queue[1..]) + (if admitted && t.depth > 0 && links.Some? then Children(links.value, t.depth - 1) else [])
    {
      var task := queue[0];
      queue := queue[1..];
      admitted := ShouldCrawl(task.url, hostOf(task.url), task.depth);
      if admitted {
        var links := visit(task.url);
        if links.Some? && task.depth > 0 {
          ghost var base := queue;
          ghost var urls, hosts, admissions := seenUrls, seenHosts, log;
          var i := 0;
          while i < |links.value|
            invariant 0 <= i <= |links.value|
            invariant queue == base + Children(links.value[..i], task.depth - 1)
            invariant seenUrls == urls && seenHosts == hosts && log == admissions
          {
            assert links.value[..i + 1] == links.value[..i] + [links.value[i]];
            queue := queue + [CrawlTask(links.value[i], task.depth - 1)];
            i := i + 1;
          }
          assert links.value[..i] == links.value;
        }
      }
    }
  }
}
