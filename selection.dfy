/** Choosing one address per host name (src/assets/script/hosts.ts): `getOptimalIp`
    probes every candidate and keeps the fastest, and `getIPAddresses` runs one
    lookup attempt (page, extraction, choice) under `retrySync`. */
module Selection {
  import opened Outcomes
  import IpScan
  import GlobalUtil

  // ---------------------------------------------------------------------------
  // Latencies
  // ---------------------------------------------------------------------------

  /** The average round trip a ping reports, in milliseconds: a number or NaN. */
  datatype PingAvg = Avg(ms: real) | NaN

  /** A latency as the comparison sees it: a number or +Infinity. */
  datatype Latency = Finite(ms: real) | Infinity

  /** `Number.isNaN(r.avg) ? Infinity : r.avg`. */
  function LatencyOf(p: PingAvg): Latency
  {
    match p
    case NaN => Infinity
    case Avg(ms) => Finite(ms)
  }

  /** `a < b` on latencies. */
  predicate Below(a: Latency, b: Latency)
  {
    match a
    case Infinity => false
    case Finite(x) => b.Infinity? || x < b.ms
  }

  /** `<` is a strict total order on latencies. */
  lemma BelowOrder(a: Latency, b: Latency, c: Latency)
    ensures !Below(a, a)
    ensures Below(a, b) && Below(b, c) ==> Below(a, c)
    ensures a != b ==> Below(a, b) || Below(b, a)
  {
  }

  // ---------------------------------------------------------------------------
  // getOptimalIp
  // ---------------------------------------------------------------------------

  datatype Candidate = Candidate(address: string, avg: Latency)

  /** The settled probes, one per address in input order: `ping(ip)` is the outcome of
      probing `ip`. */
  function Probe(ips: seq<string>, ping: string -> Settled<PingAvg>): (rs: seq<Settled<Candidate>>)
    ensures |rs| == |ips|
    ensures forall k :: 0 <= k < |ips| ==> rs[k].Fulfilled? == ping(ips[k]).Fulfilled?
    ensures forall k :: 0 <= k < |ips| && rs[k].Fulfilled? ==>
      rs[k].value == Candidate(ips[k], LatencyOf(ping(ips[k]).value))
  {
    seq(|ips|, k requires 0 <= k < |ips| =>
      match ping(ips[k])
      case Fulfilled(p) => Fulfilled(Candidate(ips[k], LatencyOf(p)))
      case Rejected(e) => Rejected(e))
  }

  /** One step of the reduce: keep `prev` only when it is strictly faster. */
  function Pick(prev: Candidate, cur: Candidate): Candidate
  {
    if Below(prev.avg, cur.avg) then prev else cur
  }

  /** `cs.reduce(Pick)` on a non-empty array. */
  function ReduceMin(cs: seq<Candidate>): Candidate
    requires |cs| >= 1
  {
    if |cs| == 1 then cs[0] else Pick(ReduceMin(cs[..|cs| - 1]), cs[|cs| - 1])
  }

  /** `cs[i]` is a fastest candidate and every later one is strictly slower: the last
      of the fastest. */
  predicate LastFastest(cs: seq<Candidate>, i: nat)
  {
    i < |cs|
    && (forall j :: 0 <= j < |cs| ==> !Below(cs[j].avg, cs[i].avg))
    && (forall j :: i < j < |cs| ==> Below(cs[i].avg, cs[j].avg))
  }

  /** The reduce returns the last of the fastest candidates. */
  lemma {:induction false} ReduceMinIsLastFastest(cs: seq<Candidate>)
    requires |cs| >= 1
    ensures exists i: nat :: LastFastest(cs, i) && ReduceMin(cs) == cs[i]
  {
    if |cs| == 1 {
      assert LastFastest(cs, 0);
    } else {
      var pre := cs[..|cs| - 1];
      ReduceMinIsLastFastest(pre);
      var i: nat :| LastFastest(pre, i) && ReduceMin(pre) == pre[i];
      if Below(pre[i].avg, cs[|cs| - 1].avg) {
        KeepPrevious(cs, i);
      } else {
        TakeCurrent(cs, i);
      }
    }
  }

  /** A strictly slower newcomer leaves the last of the fastest where it was ... */
  lemma KeepPrevious(cs: seq<Candidate>, i: nat)
    requires |cs| >= 2 && LastFastest(cs[..|cs| - 1], i)
    requires Below(cs[i].avg, cs[|cs| - 1].avg)
    ensures LastFastest(cs, i)
  {
    var pre := cs[..|cs| - 1];
    assert forall j :: 0 <= j < |pre| ==> cs[j] == pre[j];
  }

  /** ... and a newcomer at least as fast becomes it. */
  lemma TakeCurrent(cs: seq<Candidate>, i: nat)
    requires |cs| >= 2 && LastFastest(cs[..|cs| - 1], i)
    requires !Below(cs[i].avg, cs[|cs| - 1].avg)
    ensures LastFastest(cs, |cs| - 1)
  {
    var pre := cs[..|cs| - 1];
    assert forall j :: 0 <= j < |pre| ==> cs[j] == pre[j];
    assert forall j :: 0 <= j < |pre| ==> !Below(pre[j].avg, pre[i].avg);
  }

  /** What `reduce` on an empty array without an initial value throws. */
  const EmptyReduce := TypeError("Reduce of empty array with no initial value")

  /** `getOptimalIp(ips)`: a single address is returned without probing; otherwise the
      fastest reachable one, later ones winning ties, NaN counting as +Infinity. */
  function GetOptimalIp(ips: seq<string>, ping: string -> Settled<PingAvg>): (r: Settled<string>)
    ensures |ips| == 1 ==> r == Fulfilled(ips[0])
    ensures r.Rejected? ==> r.reason == EmptyReduce
  {
    if |ips| == 1 then Fulfilled(ips[0])
    else
      var cs := FulfilledValues(Probe(ips, ping));
      if cs == [] then Rejected(EmptyReduce) else Fulfilled(ReduceMin(cs).address)
  }

  /** With more than one address, the call fails exactly when every probe fails. */
  lemma GetOptimalIpFails(ips: seq<string>, ping: string -> Settled<PingAvg>)
    requires |ips| != 1
    ensures GetOptimalIp(ips, ping).Rejected? <==> forall k :: 0 <= k < |ips| ==> ping(ips[k]).Rejected?
  {
    var rs := Probe(ips, ping);
    assert (forall k :: 0 <= k < |rs| ==> rs[k].Rejected?) <==> forall k :: 0 <= k < |ips| ==> ping(ips[k]).Rejected?;
  }

  /** When it succeeds, the result is the address of the last of the fastest candidates. */
  lemma GetOptimalIpFastest(ips: seq<string>, ping: string -> Settled<PingAvg>)
    requires |ips| != 1 && GetOptimalIp(ips, ping).Fulfilled?
    ensures exists i: nat ::
              && LastFastest(FulfilledValues(Probe(ips, ping)), i)
              && GetOptimalIp(ips, ping).value == FulfilledValues(Probe(ips, ping))[i].address
  {
    var cs := FulfilledValues(Probe(ips, ping));
    ReduceMinIsLastFastest(cs);
    var i: nat :| LastFastest(cs, i) && ReduceMin(cs) == cs[i];
    assert GetOptimalIp(ips, ping).value == cs[i].address;
  }

  /** In terms of the addresses themselves: the winner is a successfully probed
      address at some position `k`, no successfully probed address is faster, and every
      successfully probed address after position `k` is strictly slower. Ties go to
      the later address. */
  lemma GetOptimalIpInInputOrder(ips: seq<string>, ping: string -> Settled<PingAvg>)
    requires |ips| != 1 && GetOptimalIp(ips, ping).Fulfilled?
    ensures exists k :: (0 <= k < |ips| && ping(ips[k]).Fulfilled? && ips[k] == GetOptimalIp(ips, ping).value
                         && (forall j :: 0 <= j < |ips| && ping(ips[j]).Fulfilled? ==>
                               !Below(LatencyOf(ping(ips[j]).value), LatencyOf(ping(ips[k]).value)))
                         && (forall j :: k < j < |ips| && ping(ips[j]).Fulfilled? ==>
                               Below(LatencyOf(ping(ips[k]).value), LatencyOf(ping(ips[j]).value))))
  {
    var rs := Probe(ips, ping);
    var cs := FulfilledValues(rs);
    var idx := FulfilledIndices(rs);
    ReduceMinIsLastFastest(cs);
    var i: nat :| LastFastest(cs, i) && ReduceMin(cs) == cs[i];
    FulfilledValuesAt(rs);
    FulfilledIndicesIncreasing(rs);
    var k := idx[i];
    assert cs[i] == Candidate(ips[k], LatencyOf(ping(ips[k]).value));
    forall j | 0 <= j < |ips| && ping(ips[j]).Fulfilled?
      ensures !Below(LatencyOf(ping(ips[j]).value), LatencyOf(ping(ips[k]).value))
      ensures k < j ==> Below(LatencyOf(ping(ips[k]).value), LatencyOf(ping(ips[j]).value))
    {
      var m := FulfilledPosition(rs, j);
      assert cs[m] == Candidate(ips[j], LatencyOf(ping(ips[j]).value));
      if k < j {
        assert i < m;
      }
    }
  }

  /** The winner is one of the addresses, and it was probed successfully. */
  lemma GetOptimalIpProbed(ips: seq<string>, ping: string -> Settled<PingAvg>)
    requires |ips| != 1 && GetOptimalIp(ips, ping).Fulfilled?
    ensures exists k :: 0 <= k < |ips| && ips[k] == GetOptimalIp(ips, ping).value && ping(ips[k]).Fulfilled?
  {
    var rs := Probe(ips, ping);
    var cs := FulfilledValues(rs);
    ReduceMinIsLastFastest(cs);
    var i: nat :| LastFastest(cs, i) && ReduceMin(cs) == cs[i];
    FulfilledValuesMembers(rs);
    assert Fulfilled(cs[i]) in rs;
    var k :| 0 <= k < |rs| && rs[k] == Fulfilled(cs[i]);
    assert ips[k] == cs[i].address;
  }

  /** Unreachable candidates stay eligible: when every successful probe reports NaN,
      the last successfully probed address wins. */
  lemma AllNaNPicksLast(cs: seq<Candidate>)
    requires |cs| >= 1 && forall k :: 0 <= k < |cs| ==> cs[k].avg == Infinity
    ensures ReduceMin(cs) == cs[|cs| - 1]
  {
    ReduceMinIsLastFastest(cs);
    var i: nat :| LastFastest(cs, i) && ReduceMin(cs) == cs[i];
    assert !Below(cs[i].avg, cs[|cs| - 1].avg);
  }

  // ---------------------------------------------------------------------------
  // getIPAddresses
  // ---------------------------------------------------------------------------

  /** The message suffix of a lookup page without addresses. */
  const NotFound := "ip not found!"

  /** One run of the function `getIPAddresses` hands to `retrySync`: `page` is the
      outcome of fetching the lookup page for `host`, `ping` the probe outcomes. */
  function LookupAttempt(host: string, page: Settled<string>, ping: string -> Settled<PingAvg>): Settled<string>
  {
    match page
    case Rejected(e) => Rejected(e)
    case Fulfilled(html) =>
      var ips := IpScan.Dedupe(IpScan.ExtractIPAddresses(html));
      if ips == [] then Rejected(Error(host + NotFound)) else GetOptimalIp(ips, ping)
  }

  /** A failed fetch is passed on; a page without addresses fails with "ip not
      found!"; otherwise the extracted addresses (already free of duplicates, so the
      second deduplication changes nothing) go to `getOptimalIp`. */
  lemma LookupAttemptMeans(host: string, page: Settled<string>, ping: string -> Settled<PingAvg>)
    ensures page.Rejected? ==> LookupAttempt(host, page, ping) == page
    ensures page.Fulfilled? && IpScan.ExtractIPAddresses(page.value) == [] ==>
      LookupAttempt(host, page, ping) == Rejected(Error(host + NotFound))
    ensures page.Fulfilled? && IpScan.ExtractIPAddresses(page.value) != [] ==>
      LookupAttempt(host, page, ping) == GetOptimalIp(IpScan.ExtractIPAddresses(page.value), ping)
  {
    if page.Fulfilled? {
      IpScan.DedupeKeeps(IpScan.ExtractIPAddresses(page.value));
    }
  }

  /** A successful attempt yields an address of at most 15 characters, so the
      `lJust(ip, 20)` of `buildHosts` always pads it and never runs it into the name. */
  lemma LookupAttemptShort(host: string, page: Settled<string>, ping: string -> Settled<PingAvg>)
    requires LookupAttempt(host, page, ping).Fulfilled?
    ensures |LookupAttempt(host, page, ping).value| <= 15
  {
    var ips := IpScan.ExtractIPAddresses(page.value);
    LookupAttemptMeans(host, page, ping);
    IpScan.ExtractedAreShort(page.value);
    if |ips| != 1 {
      GetOptimalIpProbed(ips, ping);
    }
  }

  /** The attempts of `getIPAddresses`: the `k`-th one (from 0) fetches `pages(k)` and
      probes with `pings(k)`. */
  function Attempts(host: string, pages: nat -> Settled<string>, pings: nat -> string -> Settled<PingAvg>): nat -> Settled<string>
  {
    (k: nat) => LookupAttempt(host, pages(k), pings(k))
  }

  /** `getIPAddresses(host)`: up to three retries, one second apart. The result is the
      first attempt that succeeds, or the fourth failure. */
  method GetIPAddresses(host: string, pages: nat -> Settled<string>, pings: nat -> string -> Settled<PingAvg>)
    returns (r: Settled<string>, attempts: nat)
    ensures 1 <= attempts <= 4
    ensures r == Attempts(host, pages, pings)(attempts - 1)
    ensures forall k: nat :: k < attempts - 1 ==> Attempts(host, pages, pings)(k).Rejected?
    ensures r.Rejected? ==> attempts == 4
  {
    r, attempts := GlobalUtil.RetrySync(Attempts(host, pages, pings), 3, 1000);
  }
}
