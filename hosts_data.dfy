/** Assembling the hosts entries (src/assets/script/hosts.ts): `getHostsData` keeps
    the lookups that produced a valid address, in the order of the host list, and
    `buildHosts` renders them as hosts-file lines. */
module HostsData {
  import opened Outcomes
  import opened Text
  import IpScan
  import GlobalUtil

  /** One entry of the hosts block: a host name and the address it is pinned to. */
  datatype HostEntry = HostEntry(name: string, ip: string)

  // ---------------------------------------------------------------------------
  // getHostsData
  // ---------------------------------------------------------------------------

  /** A lookup outcome that `getHostsData` keeps: it succeeded and `validateIP`
      classifies the address as IPv4 or IPv6. */
  predicate Accepted(r: Settled<string>)
  {
    r.Fulfilled? && IpScan.ValidateIP(r.value) != IpScan.Neither
  }

  /** The entries kept from the settled lookups `results`, where `results[i]` is the
      outcome for `urls[i]`. */
  function Kept(urls: seq<string>, results: seq<Settled<string>>): (hosts: seq<HostEntry>)
    requires |results| == |urls|
    ensures |hosts| <= |urls|
  {
    if urls == [] then []
    else
      var n := |urls| - 1;
      Kept(urls[..n], results[..n])
      + (if Accepted(results[n]) then [HostEntry(urls[n], results[n].value)] else [])
  }

  /** `getHostsData()`, given the settled outcomes of `getIPAddresses` for each host
      name: rejected lookups and strings that are not addresses are logged and dropped. */
  method GetHostsData(urls: seq<string>, results: seq<Settled<string>>) returns (hosts: seq<HostEntry>)
    requires |results| == |urls|
    ensures hosts == Kept(urls, results)
  {
    hosts := [];
    for i := 0 to |urls|
      invariant hosts == Kept(urls[..i], results[..i])
    {
      assert urls[..i + 1][..i] == urls[..i] && results[..i + 1][..i] == results[..i];
      var result := results[i];
      if result.Fulfilled? {
        var r := IpScan.ValidateIP(result.value);
        if r == IpScan.IPv4 || r == IpScan.IPv6 {
          hosts := hosts + [HostEntry(urls[i], result.value)];
        }
      }
    }
    assert urls[..|urls|] == urls && results[..|results|] == results;
  }

  /** The indices whose outcomes are kept, in increasing order. */
  function AcceptedIndices(results: seq<Settled<string>>): (idx: seq<nat>)
    ensures forall j :: 0 <= j < |idx| ==> idx[j] < |results| && Accepted(results[idx[j]])
  {
    if results == [] then []
    else
      var n := |results| - 1;
      AcceptedIndices(results[..n]) + (if Accepted(results[n]) then [n] else [])
  }

  /** The indices are increasing, ... */
  lemma {:induction false} AcceptedIndicesIncreasing(results: seq<Settled<string>>)
    ensures forall j, k :: 0 <= j < k < |AcceptedIndices(results)| ==> AcceptedIndices(results)[j] < AcceptedIndices(results)[k]
  {
    if results != [] {
      var n := |results| - 1;
      var idx, ip := AcceptedIndices(results), AcceptedIndices(results[..n]);
      AcceptedIndicesIncreasing(results[..n]);
      AcceptedIndicesStep(results);
      forall j, k | 0 <= j < k < |idx|
        ensures idx[j] < idx[k]
      {
        assert idx[j] == ip[j];
        if k < |ip| {
          assert idx[k] == ip[k];
        } else {
          assert idx[k] == n;
        }
      }
    }
  }

  /** ... and no accepted outcome is missing. */
  lemma AcceptedIndicesComplete(results: seq<Settled<string>>)
    ensures forall i :: 0 <= i < |results| && Accepted(results[i]) ==> i in AcceptedIndices(results)
  {
    forall i | 0 <= i < |results| && Accepted(results[i])
      ensures i in AcceptedIndices(results)
    {
      var j := AcceptedPosition(results, i);
    }
  }

  /** Where an accepted outcome's index sits among the indices. */
  lemma {:induction false} AcceptedPosition(results: seq<Settled<string>>, i: nat) returns (j: nat)
    requires i < |results| && Accepted(results[i])
    ensures j < |AcceptedIndices(results)| && AcceptedIndices(results)[j] == i
  {
    var n := |results| - 1;
    AcceptedIndicesStep(results);
    if i < n {
      assert results[..n][i] == results[i];
      j := AcceptedPosition(results[..n], i);
    } else {
      j := |AcceptedIndices(results[..n])|;
    }
  }

  /** The last outcome adds its index after those of the others, all smaller. */
  lemma AcceptedIndicesStep(results: seq<Settled<string>>)
    requires results != []
    ensures var n := |results| - 1; var idx, ip := AcceptedIndices(results), AcceptedIndices(results[..n]);
      |ip| <= |idx| <= |ip| + 1 && (forall j :: 0 <= j < |ip| ==> idx[j] == ip[j] < n)
      && (|idx| == |ip| + 1 <==> Accepted(results[n])) && (|idx| == |ip| + 1 ==> idx[|ip|] == n)
  {
  }

  /** The kept entries are exactly the accepted outcomes, in host-list order, each
      paired with its own host name: nothing is reordered, renamed or thrown. */
  lemma {:induction false} KeptAtIndices(urls: seq<string>, results: seq<Settled<string>>)
    requires |results| == |urls|
    ensures |Kept(urls, results)| == |AcceptedIndices(results)|
    ensures forall j :: 0 <= j < |Kept(urls, results)| ==>
      Kept(urls, results)[j] == HostEntry(urls[AcceptedIndices(results)[j]], results[AcceptedIndices(results)[j]].value)
  {
    if urls != [] {
      var n := |urls| - 1;
      var us, rs := urls[..n], results[..n];
      KeptAtIndices(us, rs);
      var ks, kp := Kept(urls, results), Kept(us, rs);
      var idx, ip := AcceptedIndices(results), AcceptedIndices(rs);
      assert ks[..|kp|] == kp && idx[..|ip|] == ip;
      forall j | 0 <= j < |ks|
        ensures ks[j] == HostEntry(urls[idx[j]], results[idx[j]].value)
      {
        if j < |kp| {
          assert ks[j] == kp[j] && idx[j] == ip[j];
          assert urls[ip[j]] == us[ip[j]] && results[ip[j]] == rs[ip[j]];
        }
      }
    }
  }

  /** Every kept address is one `validateIP` accepts, so it holds hex digits, dots and
      colons only. */
  lemma KeptAreAddresses(urls: seq<string>, results: seq<Settled<string>>, j: nat, c: char)
    requires |results| == |urls| && j < |Kept(urls, results)|
    requires c in Kept(urls, results)[j].ip
    ensures IpScan.ValidateIP(Kept(urls, results)[j].ip) != IpScan.Neither
    ensures IsHexDigit(c) || c == '.' || c == ':'
  {
    KeptAtIndices(urls, results);
    IpScan.ValidatedChars(Kept(urls, results)[j].ip, c);
  }

  // ---------------------------------------------------------------------------
  // buildHosts
  // ---------------------------------------------------------------------------

  /** `lJust(host.ip, 20) + host.name`. */
  function HostLine(h: HostEntry): string
  {
    GlobalUtil.LJust(h.ip, 20) + h.name
  }

  /** The rendered line of each entry. */
  function Lines(hosts: seq<HostEntry>): (ls: seq<string>)
    ensures |ls| == |hosts|
    ensures forall k :: 0 <= k < |hosts| ==> ls[k] == HostLine(hosts[k])
  {
    seq(|hosts|, k requires 0 <= k < |hosts| => HostLine(hosts[k]))
  }

  /** `buildHosts(hosts, joinStr)`. */
  function BuildHosts(hosts: seq<HostEntry>, joinStr: string := "\n"): string
  {
    Join(Lines(hosts), joinStr)
  }

  /** An address of at most 20 characters is left-aligned in a 20-column field, and the
      host name starts in column 20. */
  lemma HostLineColumns(h: HostEntry)
    requires |h.ip| <= 20
    ensures |HostLine(h)| == 20 + |h.name|
    ensures HostLine(h)[..|h.ip|] == h.ip
    ensures forall k :: |h.ip| <= k < 20 ==> HostLine(h)[k] == ' '
    ensures HostLine(h)[20..] == h.name
  {
    var pad := GlobalUtil.LJust(h.ip, 20);
    assert HostLine(h)[..20] == pad;
    assert forall k :: |h.ip| <= k < 20 ==> pad[k] in " ";
  }

  /** A line holds a terminator only when the entry does. */
  lemma HostLineNoTerminator(h: HostEntry)
    requires GlobalUtil.NoTerminator(h.ip) && GlobalUtil.NoTerminator(h.name)
    ensures GlobalUtil.NoTerminator(HostLine(h))
  {
    var pad := GlobalUtil.LJust(h.ip, 20);
    var line := HostLine(h);
    forall k | 0 <= k < |line| ensures !IsTerminator(line[k]) {
      if k < |h.ip| {
        assert line[k] == h.ip[k];
      } else if k < |pad| {
        assert line[k] in " ";
      } else {
        assert line[k] == h.name[k - |pad|];
      }
    }
  }

  /** Joined with a line terminator, the block splits back into exactly one line per
      entry: no separator before the first line or after the last. */
  lemma BuildHostsLines(hosts: seq<HostEntry>, le: string)
    requires |hosts| >= 1
    requires le == "\n" || le == "\r\n" || le == "\r"
    requires forall k :: 0 <= k < |hosts| ==> GlobalUtil.NoTerminator(hosts[k].ip) && GlobalUtil.NoTerminator(hosts[k].name)
    ensures GlobalUtil.SplitLines(BuildHosts(hosts, le)) == Lines(hosts)
  {
    var ls := Lines(hosts);
    forall k | 0 <= k < |ls| ensures GlobalUtil.NoTerminator(ls[k]) {
      HostLineNoTerminator(hosts[k]);
    }
    GlobalUtil.JoinSplitLines(ls, le);
  }

  /** The block holds a character other than a blank only when an entry or the
      separator does. */
  lemma BuildHostsAvoids(hosts: seq<HostEntry>, sep: string, c: char)
    requires c != ' ' && c !in sep
    requires forall k :: 0 <= k < |hosts| ==> c !in hosts[k].ip && c !in hosts[k].name
    ensures c !in BuildHosts(hosts, sep)
  {
    var ls := Lines(hosts);
    assert forall k :: 0 <= k < |ls| ==> c !in ls[k];
    JoinAvoids(ls, sep, c);
  }
}
