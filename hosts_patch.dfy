/** The text patch that `hostsUpdate` (src/assets/script/hosts.ts) applies to the hosts
    file: it sniffs the file's line ending, renders the managed block between the two
    markers, and either leaves the file alone, replaces the block in place, or
    appends a new one. */
module HostsPatch {
  import opened Outcomes
  import opened Text
  import opened HostsConfig
  import GlobalUtil
  import HostsData

  /** The tag of the time stamp line inside the block. */
  const UpdateLabel := "# Update time"

  // ---------------------------------------------------------------------------
  // The shape of the markers
  // ---------------------------------------------------------------------------

  /** `w` starts with `#`, holds no other `#` and no line terminator. */
  predicate HashLed(w: string)
  {
    |w| >= 2 && w[0] == '#' && forall k :: 1 <= k < |w| ==> PlainAt(w, k)
  }

  /** `w[k]` is neither a `#` nor a line terminator. */
  predicate PlainAt(w: string, k: int)
  {
    0 <= k < |w| && w[k] != '#' && !IsTerminator(w[k])
  }

  /** `s` holds a `#` at `j`. */
  predicate HashAt(s: string, j: int)
  {
    0 <= j < |s| && s[j] == '#'
  }

  /** Three words that can frame a block: each is led by its only `#`, and the tag
      parts company with both markers at its second character. */
  predicate Framing(opener: string, tag: string, closer: string)
  {
    HashLed(opener) && HashLed(tag) && HashLed(closer) && tag[1] != opener[1] && tag[1] != closer[1]
  }

  /** The configured markers and the time stamp tag frame a block. */
  lemma MarkerFacts()
    ensures Framing(StartMarker, UpdateLabel, EndMarker)
  {
  }

  /** A text that differs from `w` at offset `k` from `j` holds no `w` at `j`. */
  lemma Mismatch(t: string, w: string, j: nat, k: nat)
    requires k < |w| && j + k < |t| && t[j + k] != w[k]
    ensures !OccursAt(t, w, j)
  {
    if j + |w| <= |t| {
      MatchesFromAll(t, w, j, 0);
    }
  }

  // ---------------------------------------------------------------------------
  // Line ending
  // ---------------------------------------------------------------------------

  predicate IsLineEnding(le: string) { le == "\n" || le == "\r\n" || le == "\r" }

  /** `/(\r\n|\n|\r)/.exec(s)`, or `\n` when the text has no terminator: the first
      terminator of the text, read as `\r\n` when a `\r` is followed by `\n`. */
  function LineEnding(s: string): (le: string)
    ensures IsLineEnding(le)
    ensures FirstTerminator(s) == |s| ==> le == "\n"
    ensures FirstTerminator(s) < |s| ==> OccursAt(s, le, FirstTerminator(s))
    ensures le == "\r" ==> FirstTerminator(s) + 1 == |s| || s[FirstTerminator(s) + 1] != '\n'
  {
    var k := FirstTerminator(s);
    if k == |s| then "\n"
    else if s[k] == '\r' && k + 1 < |s| && s[k + 1] == '\n' then
      MatchesFromAll(s, "\r\n", k, 0);
      "\r\n"
    else
      MatchesFromAll(s, [s[k]], k, 0);
      [s[k]]
  }

  /** Text that follows the first terminator's pair of characters does not change
      the line ending. */
  lemma LineEndingAppend(s: string, y: string)
    requires FirstTerminator(s) < |s|
    requires y == [] || y[0] != '\n' || FirstTerminator(s) + 1 < |s| || s[FirstTerminator(s)] == '\n'
    ensures LineEnding(s + y) == LineEnding(s)
  {
    var k := FirstTerminator(s);
    var t := s + y;
    assert forall j :: 0 <= j < |s| ==> t[j] == s[j];
    assert FirstTerminator(t) == k;
  }

  /** After a stretch without terminators, the line ending is whatever comes next. */
  lemma LineEndingAfter(x: string, le: string, rest: string)
    requires GlobalUtil.NoTerminator(x) && IsLineEnding(le)
    requires le == "\r" ==> rest == [] || rest[0] != '\n'
    ensures LineEnding(x + le + rest) == le
  {
    var t := x + le + rest;
    assert forall j :: 0 <= j < |x| ==> t[j] == x[j];
    assert t[|x|] == le[0];
    assert FirstTerminator(t) == |x|;
    assert le == "\r\n" ==> t[|x| + 1] == '\n';
    assert le == "\r" && rest != [] ==> t[|x| + 1] == rest[0];
  }

  // ---------------------------------------------------------------------------
  // The block
  // ---------------------------------------------------------------------------

  /** A block framed by `opener`, `tag` and `closer`: the opening word, the entries,
      the time stamp line and the closing word, with an empty line between each.
      The lemmas below hold for every framing; the block the program writes is
      `Block`. */
  function Frame(opener: string, tag: string, closer: string, le: string, data: string, utime: string): string
  {
    opener + le + le + data + le + le + tag + ": " + utime + le + le + closer
  }

  /** `${startStr}${le}${le}${data}${le}${le}# Update time: ${utime}${le}${le}${endStr}`. */
  function Block(le: string, data: string, utime: string): string
  {
    Frame(StartMarker, UpdateLabel, EndMarker, le, data, utime)
  }

  /** Where the tag starts in a block. */
  function LabelOffset(opener: string, le: string, data: string): nat
  {
    |opener| + 4 * |le| + |data|
  }

  /** A block opens with `opener`, closes with `closer`, and between `opener` and the
      tag holds the entries padded by two line endings on each side. */
  lemma FrameLayout(opener: string, tag: string, closer: string, le: string, data: string, utime: string)
    ensures var b := Frame(opener, tag, closer, le, data, utime);
      var u := LabelOffset(opener, le, data);
      && OccursAt(b, opener, 0)
      && b[|opener|..u] == le + le + data + le + le
      && OccursAt(b, tag, u)
      && u + |tag| + 2 <= |b| - |closer|
      && OccursAt(b, closer, |b| - |closer|)
  {
    var mid := le + le + data + le + le;
    var tail := ": " + utime + le + le;
    assert Frame(opener, tag, closer, le, data, utime) == opener + mid + tag + tail + closer;
    Layout(opener, mid, tag, tail, closer);
  }

  /** Where the five parts of a text sit in it. */
  lemma Layout(a: string, m: string, t: string, x: string, c: string)
    ensures var b := a + m + t + x + c;
      && OccursAt(b, a, 0)
      && b[|a|..|a| + |m|] == m
      && OccursAt(b, t, |a| + |m|)
      && OccursAt(b, c, |b| - |c|)
  {
    var b := a + m + t + x + c;
    assert b == [] + a + (m + t + x + c);
    OccursBetween([], a, m + t + x + c);
    assert b == (a + m) + t + (x + c);
    OccursBetween(a + m, t, x + c);
    assert b == (a + m + t + x) + c + [];
    OccursBetween(a + m + t + x, c, []);
  }

  /** When the entries, the time stamp and the words' tails hold no `#`, a block holds
      exactly three: at the opening word, at the tag and at the closing word. */
  lemma FrameHashes(opener: string, tag: string, closer: string, le: string, data: string, utime: string)
    requires HashLed(opener) && HashLed(tag) && HashLed(closer)
    requires '#' !in le && '#' !in data && '#' !in utime
    ensures var b := Frame(opener, tag, closer, le, data, utime);
      forall j :: HashAt(b, j) ==> j == 0 || j == LabelOffset(opener, le, data) || j == |b| - |closer|
  {
    var mid := le + le + data + le + le;
    var tail := ": " + utime + le + le;
    var b := Frame(opener, tag, closer, le, data, utime);
    assert b == opener + mid + tag + tail + closer;
    assert '#' !in mid && '#' !in tail;
    var u := |opener| + |mid|;
    var e := |b| - |closer|;
    forall j | 0 < j < |b| && j != u && j != e ensures !HashAt(b, j) {
      if j < |opener| {
        assert b[j] == opener[j] && PlainAt(opener, j);
      } else if j < u {
        assert b[j] == mid[j - |opener|];
      } else if j < u + |tag| {
        assert b[j] == tag[j - u] && PlainAt(tag, j - u);
      } else if j < e {
        assert b[j] == tail[j - u - |tag|];
      } else {
        assert b[j] == closer[j - e] && PlainAt(closer, j - e);
      }
    }
  }

  // ---------------------------------------------------------------------------
  // Finding the block
  // ---------------------------------------------------------------------------

  /** The leftmost match of `opener[\s\S]*?closer` at or after `from`, as `(start,
      end)` with the end exclusive: the first `opener`, and the first `closer` after it. */
  function SpanFrom(s: string, opener: string, closer: string, from: nat): (r: Option<(nat, nat)>)
    ensures r.Some? ==> var (p, e) := r.value;
      && from <= p && OccursAt(s, opener, p) && p + |opener| + |closer| <= e <= |s|
      && OccursAt(s, closer, e - |closer|)
      && (forall j :: from <= j < p ==> !OccursAt(s, opener, j))
      && (forall j :: p + |opener| <= j < e - |closer| ==> !OccursAt(s, closer, j))
    ensures r.None? ==> forall p, q :: from <= p && OccursAt(s, opener, p) && p + |opener| <= q ==> !OccursAt(s, closer, q)
  {
    match Find(s, opener, from)
    case None => None
    case Some(p) =>
      match Find(s, closer, p + |opener|)
      case None => None
      case Some(q) => Some((p, q + |closer|))
  }

  /** The leftmost match in the whole text. */
  function FirstSpan(s: string, opener: string, closer: string): (r: Option<(nat, nat)>)
    ensures r.Some? ==> var (p, e) := r.value;
      && OccursAt(s, opener, p) && p + |opener| + |closer| <= e <= |s|
      && OccursAt(s, closer, e - |closer|)
      && (forall j :: 0 <= j < p ==> !OccursAt(s, opener, j))
      && (forall j :: p + |opener| <= j < e - |closer| ==> !OccursAt(s, closer, j))
    ensures r.None? ==> forall p, q :: OccursAt(s, opener, p) && p + |opener| <= q ==> !OccursAt(s, closer, q)
  {
    SpanFrom(s, opener, closer, 0)
  }

  /** `s.replace(new RegExp(`${opener}[\s\S]*?${closer}`), block)`: the first span is
      replaced and the text around it kept; without a span the text is unchanged. */
  function Replace(s: string, opener: string, closer: string, block: string): (t: string)
    ensures FirstSpan(s, opener, closer).None? ==> t == s
    ensures FirstSpan(s, opener, closer).Some? ==> var (p, e) := FirstSpan(s, opener, closer).value;
      t == s[..p] + block + s[e..]
  {
    match FirstSpan(s, opener, closer)
    case None => s
    case Some((p, e)) => s[..p] + block + s[e..]
  }

  /** Group 1 of `opener([\s\S]*)tag[\s\S]*closer` as the source writes it: from the
      first `opener` to the last `tag` that some `closer` still follows. */
  function GreedyCapture(s: string, opener: string, tag: string, closer: string): Option<string>
  {
    match Find(s, opener, 0)
    case None => None
    case Some(p) =>
      match FindLast(s, closer, 0, |s|)
      case None => None
      case Some(v) =>
        match FindLast(s, tag, p + |opener|, v)
        case None => None
        case Some(u) => Some(s[p + |opener|..u])
  }

  /** The text from `from` to the last `tag` that ends by `to`, if there is one. */
  function LabelCapture(s: string, from: nat, to: nat, tag: string): (r: Option<string>)
    requires from <= to <= |s|
    ensures r.Some? ==> exists u ::
              && from <= u && u + |tag| <= to
              && OccursAt(s, tag, u) && r.value == s[from..u]
    ensures r.None? ==> forall u :: from <= u && u + |tag| <= to ==> !OccursAt(s, tag, u)
  {
    match FindLast(s, tag, from, to)
    case None => None
    case Some(u) => Some(s[from..u])
  }

  // ---------------------------------------------------------------------------
  // The decision
  // ---------------------------------------------------------------------------

  /** What a run does to the hosts text: nothing, or write a new text. */
  datatype Plan = UpToDate | Rewrite(text: string)

  /** The patch as lines 163-177 of hosts.ts write it, for any framing words: the
      greedy capture decides whether the entries are up to date, and the lazy
      replacement rewrites the first span. */
  function AsWrittenFor(s: string, opener: string, tag: string, closer: string, le: string, data: string, utime: string): Plan
  {
    var block := Frame(opener, tag, closer, le, data, utime);
    match GreedyCapture(s, opener, tag, closer)
    case Some(held) => if Trim(held) == Trim(data) then UpToDate else Rewrite(Replace(s, opener, closer, block))
    case None => Rewrite(s + le + block)
  }

  /** The patch as lines 156-178 of hosts.ts write it, for the current text `s`, the
      kept entries `hosts` and the time stamp `utime`. */
  function PlanAsWritten(s: string, hosts: seq<HostsData.HostEntry>, utime: string): Plan
  {
    var le := LineEnding(s);
    AsWrittenFor(s, StartMarker, UpdateLabel, EndMarker, le, HostsData.BuildHosts(hosts, le), utime)
  }

  /** The patch with the up-to-date test confined to the span it replaces, for any
      framing words: the first span's entries are compared and, when stale or
      unlabelled, the span is replaced; without a span the block is appended. */
  function PatchFor(s: string, opener: string, tag: string, closer: string, le: string, data: string, utime: string): Plan
  {
    var block := Frame(opener, tag, closer, le, data, utime);
    match FirstSpan(s, opener, closer)
    case None => Rewrite(s + le + block)
    case Some((p, e)) =>
      var held := LabelCapture(s, p + |opener|, e - |closer|, tag);
      if held.Some? && Trim(held.value) == Trim(data) then UpToDate else Rewrite(s[..p] + block + s[e..])
  }

  /** The corrected patch with the configured markers. */
  function PlanPatch(s: string, hosts: seq<HostsData.HostEntry>, utime: string): Plan
  {
    var le := LineEnding(s);
    PatchFor(s, StartMarker, UpdateLabel, EndMarker, le, HostsData.BuildHosts(hosts, le), utime)
  }

  // ---------------------------------------------------------------------------
  // A second run with the same entries changes nothing
  // ---------------------------------------------------------------------------

  /** No entry holds a `#`. */
  predicate HashFree(hosts: seq<HostsData.HostEntry>)
  {
    forall k :: 0 <= k < |hosts| ==> '#' !in hosts[k].ip && '#' !in hosts[k].name
  }

  /** When `opener` sits at `p` and no `#` comes before it at a distance shorter than
      `opener`, the first `opener` from the start is the one at `p`. */
  lemma FirstOpener(t: string, opener: string, p: nat)
    requires HashLed(opener) && OccursAt(t, opener, p)
    requires forall j :: 0 <= j && j + |opener| <= p ==> !OccursAt(t, opener, j)
    ensures Find(t, opener, 0) == Some(p)
  {
    OccursAtChar(t, opener, p, 0);
    forall j | 0 <= j < p ensures !OccursAt(t, opener, j) {
      if j + |opener| > p {
        assert PlainAt(opener, p - j);
        Mismatch(t, opener, j, p - j);
      }
    }
  }

  /** When the only `#` between `from` and the `closer` at `e` leads the tag, the first
      `closer` from `from` is the one at `e`. */
  lemma FirstCloser(t: string, closer: string, tag: string, from: nat, u: nat, e: nat)
    requires HashLed(closer) && HashLed(tag) && tag[1] != closer[1]
    requires OccursAt(t, closer, e) && OccursAt(t, tag, u) && from <= e
    requires forall j :: from <= j < e && HashAt(t, j) ==> j == u
    ensures Find(t, closer, from) == Some(e)
  {
    forall j | from <= j < e ensures !OccursAt(t, closer, j) {
      if j == u {
        OccursAtChar(t, tag, u, 1);
        Mismatch(t, closer, j, 1);
      } else {
        assert !HashAt(t, j);
        Mismatch(t, closer, j, 0);
      }
    }
  }

  /** When the only `#` between `from` and `to` leads the tag at `u`, the last tag that ends by `to`
      is the one at `u`. */
  lemma LastTag(t: string, tag: string, from: nat, u: nat, to: nat)
    requires HashLed(tag) && OccursAt(t, tag, u) && from <= u && u + |tag| <= to <= |t|
    requires forall j :: from <= j < to && HashAt(t, j) ==> j == u
    ensures FindLast(t, tag, from, to) == Some(u)
  {
    forall j | u < j && j + |tag| <= to ensures !OccursAt(t, tag, j) {
      assert !HashAt(t, j);
      Mismatch(t, tag, j, 0);
    }
  }

  /** The span is read off the two searches that find it. */
  lemma SpanOf(t: string, opener: string, closer: string, from: nat, p: nat, end: nat)
    requires |closer| <= end
    requires Find(t, opener, from) == Some(p) && Find(t, closer, p + |opener|) == Some(end - |closer|)
    ensures SpanFrom(t, opener, closer, from) == Some((p, end))
  {
  }

  /** Text without `w` keeps none at the front of a longer text. */
  lemma PrefixFree(pre: string, rest: string, w: string)
    requires forall j :: !OccursAt(pre, w, j)
    ensures forall j :: 0 <= j && j + |w| <= |pre| ==> !OccursAt(pre + rest, w, j)
  {
    forall j | 0 <= j && j + |w| <= |pre| ensures !OccursAt(pre + rest, w, j) {
      assert (pre + rest)[j..j + |w|] == pre[j..j + |w|];
      assert !OccursAt(pre, w, j);
      OccursAtSlice(pre, w, j);
      OccursAtSlice(pre + rest, w, j);
    }
  }

  /** A slice of `b` is the matching slice of `pre + b + post`. */
  lemma Embedded(pre: string, b: string, post: string, i: nat, j: nat)
    requires i <= j <= |b|
    ensures (pre + b + post)[|pre| + i..|pre| + j] == b[i..j]
  {
  }

  /** Where the three words sit in a text with no `#` between them but the tag's,
      and no `opener` before a distance of `opener` from the first, they make the
      first span, ending at `end`, and the tag found in it is theirs. */
  lemma SpanInText(t: string, opener: string, tag: string, closer: string, p: nat, u: nat, end: nat)
    requires Framing(opener, tag, closer)
    requires p + |opener| <= u && u + |tag| + |closer| <= end
    requires OccursAt(t, opener, p) && OccursAt(t, tag, u) && OccursAt(t, closer, end - |closer|)
    requires forall j :: 0 <= j && j + |opener| <= p ==> !OccursAt(t, opener, j)
    requires forall j :: p + |opener| <= j < end - |closer| && HashAt(t, j) ==> j == u
    ensures FirstSpan(t, opener, closer) == Some((p, end))
    ensures LabelCapture(t, p + |opener|, end - |closer|, tag) == Some(t[p + |opener|..u])
  {
    var e := end - |closer|;
    FirstOpener(t, opener, p);
    FirstCloser(t, closer, tag, p + |opener|, u, e);
    SpanOf(t, opener, closer, 0, p, end);
    LastTag(t, tag, p + |opener|, u, e);
  }

  /** The `#` of `b` are where they were, shifted by `|pre|`, in `pre + b + post`. */
  lemma HashesShifted(pre: string, b: string, post: string, lo: nat, u: nat, e: nat)
    requires lo <= e <= |b|
    requires forall j :: lo <= j < e && HashAt(b, j) ==> j == u
    ensures forall j :: |pre| + lo <= j < |pre| + e && HashAt(pre + b + post, j) ==> j == |pre| + u
  {
    forall j | |pre| + lo <= j < |pre| + e && HashAt(pre + b + post, j) ensures j == |pre| + u {
      assert (pre + b + post)[j] == b[j - |pre|];
      assert HashAt(b, j - |pre|);
    }
  }

  /** What a text with its three `#` at the opener, the tag and the closer brings to
      `pre + b + post` when `pre` holds no opener. */
  lemma PlacedWords(pre: string, b: string, post: string, opener: string, tag: string, closer: string, u: nat)
    requires forall j :: !OccursAt(pre, opener, j)
    requires 1 <= |opener| <= u && u + |tag| <= |b| - |closer|
    requires OccursAt(b, opener, 0) && OccursAt(b, tag, u) && OccursAt(b, closer, |b| - |closer|)
    requires forall j :: HashAt(b, j) ==> j == 0 || j == u || j == |b| - |closer|
    ensures var t, p := pre + b + post, |pre|;
      && OccursAt(t, opener, p) && OccursAt(t, tag, p + u) && OccursAt(t, closer, p + |b| - |closer|)
      && (forall j :: 0 <= j && j + |opener| <= p ==> !OccursAt(t, opener, j))
      && (forall j :: p + |opener| <= j < p + |b| - |closer| && HashAt(t, j) ==> j == p + u)
  {
    var t := pre + b + post;
    var p, e := |pre|, |b| - |closer|;
    Embedded(pre, b, post, 0, |opener|);
    Embedded(pre, b, post, u, u + |tag|);
    Embedded(pre, b, post, e, |b|);
    OccursAtSlice(b, opener, 0);
    OccursAtSlice(t, opener, p);
    OccursAtSlice(b, tag, u);
    OccursAtSlice(t, tag, p + u);
    OccursAtSlice(b, closer, e);
    OccursAtSlice(t, closer, p + e);
    PrefixFree(pre, b + post, opener);
    assert pre + (b + post) == t;
    HashesShifted(pre, b, post, |opener|, u, e);
  }

  /** A text with its three `#` at the opener, the tag and the closer, placed after
      text without an opener, is the first span of the result, and the text captured
      inside it runs from the opener to the tag. */
  lemma PlacedSpan(pre: string, b: string, post: string, opener: string, tag: string, closer: string, u: nat)
    requires Framing(opener, tag, closer)
    requires forall j :: !OccursAt(pre, opener, j)
    requires |opener| <= u && u + |tag| <= |b| - |closer|
    requires OccursAt(b, opener, 0) && OccursAt(b, tag, u) && OccursAt(b, closer, |b| - |closer|)
    requires forall j :: HashAt(b, j) ==> j == 0 || j == u || j == |b| - |closer|
    ensures FirstSpan(pre + b + post, opener, closer) == Some((|pre|, |pre| + |b|))
    ensures LabelCapture(pre + b + post, |pre| + |opener|, |pre| + |b| - |closer|, tag) == Some(b[|opener|..u])
  {
    PlacedWords(pre, b, post, opener, tag, closer, u);
    SpanInText(pre + b + post, opener, tag, closer, |pre|, |pre| + u, |pre| + |b|);
    Embedded(pre, b, post, |opener|, u);
  }

  /** A block meets what `PlacedSpan` asks of the text it places. */
  lemma FrameReady(opener: string, tag: string, closer: string, le: string, data: string, utime: string)
    requires HashLed(opener) && HashLed(tag) && HashLed(closer)
    requires '#' !in le && '#' !in data && '#' !in utime
    ensures var b, u := Frame(opener, tag, closer, le, data, utime), LabelOffset(opener, le, data);
      && |opener| <= u && u + |tag| <= |b| - |closer|
      && OccursAt(b, opener, 0) && OccursAt(b, tag, u) && OccursAt(b, closer, |b| - |closer|)
      && (forall j :: HashAt(b, j) ==> j == 0 || j == u || j == |b| - |closer|)
      && b[|opener|..u] == le + le + data + le + le
  {
    FrameLayout(opener, tag, closer, le, data, utime);
    FrameHashes(opener, tag, closer, le, data, utime);
  }

  /** A block placed after text without an opening word is the first span of the
      result, and the text captured inside it is the padded entries. */
  lemma PlacedFrame(pre: string, b: string, post: string, opener: string, tag: string, closer: string, le: string, data: string, utime: string)
    requires b == Frame(opener, tag, closer, le, data, utime)
    requires Framing(opener, tag, closer)
    requires '#' !in le && '#' !in data && '#' !in utime
    requires forall j :: !OccursAt(pre, opener, j)
    ensures FirstSpan(pre + b + post, opener, closer) == Some((|pre|, |pre| + |b|))
    ensures LabelCapture(pre + b + post, |pre| + |opener|, |pre| + |b| - |closer|, tag) == Some(le + le + data + le + le)
  {
    FrameReady(opener, tag, closer, le, data, utime);
    PlacedSpan(pre, b, post, opener, tag, closer, LabelOffset(opener, le, data));
  }

  /** The line endings count as white space, so trimming the captured text gives the
      trimmed entries. */
  lemma PaddedTrim(le: string, data: string)
    requires IsLineEnding(le)
    ensures Trim(le + le + data + le + le) == Trim(data)
  {
    assert AllSpace(le + le);
    assert le + le + data + le + le == (le + le) + data + (le + le);
    TrimPadded(le + le, data, le + le);
  }

  /** A first span that holds the padded entries before its label leaves the text alone. */
  lemma SpanUpToDate(s: string, opener: string, tag: string, closer: string, le: string, data: string, utime: string, p: nat, e: nat)
    requires IsLineEnding(le)
    requires FirstSpan(s, opener, closer) == Some((p, e))
    requires LabelCapture(s, p + |opener|, e - |closer|, tag) == Some(le + le + data + le + le)
    ensures PatchFor(s, opener, tag, closer, le, data, utime) == UpToDate
  {
    PaddedTrim(le, data);
    SpanFresh(s, opener, tag, closer, le, data, utime, p, e, le + le + data + le + le);
  }

  /** A first span whose labelled text trims to the entries leaves the text alone. */
  lemma SpanFresh(s: string, opener: string, tag: string, closer: string, le: string, data: string, utime: string, p: nat, e: nat, held: string)
    requires FirstSpan(s, opener, closer) == Some((p, e))
    requires LabelCapture(s, p + |opener|, e - |closer|, tag) == Some(held)
    requires Trim(held) == Trim(data)
    ensures PatchFor(s, opener, tag, closer, le, data, utime) == UpToDate
  {
  }

  /** Once a block sits in the text after text without an opening word, a run with
      the same entries finds it up to date. */
  lemma PlacedUpToDate(pre: string, post: string, opener: string, tag: string, closer: string, le: string, data: string, utime: string, utime2: string)
    requires Framing(opener, tag, closer)
    requires IsLineEnding(le) && '#' !in data && '#' !in utime
    requires forall j :: !OccursAt(pre, opener, j)
    ensures PatchFor(pre + Frame(opener, tag, closer, le, data, utime) + post, opener, tag, closer, le, data, utime2) == UpToDate
  {
    var b := Frame(opener, tag, closer, le, data, utime);
    PlacedFrame(pre, b, post, opener, tag, closer, le, data, utime);
    SpanUpToDate(pre + b + post, opener, tag, closer, le, data, utime2, |pre|, |pre| + |b|);
  }

  /** Text before the first `opener` holds no `opener`. */
  lemma NoneBefore(s: string, opener: string, p: nat)
    requires |opener| >= 1 && p <= |s| && forall j :: 0 <= j < p ==> !OccursAt(s, opener, j)
    ensures forall j :: !OccursAt(s[..p], opener, j)
  {
    forall j | OccursAt(s[..p], opener, j) ensures OccursAt(s, opener, j) {
      OccursAtSlice(s[..p], opener, j);
      assert s[..p][j..j + |opener|] == s[j..j + |opener|];
      OccursAtSlice(s, opener, j);
    }
  }

  /** A line ending after a text without `opener` adds none. */
  lemma NoneAppended(s: string, opener: string, le: string)
    requires HashLed(opener) && IsLineEnding(le)
    requires forall j :: !OccursAt(s, opener, j)
    ensures forall j :: !OccursAt(s + le, opener, j)
  {
    var t := s + le;
    forall j ensures !OccursAt(t, opener, j) {
      if 0 <= j && j + |opener| <= |s| {
        assert t[j..j + |opener|] == s[j..j + |opener|];
        OccursAtSlice(s, opener, j);
        OccursAtSlice(t, opener, j);
      } else if 0 <= j && j + |opener| <= |t| {
        assert PlainAt(opener, |opener| - 1);
        Mismatch(t, opener, j, |opener| - 1);
      }
    }
  }

  /** Text after a stretch `x` that ends in no terminator can be swapped for text
      that starts with two copies of the line ending without changing it. */
  lemma SwappedTail(x: string, y: string, z: string, le: string)
    requires |x| >= 1 && !IsTerminator(x[|x| - 1])
    requires le == LineEnding(x + y)
    requires |z| >= 2 * |le| && z[..2 * |le|] == le + le
    ensures LineEnding(x + z) == le
  {
    if FirstTerminator(x) < |x| {
      LineEndingAppend(x, y);
      LineEndingAppend(x, z);
    } else {
      var rest := z[|le|..];
      assert z == le + rest;
      assert rest[0] == le[0];
      assert x + z == x + le + rest;
      LineEndingAfter(x, le, rest);
    }
  }

  /** Replacing the first span by a block that opens with `opener` and two copies of
      the text's line ending keeps that line ending. */
  lemma SplicedLineEnding(s: string, opener: string, p: nat, e: nat, b: string, le: string)
    requires HashLed(opener) && OccursAt(s, opener, p) && p + |opener| <= e <= |s|
    requires le == LineEnding(s)
    requires |b| >= |opener| + 2 * |le| && b[..|opener| + 2 * |le|] == opener + le + le
    ensures LineEnding(s[..p] + b + s[e..]) == le
  {
    var x := s[..p] + opener;
    OccursAtSlice(s, opener, p);
    assert x[|x| - 1] == opener[|opener| - 1] && PlainAt(opener, |opener| - 1);
    assert x == s[..p + |opener|];
    assert s == x + s[p + |opener|..];
    var z := b[|opener|..] + s[e..];
    assert s[..p] + b + s[e..] == x + z by {
      assert b == opener + b[|opener|..];
    }
    var head := b[..|opener| + 2 * |le|];
    assert b[|opener|..][..2 * |le|] == head[|opener|..];
    assert (opener + le + le)[|opener|..] == le + le;
    assert z[..2 * |le|] == le + le;
    SwappedTail(x, s[p + |opener|..], z, le);
  }

  /** Swapping one stretch that opens with `opener` and two line endings for another
      keeps the line ending of the text. */
  lemma SwappedBlockLineEnding(pre: string, b0: string, b: string, post: string, opener: string, le: string)
    requires HashLed(opener)
    requires |b0| >= |opener| && b0[..|opener|] == opener
    requires |b| >= |opener| + 2 * |le| && b[..|opener| + 2 * |le|] == opener + le + le
    requires le == LineEnding(pre + b0 + post)
    ensures LineEnding(pre + b + post) == le
  {
    var x := pre + opener;
    assert x[|x| - 1] == opener[|opener| - 1] && PlainAt(opener, |opener| - 1);
    assert pre + b0 + post == x + (b0[|opener|..] + post) by {
      assert b0 == opener + b0[|opener|..];
    }
    var z := b[|opener|..] + post;
    assert pre + b + post == x + z by {
      assert b == opener + b[|opener|..];
    }
    assert z[..2 * |le|] == b[|opener|..|opener| + 2 * |le|];
    assert (opener + le + le)[|opener|..] == le + le;
    SwappedTail(x, b0[|opener|..] + post, z, le);
  }

  /** Swapping one block for another keeps the line ending of the text. */
  lemma SwappedFrameLineEnding(pre: string, b0: string, b: string, post: string, opener: string, tag: string, closer: string,
                               le: string, data0: string, utime0: string, data: string, utime: string)
    requires HashLed(opener)
    requires b0 == Frame(opener, tag, closer, le, data0, utime0) && b == Frame(opener, tag, closer, le, data, utime)
    requires le == LineEnding(pre + b0 + post)
    ensures LineEnding(pre + b + post) == le
  {
    FrameLayout(opener, tag, closer, le, data0, utime0);
    FrameLayout(opener, tag, closer, le, data, utime);
    OccursAtSlice(b0, opener, 0);
    assert b[..|opener| + 2 * |le|] == opener + le + le by {
      OccursAtSlice(b, opener, 0);
      assert b[|opener|..LabelOffset(opener, le, data)] == le + le + data + le + le;
    }
    SwappedBlockLineEnding(pre, b0, b, post, opener, le);
  }

  /** Appending a block after the text's own line ending keeps that line ending. */
  lemma AppendedLineEnding(s: string, b: string, le: string)
    requires le == LineEnding(s)
    ensures LineEnding(s + le + b) == le
  {
    if FirstTerminator(s) < |s| {
      assert s + le + b == s + (le + b);
      LineEndingAppend(s, le + b);
    } else {
      LineEndingAfter(s, le, b);
    }
  }

  /** Running the patch twice with the same entries writes once, for any framing
      words: the new text keeps the line ending, and the second run finds its own
      block and stops. */
  lemma PatchIdempotent(s: string, opener: string, tag: string, closer: string, data: string, utime: string, utime2: string)
    requires Framing(opener, tag, closer)
    requires '#' !in data && '#' !in utime
    requires FirstSpan(s, opener, closer).Some? || Find(s, opener, 0).None?
    requires PatchFor(s, opener, tag, closer, LineEnding(s), data, utime).Rewrite?
    ensures var t := PatchFor(s, opener, tag, closer, LineEnding(s), data, utime).text;
      && LineEnding(t) == LineEnding(s)
      && PatchFor(t, opener, tag, closer, LineEnding(s), data, utime2) == UpToDate
  {
    var le := LineEnding(s);
    var b := Frame(opener, tag, closer, le, data, utime);
    FrameLayout(opener, tag, closer, le, data, utime);
    match FirstSpan(s, opener, closer)
    case Some((p, e)) =>
      NoneBefore(s, opener, p);
      assert b[..|opener| + 2 * |le|] == opener + le + le;
      SplicedLineEnding(s, opener, p, e, b, le);
      PlacedUpToDate(s[..p], s[e..], opener, tag, closer, le, data, utime, utime2);
    case None =>
      NoneAppended(s, opener, le);
      AppendedLineEnding(s, b, le);
      assert s + le + b == (s + le) + b + [];
      PlacedUpToDate(s + le, [], opener, tag, closer, le, data, utime, utime2);
  }

  /** Running the patch twice with the same entries writes once: the second run finds
      its own block and stops. This needs a file with a complete span or without a
      start marker; a start marker without an end marker after it is first closed
      off by an appended block, and the run after that rewrites once more. */
  lemma PlanIdempotent(s: string, hosts: seq<HostsData.HostEntry>, utime: string, utime2: string)
    requires HashFree(hosts) && '#' !in utime
    requires FirstSpan(s, StartMarker, EndMarker).Some? || Find(s, StartMarker, 0).None?
    requires PlanPatch(s, hosts, utime).Rewrite?
    ensures PlanPatch(PlanPatch(s, hosts, utime).text, hosts, utime2) == UpToDate
  {
    var le := LineEnding(s);
    HostsData.BuildHostsAvoids(hosts, le, '#');
    MarkerFacts();
    PatchIdempotent(s, StartMarker, UpdateLabel, EndMarker, HostsData.BuildHosts(hosts, le), utime, utime2);
  }

  /** Entries kept from host names without `#` hold no `#`: each address passed
      `validateIP`, so it is made of hex digits, dots and colons. */
  lemma KeptHashFree(urls: seq<string>, results: seq<Settled<string>>)
    requires |results| == |urls|
    requires forall i :: 0 <= i < |urls| ==> '#' !in urls[i]
    ensures HashFree(HostsData.Kept(urls, results))
  {
    var ks := HostsData.Kept(urls, results);
    HostsData.KeptAtIndices(urls, results);
    forall j, c | 0 <= j < |ks| && c in ks[j].ip ensures c != '#' {
      HostsData.KeptAreAddresses(urls, results, j, c);
    }
  }

  // ---------------------------------------------------------------------------
  // The greedy up-to-date test of the source
  // ---------------------------------------------------------------------------

  /** An occurrence in `b` is one in `pre + b + post`, shifted by `|pre|`. */
  lemma ShiftedOccurrence(pre: string, b: string, post: string, w: string, i: nat)
    requires OccursAt(b, w, i)
    ensures OccursAt(pre + b + post, w, |pre| + i)
  {
    OccursAtSlice(b, w, i);
    Embedded(pre, b, post, i, i + |w|);
    OccursAtSlice(pre + b + post, w, |pre| + i);
  }

  /** The rightmost search finds the occurrence at `u` or one further right. */
  lemma FindLastReaches(s: string, w: string, lo: nat, hi: nat, u: nat)
    requires lo <= u && u + |w| <= hi <= |s| && OccursAt(s, w, u)
    ensures FindLast(s, w, lo, hi).Some? && u <= FindLast(s, w, lo, hi).value
  {
  }

  /** A capture holding a `#` never trims to entries without one. */
  lemma HashedStale(held: string, data: string, k: nat)
    requires k < |held| && held[k] == '#' && '#' !in data
    ensures Trim(held) != Trim(data)
  {
    TrimKeeps(held, k);
    forall c | c in Trim(data) ensures c in data {
      TrimChars(data, c);
    }
  }

  /** When the first span starts the text and a tag after it is still followed by a
      closer, the greedy capture runs past the span's own closer, so it holds that
      closer's `#`. */
  lemma GreedyHeld(t: string, opener: string, tag: string, closer: string, e: nat, u: nat)
    requires HashLed(closer)
    requires FirstSpan(t, opener, closer) == Some((0, e))
    requires e <= u && u + |tag| + |closer| <= |t|
    requires OccursAt(t, tag, u) && OccursAt(t, closer, |t| - |closer|)
    ensures var g := GreedyCapture(t, opener, tag, closer);
      g.Some? && e - |closer| - |opener| < |g.value| && g.value[e - |closer| - |opener|] == '#'
  {
    var v := |t| - |closer|;
    assert Find(t, opener, 0) == Some(0);
    assert FindLast(t, closer, 0, |t|) == Some(v);
    FindLastReaches(t, tag, |opener|, v, u);
    var w := FindLast(t, tag, |opener|, v).value;
    OccursAtChar(t, closer, e - |closer|, 0);
    assert t[|opener|..w][e - |closer| - |opener|] == '#';
  }

  /** A greedy capture that does not trim to the entries makes the source replace
      the first span. */
  lemma StaleReplaces(s: string, opener: string, tag: string, closer: string, le: string, data: string, utime: string, held: string)
    requires GreedyCapture(s, opener, tag, closer) == Some(held)
    requires Trim(held) != Trim(data)
    ensures AsWrittenFor(s, opener, tag, closer, le, data, utime) == Rewrite(Replace(s, opener, closer, Frame(opener, tag, closer, le, data, utime)))
  {
  }

  /** Replacing a first span that starts the text keeps what follows it. */
  lemma ReplaceFirst(t: string, opener: string, closer: string, block: string, e: nat)
    requires FirstSpan(t, opener, closer) == Some((0, e))
    ensures Replace(t, opener, closer, block) == block + t[e..]
  {
  }

  /** So the source replaces the first span whatever the entries are. */
  lemma GreedyStale(t: string, opener: string, tag: string, closer: string, le: string, data: string, utime: string, e: nat, u: nat)
    requires HashLed(closer) && '#' !in data
    requires FirstSpan(t, opener, closer) == Some((0, e))
    requires e <= u && u + |tag| + |closer| <= |t|
    requires OccursAt(t, tag, u) && OccursAt(t, closer, |t| - |closer|)
    ensures AsWrittenFor(t, opener, tag, closer, le, data, utime) == Rewrite(Frame(opener, tag, closer, le, data, utime) + t[e..])
  {
    GreedyHeld(t, opener, tag, closer, e, u);
    var held := GreedyCapture(t, opener, tag, closer).value;
    HashedStale(held, data, e - |closer| - |opener|);
    StaleReplaces(t, opener, tag, closer, le, data, utime, held);
    ReplaceFirst(t, opener, closer, Frame(opener, tag, closer, le, data, utime), e);
  }

  /** When a span `b1` starts the text and some text `b2` that holds a tag and ends
      with a closer follows it, the source replaces `b1` and keeps the rest. */
  lemma GreedyAfterSpan(b1: string, mid: string, b2: string, opener: string, tag: string, closer: string, le: string, data: string, utime: string, u: nat)
    requires HashLed(closer) && '#' !in data
    requires FirstSpan(b1 + mid + b2, opener, closer).Some? && FirstSpan(b1 + mid + b2, opener, closer).value == (0, |b1|)
    requires u + |tag| + |closer| <= |b2|
    requires OccursAt(b2, tag, u) && OccursAt(b2, closer, |b2| - |closer|)
    ensures AsWrittenFor(b1 + mid + b2, opener, tag, closer, le, data, utime) == Rewrite(Frame(opener, tag, closer, le, data, utime) + (mid + b2))
  {
    TailWords(b1 + mid, b2, tag, closer, u);
    GreedyStale(b1 + mid + b2, opener, tag, closer, le, data, utime, |b1|, |b1 + mid| + u);
    DropFront(b1, mid, b2);
  }

  /** A tag and a final closer of `b` are found, shifted, in `pre + b`. */
  lemma TailWords(pre: string, b: string, tag: string, closer: string, u: nat)
    requires u + |tag| + |closer| <= |b|
    requires OccursAt(b, tag, u) && OccursAt(b, closer, |b| - |closer|)
    ensures OccursAt(pre + b, tag, |pre| + u) && OccursAt(pre + b, closer, |pre + b| - |closer|)
  {
    assert pre + b == pre + b + [];
    ShiftedOccurrence(pre, b, [], tag, u);
    ShiftedOccurrence(pre, b, [], closer, |b| - |closer|);
  }

  /** Dropping a prefix leaves the rest. */
  lemma DropFront(x: string, y: string, z: string)
    ensures (x + y + z)[|x|..] == y + z
  {
  }

  /** A text of two blocks, the shape the source leaves behind, is rewritten on every
      run: the first block is replaced and the second kept, so the next run meets the
      same shape again and the file is never found up to date. */
  lemma AsWrittenNeverSettles(b1: string, b2: string, opener: string, tag: string, closer: string, le: string, data: string, utime1: string, utime2: string, utime: string)
    requires Framing(opener, tag, closer)
    requires IsLineEnding(le) && '#' !in data && '#' !in utime1 && '#' !in utime2
    requires b1 == Frame(opener, tag, closer, le, data, utime1) && b2 == Frame(opener, tag, closer, le, data, utime2)
    ensures AsWrittenFor(b1 + (le + le) + b2, opener, tag, closer, le, data, utime) == Rewrite(Frame(opener, tag, closer, le, data, utime) + (le + le + b2))
  {
    assert b1 + (le + le) + b2 == [] + b1 + (le + le + b2);
    PlacedFrame([], b1, le + le + b2, opener, tag, closer, le, data, utime1);
    FrameReady(opener, tag, closer, le, data, utime2);
    GreedyAfterSpan(b1, le + le, b2, opener, tag, closer, le, data, utime, LabelOffset(opener, le, data));
  }

  /** A start marker and an end marker with a line ending between them hold no tag. */
  lemma BareUntagged(opener: string, tag: string, closer: string, le: string)
    requires Framing(opener, tag, closer) && IsLineEnding(le)
    ensures forall j :: !OccursAt(opener + le + closer + le, tag, j)
  {
    var s := opener + le + closer + le;
    var c := |opener| + |le|;
    forall j | 0 <= j && j + |tag| <= |s| ensures !OccursAt(s, tag, j) {
      if j == 0 {
        assert s[1] == opener[1];
        Mismatch(s, tag, j, 1);
      } else if j == c {
        assert s[c + 1] == closer[1];
        Mismatch(s, tag, j, 1);
      } else if j < |opener| {
        assert s[j] == opener[j] && PlainAt(opener, j);
        Mismatch(s, tag, j, 0);
      } else if j < c {
        assert s[j] == le[j - |opener|];
        Mismatch(s, tag, j, 0);
      } else if j < c + |closer| {
        assert s[j] == closer[j - c] && PlainAt(closer, j - c);
        Mismatch(s, tag, j, 0);
      } else {
        assert s[j] == le[j - c - |closer|];
        Mismatch(s, tag, j, 0);
      }
    }
  }

  /** A bare pair of markers at the start of a text is its first span. */
  lemma BareSpan(opener: string, closer: string, le: string, rest: string)
    requires HashLed(opener) && HashLed(closer) && IsLineEnding(le)
    ensures FirstSpan(opener + le + closer + rest, opener, closer).Some?
    ensures FirstSpan(opener + le + closer + rest, opener, closer).value == (0, |opener| + |le| + |closer|)
  {
    var t := opener + le + closer + rest;
    var c := |opener| + |le|;
    var e: nat := c + |closer|;
    assert t == [] + opener + (le + closer + rest);
    OccursBetween([], opener, le + closer + rest);
    OccursBetween(opener + le, closer, rest);
    forall j | |opener| <= j < c ensures !OccursAt(t, closer, j) {
      assert t[j] == le[j - |opener|];
      Mismatch(t, closer, j, 0);
    }
    assert Find(t, opener, 0) == Some(0);
    assert Find(t, closer, |opener|) == Some(c);
    SpanOf(t, opener, closer, 0, 0, e);
  }

  /** A bare pair of markers holds no tag, so the source appends a block after it. */
  lemma AsWrittenAppendsToBare(opener: string, tag: string, closer: string, le: string, data: string, utime: string)
    requires Framing(opener, tag, closer) && IsLineEnding(le)
    ensures var s := opener + le + closer + le;
      AsWrittenFor(s, opener, tag, closer, le, data, utime) == Rewrite(s + le + Frame(opener, tag, closer, le, data, utime))
  {
    var s := opener + le + closer + le;
    BareUntagged(opener, tag, closer, le);
    assert GreedyCapture(s, opener, tag, closer).None?;
  }

  /** The run after that finds the bare pair as the first span and replaces it,
      which leaves two blocks. */
  lemma AsWrittenReplacesBare(bare: string, b1: string, opener: string, tag: string, closer: string, le: string, data: string, utime1: string, utime2: string)
    requires Framing(opener, tag, closer)
    requires IsLineEnding(le) && '#' !in data && '#' !in utime1
    requires bare == opener + le + closer && b1 == Frame(opener, tag, closer, le, data, utime1)
    ensures AsWrittenFor(bare + (le + le) + b1, opener, tag, closer, le, data, utime2)
      == Rewrite(Frame(opener, tag, closer, le, data, utime2) + (le + le + b1))
  {
    assert bare + (le + le) + b1 == opener + le + closer + (le + le + b1);
    BareSpan(opener, closer, le, le + le + b1);
    FrameReady(opener, tag, closer, le, data, utime1);
    GreedyAfterSpan(bare, le + le, b1, opener, tag, closer, le, data, utime2, LabelOffset(opener, le, data));
  }

  /** Concatenation is associative, with the empty text in front or not. */
  lemma Assoc(x: string, y: string, z: string)
    ensures x + y + z == x + (y + z) == [] + x + (y + z)
  {
  }

  /** Concatenation regrouped. */
  lemma Regroup(a: string, x: string, y: string, b: string)
    ensures a + x + y + b == a + (x + y) + b
  {
  }

  /** The corrected patch replaces a bare pair of markers, which holds no tag. */
  lemma PatchOnBare(opener: string, tag: string, closer: string, le: string, data: string, utime: string)
    requires Framing(opener, tag, closer) && IsLineEnding(le)
    ensures PatchFor(opener + le + closer + le, opener, tag, closer, le, data, utime) == Rewrite(Frame(opener, tag, closer, le, data, utime) + le)
  {
    var s := opener + le + closer + le;
    var e := |opener| + |le| + |closer|;
    BareSpan(opener, closer, le, le);
    BareUntagged(opener, tag, closer, le);
    assert LabelCapture(s, |opener|, e - |closer|, tag).None?;
    assert s[e..] == le;
  }

  /** Without an opening word both patches append the block. */
  lemma AgreeWithoutOpener(s: string, opener: string, tag: string, closer: string, le: string, data: string, utime: string)
    requires Find(s, opener, 0).None?
    ensures AsWrittenFor(s, opener, tag, closer, le, data, utime) == PatchFor(s, opener, tag, closer, le, data, utime)
    ensures PatchFor(s, opener, tag, closer, le, data, utime) == Rewrite(s + le + Frame(opener, tag, closer, le, data, utime))
  {
  }

  /** When no closer starts after the closer at `v`, the rightmost closer is that one. */
  lemma LastCloser(pre: string, b: string, post: string, closer: string)
    requires HashLed(closer) && |closer| <= |b| && OccursAt(b, closer, |b| - |closer|) && '#' !in post
    ensures FindLast(pre + b + post, closer, 0, |pre + b + post|) == Some(|pre| + |b| - |closer|)
  {
    var t := pre + b + post;
    var v := |pre| + |b| - |closer|;
    ShiftedOccurrence(pre, b, post, closer, |b| - |closer|);
    forall j | v < j && j + |closer| <= |t| ensures !OccursAt(t, closer, j) {
      if j < |pre| + |b| {
        OccursAtChar(t, closer, v, j - v);
        assert PlainAt(closer, j - v);
      } else {
        assert t[j] == post[j - |pre| - |b|];
      }
      Mismatch(t, closer, j, 0);
    }
  }

  /** A greedy capture that trims to the entries leaves the text alone. */
  lemma GreedyFresh(s: string, opener: string, tag: string, closer: string, le: string, data: string, utime: string, held: string)
    requires GreedyCapture(s, opener, tag, closer) == Some(held)
    requires Trim(held) == Trim(data)
    ensures AsWrittenFor(s, opener, tag, closer, le, data, utime) == UpToDate
  {
  }

  /** A first span whose labelled text does not trim to the entries is replaced. */
  lemma SpanStale(s: string, opener: string, tag: string, closer: string, le: string, data: string, utime: string, p: nat, e: nat, held: string)
    requires FirstSpan(s, opener, closer) == Some((p, e))
    requires LabelCapture(s, p + |opener|, e - |closer|, tag) == Some(held)
    requires Trim(held) != Trim(data)
    ensures PatchFor(s, opener, tag, closer, le, data, utime) == Rewrite(s[..p] + Frame(opener, tag, closer, le, data, utime) + s[e..])
  {
  }

  /** The lazy replacement rewrites the first span. */
  lemma ReplaceSpan(s: string, opener: string, closer: string, block: string, p: nat, e: nat)
    requires FirstSpan(s, opener, closer) == Some((p, e))
    ensures Replace(s, opener, closer, block) == s[..p] + block + s[e..]
  {
  }

  /** Two patches that see the same first span and the same captured text decide alike. */
  lemma SameCapture(s: string, opener: string, tag: string, closer: string, le: string, data: string, utime: string, p: nat, e: nat, held: string)
    requires FirstSpan(s, opener, closer) == Some((p, e))
    requires GreedyCapture(s, opener, tag, closer) == Some(held)
    requires LabelCapture(s, p + |opener|, e - |closer|, tag) == Some(held)
    ensures AsWrittenFor(s, opener, tag, closer, le, data, utime) == PatchFor(s, opener, tag, closer, le, data, utime)
  {
    if Trim(held) == Trim(data) {
      GreedyFresh(s, opener, tag, closer, le, data, utime, held);
      SpanFresh(s, opener, tag, closer, le, data, utime, p, e, held);
    } else {
      StaleReplaces(s, opener, tag, closer, le, data, utime, held);
      SpanStale(s, opener, tag, closer, le, data, utime, p, e, held);
      ReplaceSpan(s, opener, closer, Frame(opener, tag, closer, le, data, utime), p, e);
    }
  }

  /** The greedy capture is read off the three searches that make it. */
  lemma GreedyOf(t: string, opener: string, tag: string, closer: string, p: nat, v: nat, u: nat)
    requires Find(t, opener, 0) == Some(p) && FindLast(t, closer, 0, |t|) == Some(v)
    requires FindLast(t, tag, p + |opener|, v) == Some(u)
    ensures GreedyCapture(t, opener, tag, closer) == Some(t[p + |opener|..u])
  {
  }

  /** A text with its three `#` at the opener, the tag and the closer, placed after
      text without an opener and before text without `#`, gets the same plan from
      both patches: the greedy capture stops at its own tag. */
  lemma AgreeOnPlaced(pre: string, b: string, post: string, opener: string, tag: string, closer: string, le: string, data: string, utime: string, u: nat)
    requires Framing(opener, tag, closer) && '#' !in post
    requires forall j :: !OccursAt(pre, opener, j)
    requires |opener| <= u && u + |tag| <= |b| - |closer|
    requires OccursAt(b, opener, 0) && OccursAt(b, tag, u) && OccursAt(b, closer, |b| - |closer|)
    requires forall j :: HashAt(b, j) ==> j == 0 || j == u || j == |b| - |closer|
    ensures AsWrittenFor(pre + b + post, opener, tag, closer, le, data, utime) == PatchFor(pre + b + post, opener, tag, closer, le, data, utime)
  {
    PlacedCaptures(pre, b, post, opener, tag, closer, u);
    var t := pre + b + post;
    var p: nat := |pre|;
    var held := GreedyCapture(t, opener, tag, closer).value;
    SameCapture(t, opener, tag, closer, le, data, utime, p, p + |b|, held);
  }

  /** Such a text is the first span, and both captures stop at its own tag. */
  lemma PlacedCaptures(pre: string, b: string, post: string, opener: string, tag: string, closer: string, u: nat)
    requires Framing(opener, tag, closer) && '#' !in post
    requires forall j :: !OccursAt(pre, opener, j)
    requires |opener| <= u && u + |tag| <= |b| - |closer|
    requires OccursAt(b, opener, 0) && OccursAt(b, tag, u) && OccursAt(b, closer, |b| - |closer|)
    requires forall j :: HashAt(b, j) ==> j == 0 || j == u || j == |b| - |closer|
    ensures var t, p := pre + b + post, |pre|;
      && FirstSpan(t, opener, closer) == Some((p, p + |b|))
      && GreedyCapture(t, opener, tag, closer).Some?
      && LabelCapture(t, p + |opener|, p + |b| - |closer|, tag) == GreedyCapture(t, opener, tag, closer)
  {
    var t := pre + b + post;
    var p, v: nat := |pre|, |pre| + |b| - |closer|;
    PlacedWords(pre, b, post, opener, tag, closer, u);
    SpanInText(t, opener, tag, closer, p, p + u, p + |b|);
    FirstOpener(t, opener, p);
    LastCloser(pre, b, post, closer);
    LastTag(t, tag, p + |opener|, p + u, v);
    GreedyOf(t, opener, tag, closer, p, v, p + u);
  }

  /** A text whose only block is labelled and whose text after the block holds no `#`
      gets the same plan from both patches. */
  lemma AgreeOnOneBlock(pre: string, b: string, post: string, opener: string, tag: string, closer: string, le: string, data0: string, utime0: string, data: string, utime: string)
    requires Framing(opener, tag, closer)
    requires '#' !in le && '#' !in data0 && '#' !in utime0 && '#' !in post
    requires forall j :: !OccursAt(pre, opener, j)
    requires b == Frame(opener, tag, closer, le, data0, utime0)
    ensures AsWrittenFor(pre + b + post, opener, tag, closer, le, data, utime) == PatchFor(pre + b + post, opener, tag, closer, le, data, utime)
  {
    FrameReady(opener, tag, closer, le, data0, utime0);
    AgreeOnPlaced(pre, b, post, opener, tag, closer, le, data, utime, LabelOffset(opener, le, data0));
  }


  /** Over a text whose only block is labelled and whose text after the block holds
      no `#`, the patch as written keeps the block or swaps it for the new one,
      leaving the text around it as it was. */
  lemma AsWrittenOneBlock(pre: string, b0: string, post: string, opener: string, tag: string, closer: string, le: string,
                          data0: string, utime0: string, data: string, utime: string, b: string)
    requires Framing(opener, tag, closer) && IsLineEnding(le)
    requires '#' !in data0 && '#' !in utime0 && '#' !in post
    requires forall j :: !OccursAt(pre, opener, j)
    requires b0 == Frame(opener, tag, closer, le, data0, utime0) && b == Frame(opener, tag, closer, le, data, utime)
    ensures AsWrittenFor(pre + b0 + post, opener, tag, closer, le, data, utime) == UpToDate
      || AsWrittenFor(pre + b0 + post, opener, tag, closer, le, data, utime) == Rewrite(pre + b + post)
  {
    assert '#' !in le;
    PlacedFrame(pre, b0, post, opener, tag, closer, le, data0, utime0);
    PatchOnSpan(pre, b0, post, opener, tag, closer, le, data, utime, le + le + data0 + le + le, b);
    AgreeOnOneBlock(pre, b0, post, opener, tag, closer, le, data0, utime0, data, utime);
  }

  /** With a labelled first span that is the stretch `b0` between `pre` and `post`,
      the corrected patch keeps the text or swaps `b0` for the new block. */
  lemma PatchOnSpan(pre: string, b0: string, post: string, opener: string, tag: string, closer: string, le: string,
                    data: string, utime: string, held: string, b: string)
    requires FirstSpan(pre + b0 + post, opener, closer) == Some((|pre|, |pre| + |b0|))
    requires LabelCapture(pre + b0 + post, |pre| + |opener|, |pre| + |b0| - |closer|, tag) == Some(held)
    requires b == Frame(opener, tag, closer, le, data, utime)
    ensures PatchFor(pre + b0 + post, opener, tag, closer, le, data, utime) == UpToDate
      || PatchFor(pre + b0 + post, opener, tag, closer, le, data, utime) == Rewrite(pre + b + post)
  {
    var s := pre + b0 + post;
    assert s[..|pre|] == pre && s[|pre| + |b0|..] == post;
  }

  /** Once a block sits after text without an opening word and before text without
      `#`, the patch as written finds it up to date. */
  lemma AsWrittenPlacedUpToDate(pre: string, post: string, opener: string, tag: string, closer: string, le: string,
                                data: string, utime: string, utime2: string)
    requires Framing(opener, tag, closer) && IsLineEnding(le)
    requires '#' !in data && '#' !in utime && '#' !in post
    requires forall j :: !OccursAt(pre, opener, j)
    ensures AsWrittenFor(pre + Frame(opener, tag, closer, le, data, utime) + post, opener, tag, closer, le, data, utime2) == UpToDate
  {
    assert '#' !in le;
    var b := Frame(opener, tag, closer, le, data, utime);
    AgreeOnOneBlock(pre, b, post, opener, tag, closer, le, data, utime, data, utime2);
    PlacedUpToDate(pre, post, opener, tag, closer, le, data, utime, utime2);
  }

  // ---------------------------------------------------------------------------
  // The same, with the configured markers
  // ---------------------------------------------------------------------------

  /** A block followed by anything keeps its own line ending as the text's. */
  lemma FrameLineEnding(opener: string, tag: string, closer: string, le: string, data: string, utime: string, post: string)
    requires HashLed(opener) && IsLineEnding(le)
    ensures LineEnding(Frame(opener, tag, closer, le, data, utime) + post) == le
  {
    var rest := le + data + le + le + tag + ": " + utime + le + le + closer + post;
    assert Frame(opener, tag, closer, le, data, utime) + post == opener + le + rest;
    assert forall k :: 0 <= k < |opener| ==> !IsTerminator(opener[k]) by {
      forall k | 0 <= k < |opener| ensures !IsTerminator(opener[k]) {
        if k > 0 {
          assert PlainAt(opener, k);
        }
      }
    }
    LineEndingAfter(opener, le, rest);
  }

  /** A hosts file holding two blocks with the same entries is rewritten by the source
      on every run, each time into two blocks again, while the corrected patch finds it
      up to date. */
  lemma PlanAsWrittenNeverSettles(le: string, hosts: seq<HostsData.HostEntry>, utime1: string, utime2: string, utime: string)
    requires IsLineEnding(le) && HashFree(hosts)
    requires '#' !in utime1 && '#' !in utime2
    ensures var data := HostsData.BuildHosts(hosts, le);
      var b2 := Block(le, data, utime2);
      var t := Block(le, data, utime1) + (le + le) + b2;
      && PlanAsWritten(t, hosts, utime) == Rewrite(Block(le, data, utime) + (le + le + b2))
      && PlanPatch(t, hosts, utime) == UpToDate
  {
    var data := HostsData.BuildHosts(hosts, le);
    var b1, b2 := Block(le, data, utime1), Block(le, data, utime2);
    HostsData.BuildHostsAvoids(hosts, le, '#');
    MarkerFacts();
    FrameLineEnding(StartMarker, UpdateLabel, EndMarker, le, data, utime1, (le + le) + b2);
    Assoc(b1, le + le, b2);
    AsWrittenNeverSettles(b1, b2, StartMarker, UpdateLabel, EndMarker, le, data, utime1, utime2, utime);
    PlacedUpToDate([], le + le + b2, StartMarker, UpdateLabel, EndMarker, le, data, utime1, utime);
  }

  /** From a file that holds the two markers with no time stamp between them, the source
      appends a block and on the next run replaces the bare markers, which leaves the
      two-block file `PlanAsWrittenNeverSettles` speaks of. */
  lemma PlanAsWrittenFromBare(le: string, hosts: seq<HostsData.HostEntry>, utime1: string, utime2: string)
    requires IsLineEnding(le) && HashFree(hosts) && '#' !in utime1
    ensures var data := HostsData.BuildHosts(hosts, le);
      var s := StartMarker + le + EndMarker + le;
      var b1 := Block(le, data, utime1);
      && PlanAsWritten(s, hosts, utime1) == Rewrite(s + le + b1)
      && PlanAsWritten(s + le + b1, hosts, utime2) == Rewrite(Block(le, data, utime2) + (le + le + b1))
  {
    var data := HostsData.BuildHosts(hosts, le);
    var bare := StartMarker + le + EndMarker;
    var s := bare + le;
    var b1 := Block(le, data, utime1);
    HostsData.BuildHostsAvoids(hosts, le, '#');
    MarkerFacts();
    LineEndingAfter(StartMarker, le, EndMarker + le);
    assert StartMarker + le + (EndMarker + le) == s;
    AsWrittenAppendsToBare(StartMarker, UpdateLabel, EndMarker, le, data, utime1);
    AppendedLineEnding(s, b1, le);
    Regroup(bare, le, le, b1);
    AsWrittenReplacesBare(bare, b1, StartMarker, UpdateLabel, EndMarker, le, data, utime1, utime2);
  }

  /** From the same file the corrected patch replaces the bare markers and then stops. */
  lemma PlanPatchFromBare(le: string, hosts: seq<HostsData.HostEntry>, utime1: string, utime2: string)
    requires IsLineEnding(le) && HashFree(hosts) && '#' !in utime1
    ensures var data := HostsData.BuildHosts(hosts, le);
      var s := StartMarker + le + EndMarker + le;
      && PlanPatch(s, hosts, utime1) == Rewrite(Block(le, data, utime1) + le)
      && PlanPatch(Block(le, data, utime1) + le, hosts, utime2) == UpToDate
  {
    var s := StartMarker + le + EndMarker + le;
    MarkerFacts();
    LineEndingAfter(StartMarker, le, EndMarker + le);
    assert StartMarker + le + (EndMarker + le) == s;
    PatchOnBare(StartMarker, UpdateLabel, EndMarker, le, HostsData.BuildHosts(hosts, le), utime1);
    BareSpan(StartMarker, EndMarker, le, le);
    PlanIdempotent(s, hosts, utime1, utime2);
  }

  /** A file without a start marker gets the same plan from both patches: the block is
      appended after the text's own line ending. */
  lemma PlansAgreeWithoutMarker(s: string, hosts: seq<HostsData.HostEntry>, utime: string)
    requires Find(s, StartMarker, 0).None?
    ensures PlanAsWritten(s, hosts, utime) == PlanPatch(s, hosts, utime)
    ensures PlanPatch(s, hosts, utime) == Rewrite(s + LineEnding(s) + Block(LineEnding(s), HostsData.BuildHosts(hosts, LineEnding(s)), utime))
  {
    var le := LineEnding(s);
    AgreeWithoutOpener(s, StartMarker, UpdateLabel, EndMarker, le, HostsData.BuildHosts(hosts, le), utime);
  }

  /** A file holding one block written with its own line ending, and no `#` after it,
      gets the same plan from both patches. */
  lemma PlansAgreeOnOneBlock(s: string, pre: string, post: string, data0: string, utime0: string, hosts: seq<HostsData.HostEntry>, utime: string)
    requires '#' !in data0 && '#' !in utime0 && '#' !in post
    requires forall j :: !OccursAt(pre, StartMarker, j)
    requires s == pre + Block(LineEnding(s), data0, utime0) + post
    ensures PlanAsWritten(s, hosts, utime) == PlanPatch(s, hosts, utime)
  {
    var le := LineEnding(s);
    MarkerFacts();
    AgreeOnOneBlock(pre, Block(le, data0, utime0), post, StartMarker, UpdateLabel, EndMarker, le, data0, utime0, HostsData.BuildHosts(hosts, le), utime);
  }

  /** The source's own patch settles on a file without a start marker: the first run
      appends the block, and the second finds it up to date. */
  lemma PlanAsWrittenSettlesWithoutMarker(s: string, hosts: seq<HostsData.HostEntry>, utime: string, utime2: string)
    requires Find(s, StartMarker, 0).None?
    requires HashFree(hosts) && '#' !in utime
    ensures PlanAsWritten(s, hosts, utime).Rewrite?
    ensures PlanAsWritten(PlanAsWritten(s, hosts, utime).text, hosts, utime2) == UpToDate
  {
    var le := LineEnding(s);
    var data := HostsData.BuildHosts(hosts, le);
    var b := Block(le, data, utime);
    HostsData.BuildHostsAvoids(hosts, le, '#');
    MarkerFacts();
    PlansAgreeWithoutMarker(s, hosts, utime);
    NoneAppended(s, StartMarker, le);
    AppendedLineEnding(s, b, le);
    assert s + le + b == (s + le) + b + [];
    AsWrittenPlacedUpToDate(s + le, [], StartMarker, UpdateLabel, EndMarker, le, data, utime, utime2);
  }

  /** The source's own patch settles on a file holding one block written with its own
      line ending and no `#` after it: the first run keeps the block or swaps it for
      the new one, and the run after a swap finds the new one up to date. */
  lemma PlanAsWrittenSettlesOnOneBlock(s: string, pre: string, post: string, data0: string, utime0: string,
                                       hosts: seq<HostsData.HostEntry>, utime: string, utime2: string)
    requires '#' !in data0 && '#' !in utime0 && '#' !in post
    requires forall j :: !OccursAt(pre, StartMarker, j)
    requires s == pre + Block(LineEnding(s), data0, utime0) + post
    requires HashFree(hosts) && '#' !in utime
    ensures var le := LineEnding(s);
      || PlanAsWritten(s, hosts, utime) == UpToDate
      || PlanAsWritten(s, hosts, utime) == Rewrite(pre + Block(le, HostsData.BuildHosts(hosts, le), utime) + post)
    ensures PlanAsWritten(s, hosts, utime).Rewrite? ==>
      PlanAsWritten(PlanAsWritten(s, hosts, utime).text, hosts, utime2) == UpToDate
  {
    var le := LineEnding(s);
    var data := HostsData.BuildHosts(hosts, le);
    var b0, b := Block(le, data0, utime0), Block(le, data, utime);
    HostsData.BuildHostsAvoids(hosts, le, '#');
    MarkerFacts();
    AsWrittenOneBlock(pre, b0, post, StartMarker, UpdateLabel, EndMarker, le, data0, utime0, data, utime, b);
    SwappedFrameLineEnding(pre, b0, b, post, StartMarker, UpdateLabel, EndMarker, le, data0, utime0, data, utime);
    AsWrittenPlacedUpToDate(pre, post, StartMarker, UpdateLabel, EndMarker, le, data, utime, utime2);
  }

  // ---------------------------------------------------------------------------
  // hostsUpdate
  // ---------------------------------------------------------------------------

  /** How a call of `hostsUpdate` ends: it resolves with a boolean or rejects. */
  datatype Outcome = Resolved(ok: bool) | Threw(reason: Reason)

  /** What a run does outside the program: write the hosts text, flush the DNS cache. */
  datatype Effect = Wrote(text: string) | FlushedDns

  /** `hostsUpdate()`, given what its asynchronous steps report: the backup copy
      (`true`, `false` or a rejection), the read of the hosts text, the settled
      lookups `results` of the host names `urls`, the time stamp, and whether the
      write and the DNS flush reject (`Some(reason)`) or not (`None`). The flush command
      resolves with an object, which is always truthy, so a flush that does not reject
      makes the run resolve with `true`. The decision is the source's own,
      `PlanAsWritten`. */
  method HostsUpdate(backup: Settled<bool>, read: Settled<string>, urls: seq<string>, results: seq<Settled<string>>,
                     utime: string, write: Option<Reason>, flush: Option<Reason>)
    returns (out: Outcome, effects: seq<Effect>)
    requires |results| == |urls|
    ensures backup.Rejected? ==> out == Threw(backup.reason) && effects == []
    ensures backup == Fulfilled(false) ==> out == Resolved(false) && effects == []
    ensures backup == Fulfilled(true) && read.Rejected? ==> out == Threw(read.reason) && effects == []
    ensures backup == Fulfilled(true) && read.Fulfilled? ==>
      var plan := PlanAsWritten(read.value, HostsData.Kept(urls, results), utime);
      && (plan == UpToDate ==> out == Resolved(true) && effects == [])
      && (plan.Rewrite? && write.Some? ==> out == Threw(write.value) && effects == [])
      && (plan.Rewrite? && write.None? && flush.Some? ==> out == Threw(flush.value) && effects == [Wrote(plan.text)])
      && (plan.Rewrite? && write.None? && flush.None? ==> out == Resolved(true) && effects == [Wrote(plan.text), FlushedDns])
  {
    effects := [];
    if backup.Rejected? {
      return Threw(backup.reason), [];
    }
    if !backup.value {
      return Resolved(false), [];
    }
    if read.Rejected? {
      return Threw(read.reason), [];
    }
    var hostsContent := read.value;
    var hostsData := HostsData.GetHostsData(urls, results);
    var plan := PlanAsWritten(hostsContent, hostsData, utime);
    if plan.UpToDate? {
      return Resolved(true), [];
    }
    if write.Some? {
      return Threw(write.value), [];
    }
    effects := [Wrote(plan.text)];
    if flush.Some? {
      return Threw(flush.value), effects;
    }
    effects := effects + [FlushedDns];
    out := Resolved(true);
  }

  /** With the corrected patch, a second run over the text the first one wrote, with
      the same lookups, is up to date when no host name holds a `#` and the text had a
      complete block or no start marker: it writes nothing and resolves with `true`. */
  lemma UpdateSettles(text: string, urls: seq<string>, results: seq<Settled<string>>, utime: string, utime2: string)
    requires |results| == |urls| && '#' !in utime
    requires forall i :: 0 <= i < |urls| ==> '#' !in urls[i]
    requires FirstSpan(text, StartMarker, EndMarker).Some? || Find(text, StartMarker, 0).None?
    requires PlanPatch(text, HostsData.Kept(urls, results), utime).Rewrite?
    ensures PlanPatch(PlanPatch(text, HostsData.Kept(urls, results), utime).text, HostsData.Kept(urls, results), utime2) == UpToDate
  {
    KeptHashFree(urls, results);
    PlanIdempotent(text, HostsData.Kept(urls, results), utime, utime2);
  }
}
