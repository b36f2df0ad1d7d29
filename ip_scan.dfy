/** The address scanners of src/assets/script/hosts.ts: `validateIP` (anchored IPv4
    and IPv6 patterns) and `extractIPAddresses` (the lookup page's answer region and
    the dotted-quad tokens in it). Each regular expression is a hand-written scanner,
    proved equal to a description of the strings it accepts. */
module IpScan {
  import opened Outcomes
  import opened Text

  // ---------------------------------------------------------------------------
  // Groups of characters separated by one character
  // ---------------------------------------------------------------------------

  /** The three group patterns: an IPv4 octet of `validateIP`, the `\d{1,3}` of the
      extraction pattern and the `[\da-fA-F]{1,4}` of the IPv6 pattern. */
  datatype GroupKind = Octet | ShortNum | Hextet

  predicate GroupChar(kind: GroupKind, c: char)
  {
    if kind == Hextet then IsHexDigit(c) else IsDigit(c)
  }

  predicate AllGroupChars(kind: GroupKind, g: string)
  {
    forall k :: 0 <= k < |g| ==> GroupChar(kind, g[k])
  }

  predicate AllDigits(g: string) { forall k :: 0 <= k < |g| ==> IsDigit(g[k]) }

  /** The octet alternatives as the IPv4 pattern writes them: `25[0-5]`, `2[0-4]\d`
      and `[0-1]?\d{1,2}`. */
  predicate OctetAlternative(g: string)
  {
    (|g| == 3 && g[0] == '2' && g[1] == '5' && '0' <= g[2] <= '5')
    || (|g| == 3 && g[0] == '2' && '0' <= g[1] <= '4' && IsDigit(g[2]))
    || (|g| == 3 && (g[0] == '0' || g[0] == '1') && IsDigit(g[1]) && IsDigit(g[2]))
    || (1 <= |g| <= 2 && IsDigit(g[0]) && (|g| == 2 ==> IsDigit(g[1])))
  }

  /** One to `max` (at most four) group characters. */
  predicate ShortRun(kind: GroupKind, g: string, max: nat)
  {
    1 <= |g| <= max && max <= 4 && GroupChar(kind, g[0])
    && (|g| >= 2 ==> GroupChar(kind, g[1]))
    && (|g| >= 3 ==> GroupChar(kind, g[2]))
    && (|g| >= 4 ==> GroupChar(kind, g[3]))
  }

  /** Whether `g` is one whole group of the given pattern. */
  predicate GroupOk(kind: GroupKind, g: string)
  {
    match kind
    case Octet => OctetAlternative(g)
    case ShortNum => ShortRun(ShortNum, g, 3)
    case Hextet => ShortRun(Hextet, g, 4)
  }

  /** A whole group is a non-empty run of the group's characters. */
  lemma GroupOkChars(kind: GroupKind, g: string)
    requires GroupOk(kind, g)
    ensures |g| >= 1 && AllGroupChars(kind, g)
  {
  }

  /** The value of a string of decimal digits. */
  function DecimalValue(g: string): nat
    requires AllDigits(g)
  {
    if g == [] then 0 else DecimalValue(g[..|g| - 1]) * 10 + (g[|g| - 1] as int - '0' as int)
  }

  /** The octet alternatives accept exactly the decimal numerals of one to three
      digits whose value is at most 255, leading zeros included. */
  lemma OctetAlternativeMeans(g: string)
    ensures OctetAlternative(g) <==> 1 <= |g| <= 3 && AllDigits(g) && DecimalValue(g) <= 255
  {
    if 1 <= |g| <= 3 && AllDigits(g) {
      var d0 := g[0] as int - '0' as int;
      assert DecimalValue(g[..1]) == d0 by { assert g[..1][..0] == []; }
      if |g| == 1 {
        assert g[..1] == g;
      } else {
        var d1 := g[1] as int - '0' as int;
        assert DecimalValue(g[..2]) == d0 * 10 + d1 by { assert g[..2][..1] == g[..1]; }
        if |g| == 2 {
          assert g[..2] == g;
        } else {
          assert DecimalValue(g) == (d0 * 10 + d1) * 10 + (g[2] as int - '0' as int) by {
            assert g[..2] == g[..|g| - 1];
          }
        }
      }
    }
  }

  /** Length of the run of group characters starting at `i`. */
  function Run(s: string, i: nat, kind: GroupKind): (n: nat)
    requires i <= |s|
    ensures i + n <= |s|
    ensures i + n == |s| || !GroupChar(kind, s[i + n])
    decreases |s| - i
  {
    if i < |s| && GroupChar(kind, s[i]) then 1 + Run(s, i + 1, kind) else 0
  }

  /** Every character of the run is a group character. */
  lemma {:induction false} RunChars(s: string, i: nat, kind: GroupKind)
    requires i <= |s|
    ensures forall k :: i <= k < i + Run(s, i, kind) ==> GroupChar(kind, s[k])
    decreases |s| - i
  {
    if i < |s| && GroupChar(kind, s[i]) {
      RunChars(s, i + 1, kind);
    }
  }

  /** The scanner: `n` groups from `i` on, each the whole run of group characters
      there, separated by `sep`; the index just past the last group, if they are there. */
  function Scan(s: string, i: nat, n: nat, sep: char, kind: GroupKind): (r: Option<nat>)
    requires i <= |s| && n >= 1
    ensures r.Some? ==> i < r.value <= |s|
    decreases n
  {
    var j := i + Run(s, i, kind);
    if !GroupOk(kind, s[i..j]) then None
    else if n == 1 then Some(j)
    else if j < |s| && s[j] == sep then Scan(s, j + 1, n - 1, sep, kind)
    else None
  }

  /** `t` is `n` groups of the pattern separated by `sep`. */
  predicate FieldsOk(t: string, sep: char, kind: GroupKind, n: nat)
  {
    var fs := Fields(t, sep);
    |fs| == n && forall k :: 0 <= k < |fs| ==> GroupOk(kind, fs[k])
  }

  /** Splitting at the first separator. */
  lemma FieldsAt(t: string, sep: char, m: nat)
    requires m <= |t| && forall k :: 0 <= k < m ==> t[k] != sep
    ensures m == |t| ==> Fields(t, sep) == [t]
    ensures m < |t| && t[m] == sep ==> Fields(t, sep) == [t[..m]] + Fields(t[m + 1..], sep)
  {
  }

  /** The scanner stops at `e` exactly when `s[i..e]` is `n` groups, for every `e`
      that a group could not run past. */
  lemma ScanMeans(s: string, i: nat, e: nat, n: nat, sep: char, kind: GroupKind)
    requires i <= e <= |s| && n >= 1
    requires !GroupChar(kind, sep)
    requires e == |s| || !GroupChar(kind, s[e])
    ensures Scan(s, i, n, sep, kind) == Some(e) <==> FieldsOk(s[i..e], sep, kind, n)
  {
    if Scan(s, i, n, sep, kind) == Some(e) {
      ScanSound(s, i, e, n, sep, kind);
    }
    if FieldsOk(s[i..e], sep, kind, n) {
      ScanComplete(s, i, e, n, sep, kind);
    }
  }

  /** `FieldsOk` built from its first group. */
  lemma FieldsOkCons(g: string, r: string, sep: char, kind: GroupKind, n: nat)
    requires sep !in g && GroupOk(kind, g)
    requires FieldsOk(r, sep, kind, n)
    ensures FieldsOk(g + [sep] + r, sep, kind, n + 1)
  {
    var t := g + [sep] + r;
    assert forall k :: 0 <= k < |g| ==> t[k] != sep;
    FieldsAt(t, sep, |g|);
    assert t[..|g|] == g && t[|g| + 1..] == r;
  }

  /** `FieldsOk` taken apart at its first separator: the first group, ... */
  lemma FieldsOkHead(t: string, sep: char, kind: GroupKind, n: nat)
    requires FieldsOk(t, sep, kind, n) && n >= 1
    ensures GroupOk(kind, t[..IndexOfChar(t, sep)])
  {
    var m := IndexOfChar(t, sep);
    FieldsAt(t, sep, m);
    assert Fields(t, sep)[0] == t[..m];
  }

  /** ... a single group with no separator, ... */
  lemma FieldsOkSingle(t: string, sep: char, kind: GroupKind)
    requires FieldsOk(t, sep, kind, 1)
    ensures IndexOfChar(t, sep) == |t|
  {
    var m := IndexOfChar(t, sep);
    FieldsAt(t, sep, m);
  }

  /** ... and the groups after the first separator. */
  lemma FieldsOkTail(t: string, sep: char, kind: GroupKind, n: nat)
    requires FieldsOk(t, sep, kind, n) && n > 1
    ensures IndexOfChar(t, sep) < |t| && FieldsOk(t[IndexOfChar(t, sep) + 1..], sep, kind, n - 1)
  {
    var m := IndexOfChar(t, sep);
    FieldsAt(t, sep, m);
    var fs := Fields(t, sep);
    if m < |t| {
      var rest := Fields(t[m + 1..], sep);
      assert fs == [t[..m]] + rest;
      assert forall k :: 0 <= k < |rest| ==> rest[k] == fs[k + 1];
    }
  }

  lemma {:induction false} ScanSound(s: string, i: nat, e: nat, n: nat, sep: char, kind: GroupKind)
    requires i <= e <= |s| && n >= 1
    requires !GroupChar(kind, sep)
    requires Scan(s, i, n, sep, kind) == Some(e)
    ensures FieldsOk(s[i..e], sep, kind, n)
    decreases n
  {
    if n == 1 {
      ScanSoundOne(s, i, e, sep, kind);
    } else {
      var j := ScanNext(s, i, e, n, sep, kind);
      ScanSound(s, j + 1, e, n - 1, sep, kind);
      ScanSoundStep(s, i, j, e, sep, kind, n - 1);
    }
  }

  /** A whole group, the separator after it and `n` more groups make `n + 1` groups. */
  lemma ScanSoundStep(s: string, i: nat, j: nat, e: nat, sep: char, kind: GroupKind, n: nat)
    requires i <= j < e <= |s| && j == i + Run(s, i, kind) && !GroupChar(kind, sep)
    requires s[j] == sep && GroupOk(kind, s[i..j])
    requires FieldsOk(s[j + 1..e], sep, kind, n)
    ensures FieldsOk(s[i..e], sep, kind, n + 1)
  {
    RunNoSep(s, i, j, sep, kind);
    FieldsOkSlice(s, i, j, e, sep, kind, n);
  }

  lemma ScanSoundOne(s: string, i: nat, e: nat, sep: char, kind: GroupKind)
    requires i <= e <= |s|
    requires !GroupChar(kind, sep)
    requires Scan(s, i, 1, sep, kind) == Some(e)
    ensures FieldsOk(s[i..e], sep, kind, 1)
  {
    RunNoSep(s, i, e, sep, kind);
    FieldsAt(s[i..e], sep, e - i);
  }

  /** A run of group characters holds no separator. */
  lemma RunNoSep(s: string, i: nat, j: nat, sep: char, kind: GroupKind)
    requires i <= |s| && j == i + Run(s, i, kind) && !GroupChar(kind, sep)
    ensures sep !in s[i..j]
  {
    var g := s[i..j];
    RunChars(s, i, kind);
    assert forall k :: 0 <= k < |g| ==> GroupChar(kind, g[k]);
  }

  /** Past the first group, the scanner goes on from after the separator. */
  lemma ScanNext(s: string, i: nat, e: nat, n: nat, sep: char, kind: GroupKind) returns (j: nat)
    requires i <= e <= |s| && n > 1
    requires Scan(s, i, n, sep, kind) == Some(e)
    ensures j == i + Run(s, i, kind) && i <= j < e && s[j] == sep && GroupOk(kind, s[i..j])
    ensures Scan(s, j + 1, n - 1, sep, kind) == Some(e)
  {
    j := i + Run(s, i, kind);
  }

  lemma FieldsOkSlice(s: string, i: nat, j: nat, e: nat, sep: char, kind: GroupKind, n: nat)
    requires i <= j < e <= |s| && s[j] == sep
    requires sep !in s[i..j] && GroupOk(kind, s[i..j])
    requires FieldsOk(s[j + 1..e], sep, kind, n)
    ensures FieldsOk(s[i..e], sep, kind, n + 1)
  {
    FieldsOkCons(s[i..j], s[j + 1..e], sep, kind, n);
    assert s[i..e] == s[i..j] + [sep] + s[j + 1..e];
  }

  lemma {:induction false} ScanComplete(s: string, i: nat, e: nat, n: nat, sep: char, kind: GroupKind)
    requires i <= e <= |s| && n >= 1
    requires !GroupChar(kind, sep)
    requires e == |s| || !GroupChar(kind, s[e])
    requires FieldsOk(s[i..e], sep, kind, n)
    ensures Scan(s, i, n, sep, kind) == Some(e)
    decreases n, 1
  {
    if n == 1 {
      ScanCompleteOne(s, i, e, sep, kind);
    } else {
      var m := ScanCompleteRest(s, i, e, n, sep, kind);
      ScanStep(s, i, e, n, m, sep, kind);
    }
  }

  /** The first group is the run at `i`, and the scan of the rest reaches `e`. */
  lemma {:induction false} ScanCompleteRest(s: string, i: nat, e: nat, n: nat, sep: char, kind: GroupKind) returns (m: nat)
    requires i <= e <= |s| && n > 1
    requires !GroupChar(kind, sep)
    requires e == |s| || !GroupChar(kind, s[e])
    requires FieldsOk(s[i..e], sep, kind, n)
    ensures m == Run(s, i, kind) && i + m < e && s[i + m] == sep && GroupOk(kind, s[i..i + m])
    ensures Scan(s, i + m + 1, n - 1, sep, kind) == Some(e)
    decreases n, 0
  {
    m := ScanCompleteHead(s, i, e, n, sep, kind);
    ScanComplete(s, i + m + 1, e, n - 1, sep, kind);
  }

  lemma ScanCompleteOne(s: string, i: nat, e: nat, sep: char, kind: GroupKind)
    requires i <= e <= |s|
    requires !GroupChar(kind, sep)
    requires e == |s| || !GroupChar(kind, s[e])
    requires FieldsOk(s[i..e], sep, kind, 1)
    ensures Scan(s, i, 1, sep, kind) == Some(e)
  {
    var t := s[i..e];
    FieldsOkHead(t, sep, kind, 1);
    FieldsOkSingle(t, sep, kind);
    assert t[..|t|] == t;
    RunOver(s, i, kind, t, None);
    assert s[i..i + Run(s, i, kind)] == t;
    ScanOne(s, i, sep, kind);
  }

  /** The first of several groups is the run at `i`, and the rest follow its separator. */
  lemma ScanCompleteHead(s: string, i: nat, e: nat, n: nat, sep: char, kind: GroupKind) returns (m: nat)
    requires i <= e <= |s| && n > 1
    requires !GroupChar(kind, sep)
    requires FieldsOk(s[i..e], sep, kind, n)
    ensures m == Run(s, i, kind) && i + m < e && s[i + m] == sep && GroupOk(kind, s[i..i + m])
    ensures FieldsOk(s[i + m + 1..e], sep, kind, n - 1)
  {
    m := GroupAt(s, i, e, n, sep, kind);
    RestAt(s, i, e, n, m, sep, kind);
    RunOver(s, i, kind, s[i..i + m], Some(sep));
  }

  /** The first of several groups in `s[i..e]`, ... */
  lemma GroupAt(s: string, i: nat, e: nat, n: nat, sep: char, kind: GroupKind) returns (m: nat)
    requires i <= e <= |s| && n > 1
    requires FieldsOk(s[i..e], sep, kind, n)
    ensures m == IndexOfChar(s[i..e], sep) && i + m < e && s[i + m] == sep && GroupOk(kind, s[i..i + m])
  {
    var t := s[i..e];
    m := IndexOfChar(t, sep);
    FieldsOkHead(t, sep, kind, n);
    FieldsOkTail(t, sep, kind, n);
    TakeOfSlice(s, i, e, m);
  }

  /** ... and the groups after its separator. */
  lemma RestAt(s: string, i: nat, e: nat, n: nat, m: nat, sep: char, kind: GroupKind)
    requires i <= e <= |s| && n > 1
    requires FieldsOk(s[i..e], sep, kind, n)
    requires m == IndexOfChar(s[i..e], sep) && i + m < e
    ensures FieldsOk(s[i + m + 1..e], sep, kind, n - 1)
  {
    var t := s[i..e];
    FieldsOkTail(t, sep, kind, n);
    DropOfSlice(s, i, e, m + 1);
    var u := t[m + 1..];
    assert u == s[i + m + 1..e];
    assert FieldsOk(u, sep, kind, n - 1);
  }

  lemma TakeOfSlice(s: string, i: nat, e: nat, a: nat)
    requires i <= e <= |s| && a <= e - i
    ensures s[i..e][..a] == s[i..i + a]
  {
  }

  lemma DropOfSlice(s: string, i: nat, e: nat, a: nat)
    requires i <= e <= |s| && a <= e - i
    ensures s[i..e][a..] == s[i + a..e]
  {
  }

  /** One group is the run at `i` when that is a whole group. */
  lemma ScanOne(s: string, i: nat, sep: char, kind: GroupKind)
    requires i <= |s| && GroupOk(kind, s[i..i + Run(s, i, kind)])
    ensures Scan(s, i, 1, sep, kind) == Some(i + Run(s, i, kind))
  {
  }

  /** More groups continue after the separator that ends the first. */
  lemma ScanStep(s: string, i: nat, e: nat, n: nat, m: nat, sep: char, kind: GroupKind)
    requires n > 1 && i <= e <= |s| && m == Run(s, i, kind) && i + m < e && s[i + m] == sep && GroupOk(kind, s[i..i + m])
    requires Scan(s, i + m + 1, n - 1, sep, kind) == Some(e)
    ensures Scan(s, i, n, sep, kind) == Some(e)
  {
    var j := i + Run(s, i, kind);
    assert j == i + m && GroupOk(kind, s[i..j]) && j < |s| && s[j] == sep;
  }

  /** The run at `i` covers a whole group there and stops at what follows it. */
  lemma RunOver(s: string, i: nat, kind: GroupKind, g: string, next: Option<char>)
    requires GroupOk(kind, g) && i + |g| <= |s| && s[i..i + |g|] == g
    requires next.Some? ==> i + |g| < |s| && s[i + |g|] == next.value && !GroupChar(kind, next.value)
    requires next.None? ==> i + |g| == |s| || !GroupChar(kind, s[i + |g|])
    ensures Run(s, i, kind) == |g|
  {
    GroupOkChars(kind, g);
    RunChars(s, i, kind);
    assert forall k :: i <= k < i + |g| ==> s[k] == g[k - i];
  }

  // ---------------------------------------------------------------------------
  // validateIP
  // ---------------------------------------------------------------------------

  datatype IpClass = IPv4 | IPv6 | Neither

  /** The anchored pattern `^G(sG){n-1}$`. */
  predicate Anchored(s: string, n: nat, sep: char, kind: GroupKind)
    requires n >= 1
  {
    Scan(s, 0, n, sep, kind) == Some(|s|)
  }

  /** An IPv4 address as `validateIP` means it: four dot-separated decimal numerals of
      one to three digits, each at most 255. */
  predicate IsIPv4(s: string)
  {
    var fs := Fields(s, '.');
    |fs| == 4 && forall k :: 0 <= k < 4 ==> DecimalOctet(fs[k])
  }

  /** A decimal numeral of one to three digits whose value is at most 255. */
  predicate DecimalOctet(g: string)
  {
    1 <= |g| <= 3 && AllDigits(g) && DecimalValue(g) <= 255
  }

  /** An IPv6 address as `validateIP` means it: exactly eight colon-separated groups
      of one to four hex digits (no `::` shorthand, no embedded IPv4). */
  predicate IsIPv6(s: string)
  {
    FieldsOk(s, ':', Hextet, 8)
  }

  /** `validateIP(ip)`: the IPv4 pattern is tried first. */
  function ValidateIP(ip: string): IpClass
  {
    if Anchored(ip, 4, '.', Octet) then IPv4
    else if Anchored(ip, 8, ':', Hextet) then IPv6
    else Neither
  }

  /** The classification is exact in both directions. */
  lemma ValidateIPMeans(ip: string)
    ensures ValidateIP(ip) == IPv4 <==> IsIPv4(ip)
    ensures ValidateIP(ip) == IPv6 <==> IsIPv6(ip)
  {
    AnchoredIPv4(ip);
    AnchoredIPv6(ip);
    if IsIPv4(ip) { IPv4NotIPv6(ip); }
  }

  lemma AnchoredIPv4(ip: string)
    ensures Anchored(ip, 4, '.', Octet) <==> IsIPv4(ip)
  {
    ScanMeans(ip, 0, |ip|, 4, '.', Octet);
    assert ip[0..|ip|] == ip;
    var fs := Fields(ip, '.');
    forall k | 0 <= k < |fs|
      ensures GroupOk(Octet, fs[k]) <==> DecimalOctet(fs[k])
    {
      OctetAlternativeMeans(fs[k]);
    }
  }

  lemma AnchoredIPv6(ip: string)
    ensures Anchored(ip, 8, ':', Hextet) <==> IsIPv6(ip)
  {
    ScanMeans(ip, 0, |ip|, 8, ':', Hextet);
    assert ip[0..|ip|] == ip;
  }

  /** No string is both: an IPv4 address holds no `:`, an IPv6 one at least seven. */
  lemma IPv4NotIPv6(s: string)
    requires IsIPv4(s)
    ensures !IsIPv6(s)
  {
    var fs := Fields(s, '.');
    assert forall k :: 0 <= k < |fs| ==> ':' !in fs[k];
    if ':' in s {
      FieldsCover(s, '.', ':');
    }
    FieldsSplit(s, ':');
  }

  /** An address `validateIP` accepts is made of hex digits, dots and colons only. */
  lemma ValidatedChars(ip: string, c: char)
    requires ValidateIP(ip) != Neither && c in ip
    ensures IsHexDigit(c) || c == '.' || c == ':'
  {
    ValidateIPMeans(ip);
    if ValidateIP(ip) == IPv4 && c != '.' {
      FieldsCover(ip, '.', c);
      var fs := Fields(ip, '.');
      var k :| 0 <= k < |fs| && c in fs[k];
      assert DecimalOctet(fs[k]);
    } else if ValidateIP(ip) == IPv6 && c != ':' {
      FieldsCover(ip, ':', c);
      var fs := Fields(ip, ':');
      var k :| 0 <= k < |fs| && c in fs[k];
      GroupOkChars(Hextet, fs[k]);
    }
  }

  /** A character of `s` other than the separator lies in one of the fields. */
  lemma {:induction false} FieldsCover(s: string, sep: char, c: char)
    requires c != sep && c in s
    ensures exists k :: 0 <= k < |Fields(s, sep)| && c in Fields(s, sep)[k]
    decreases |s|
  {
    var m := IndexOfChar(s, sep);
    var fs := Fields(s, sep);
    var p :| 0 <= p < |s| && s[p] == c;
    if m == |s| {
      assert fs[0] == s;
    } else if p < m {
      FieldsHead(s, sep, p);
    } else {
      var rest := s[m + 1..];
      assert rest[p - m - 1] == c;
      FieldsCover(rest, sep, c);
      var k :| 0 <= k < |Fields(rest, sep)| && c in Fields(rest, sep)[k];
      FieldsUnfold(s, sep, m);
      assert fs[k + 1] == Fields(rest, sep)[k];
    }
  }

  /** A character before the first separator lies in the first field. */
  lemma FieldsHead(s: string, sep: char, p: nat)
    requires p < IndexOfChar(s, sep)
    ensures s[p] in Fields(s, sep)[0]
  {
    var m := IndexOfChar(s, sep);
    assert m < |s| ==> Fields(s, sep)[0] == s[..m];
    assert s[..m][p] == s[p];
  }

  /** Up to the first separator, then the fields of the rest. */
  lemma FieldsUnfold(s: string, sep: char, m: nat)
    requires m == IndexOfChar(s, sep) < |s|
    ensures Fields(s, sep) == [s[..m]] + Fields(s[m + 1..], sep)
  {
  }

  /** The text holds the separator exactly when it splits into more than one field. */
  lemma FieldsSplit(s: string, sep: char)
    ensures sep in s <==> |Fields(s, sep)| > 1
  {
    var m := IndexOfChar(s, sep);
    if m == |s| {
      assert Fields(s, sep) == [s];
    } else {
      FieldsUnfold(s, sep, m);
      assert s[m] == sep;
    }
  }



  // ---------------------------------------------------------------------------
  // extractIPAddresses: the tokens
  // ---------------------------------------------------------------------------

  /** `\b` at position `i`: exactly one of the characters either side is a word character. */
  predicate Boundary(s: string, i: nat)
    requires i <= |s|
  {
    (i > 0 && IsWordChar(s[i - 1])) != (i < |s| && IsWordChar(s[i]))
  }

  /** The token pattern `\b(?:\d{1,3}\.){3}\d{1,3}\b` tried at `i`: where its match ends.
      A shorter digit group than the whole run never helps the match: the character
      after it would be a digit, neither the `.` nor a word boundary. */
  function TokenAt(s: string, i: nat): Option<nat>
    requires i <= |s|
  {
    if !Boundary(s, i) then None
    else match Scan(s, i, 4, '.', ShortNum)
      case None => None
      case Some(e) => if Boundary(s, e) then Some(e) else None
  }

  /** `s[i..e]` is a dotted quad of one-to-three-digit groups, standing as a whole word. */
  predicate IsIpToken(s: string, i: nat, e: nat)
  {
    i <= e <= |s| && Boundary(s, i) && Boundary(s, e) && FieldsOk(s[i..e], '.', ShortNum, 4)
  }

  /** The token scanner finds exactly the tokens. */
  lemma TokenAtMeans(s: string, i: nat, e: nat)
    requires i <= e <= |s|
    ensures TokenAt(s, i) == Some(e) <==> IsIpToken(s, i, e)
  {
    if TokenAt(s, i) == Some(e) {
      ScanSound(s, i, e, 4, '.', ShortNum);
    }
    if IsIpToken(s, i, e) {
      TokenEndsInDigit(s, i, e);
      ScanComplete(s, i, e, 4, '.', ShortNum);
    }
  }

  lemma TokenEndsInDigit(s: string, i: nat, e: nat)
    requires IsIpToken(s, i, e)
    ensures i < e && IsDigit(s[e - 1])
  {
    var t := s[i..e];
    FieldsOkLast(t, '.', ShortNum, 4);
    assert s[e - 1] == t[|t| - 1];
  }

  /** A run of groups ends with a group character. */
  lemma {:induction false} FieldsOkLast(t: string, sep: char, kind: GroupKind, n: nat)
    requires FieldsOk(t, sep, kind, n) && n >= 1
    ensures |t| >= 1 && GroupChar(kind, t[|t| - 1])
    decreases n
  {
    var m := IndexOfChar(t, sep);
    FieldsOkHead(t, sep, kind, n);
    if n == 1 {
      FieldsOkSingle(t, sep, kind);
      assert t[..m] == t;
      GroupOkChars(kind, t);
    } else {
      FieldsOkTail(t, sep, kind, n);
      FieldsOkLast(t[m + 1..], sep, kind, n - 1);
    }
  }

  /** `s.slice(i).match(/\b(?:\d{1,3}\.){3}\d{1,3}\b/g) || []`: every match, left to
      right, each search resuming where the previous match ended. */
  function Tokens(s: string, i: nat): seq<string>
    requires i <= |s|
    decreases |s| - i
  {
    if i == |s| then []
    else match TokenAt(s, i)
      case Some(e) => [s[i..e]] + Tokens(s, e)
      case None => Tokens(s, i + 1)
  }

  /** Every match is a dotted quad of one-to-three-digit groups; octet values are not
      checked. */
  lemma {:induction false} TokensAreQuads(s: string, i: nat)
    requires i <= |s|
    ensures forall k :: 0 <= k < |Tokens(s, i)| ==> FieldsOk(Tokens(s, i)[k], '.', ShortNum, 4)
    decreases |s| - i
  {
    if i < |s| {
      match TokenAt(s, i)
      case Some(e) =>
        TokenAtMeans(s, i, e);
        TokensAreQuads(s, e);
      case None =>
        TokensAreQuads(s, i + 1);
    }
  }

  /** There are no matches exactly when no position admits one. */
  lemma {:induction false} TokensEmpty(s: string, i: nat)
    requires i <= |s|
    ensures Tokens(s, i) == [] <==> forall j :: i <= j <= |s| ==> TokenAt(s, j).None?
    decreases |s| - i
  {
    if i < |s| && TokenAt(s, i).None? {
      TokensEmpty(s, i + 1);
    }
    if i == |s| {
      assert !Boundary(s, |s|) || Scan(s, |s|, 4, '.', ShortNum).None?;
    }
  }

  // ---------------------------------------------------------------------------
  // extractIPAddresses: the answer region
  // ---------------------------------------------------------------------------

  /** The three words of the region pattern: the tag name, the id inside the tag,
      and the closing tag. */
  datatype Pattern = Pattern(open: string, id: string, close: string)

  const DivOpen := "<div"
  const AnswerId := "id=\"tabpanel-dns-a\""
  const DivClose := "</div>"
  const AnswerPattern := Pattern(DivOpen, AnswerId, DivClose)

  /** The region pattern `open[^>]*id[^>]*>([\s\S]*?)close` tried at `i`: the bounds
      of its lazily captured group. The tag ends at the first `>`, and the id must lie
      wholly inside the tag. The page's pattern is `AnswerPattern`, that is
      `<div[^>]*id="tabpanel-dns-a"[^>]*>([\s\S]*?)<\/div>`. */
  function DivAt(s: string, i: nat, w: Pattern): (r: Option<(nat, nat)>)
    ensures r.Some? ==> r.value.0 <= r.value.1 <= |s|
  {
    if !OccursAt(s, w.open, i) then None
    else
      var g := TagClose(s, i + |w.open|);
      if g == |s| then None
      else match Find(s, w.id, i + |w.open|)
        case None => None
        case Some(a) =>
          if a + |w.id| > g then None
          else match Find(s, w.close, g + 1)
            case None => None
            case Some(c) => Some((g + 1, c))
  }

  /** What a match of the region pattern at `i` with group `s[b..c]` is. */
  predicate IsAnswerDiv(s: string, i: nat, w: Pattern, b: nat, c: nat)
  {
    OccursAt(s, w.open, i) && i + |w.open| < b <= c <= |s| && s[b - 1] == '>'
    && (forall k :: i + |w.open| <= k < b - 1 ==> s[k] != '>')
    && (exists a :: i + |w.open| <= a && a + |w.id| < b && OccursAt(s, w.id, a))
    && OccursAt(s, w.close, c)
    && (forall k :: b <= k < c ==> !OccursAt(s, w.close, k))
  }

  lemma DivAtMeans(s: string, i: nat, w: Pattern, b: nat, c: nat)
    ensures DivAt(s, i, w) == Some((b, c)) <==> IsAnswerDiv(s, i, w, b, c)
  {
    if DivAt(s, i, w) == Some((b, c)) {
      DivAtSound(s, i, w, b, c);
    }
    if IsAnswerDiv(s, i, w, b, c) {
      DivAtComplete(s, i, w, b, c);
    }
  }

  lemma DivAtSound(s: string, i: nat, w: Pattern, b: nat, c: nat)
    requires DivAt(s, i, w) == Some((b, c))
    ensures IsAnswerDiv(s, i, w, b, c)
  {
    var g := TagClose(s, i + |w.open|);
    assert b == g + 1;
    var a := Find(s, w.id, i + |w.open|).value;
    assert a + |w.id| < b && OccursAt(s, w.id, a);
    assert Find(s, w.close, g + 1) == Some(c);
  }

  lemma DivAtComplete(s: string, i: nat, w: Pattern, b: nat, c: nat)
    requires IsAnswerDiv(s, i, w, b, c)
    ensures DivAt(s, i, w) == Some((b, c))
  {
    var g := TagClose(s, i + |w.open|);
    assert g == b - 1;
    var a :| i + |w.open| <= a && a + |w.id| < b && OccursAt(s, w.id, a);
    var a0 := Find(s, w.id, i + |w.open|);
    assert a0.Some? && a0.value <= a;
    assert Find(s, w.close, g + 1) == Some(c);
  }

  /** The first `>` at or after `from` (or `|s|`): the end of an opening tag. */
  function TagClose(s: string, from: nat): (g: nat)
    requires from <= |s|
    ensures from <= g <= |s|
    ensures g < |s| ==> s[g] == '>'
    ensures forall k :: from <= k < g ==> s[k] != '>'
    decreases |s| - from
  {
    if from == |s| || s[from] == '>' then from else TagClose(s, from + 1)
  }

  /** The leftmost position at or after `i` where the region pattern matches. */
  function FirstDiv(s: string, i: nat, w: Pattern): (r: Option<nat>)
    requires i <= |s|
    ensures r.Some? ==> i <= r.value <= |s| && DivAt(s, r.value, w).Some?
    ensures r.Some? ==> forall j :: i <= j < r.value ==> DivAt(s, j, w).None?
    ensures r.None? ==> forall j :: i <= j <= |s| ==> DivAt(s, j, w).None?
    decreases |s| - i
  {
    if DivAt(s, i, w).Some? then Some(i)
    else if i == |s| then None
    else FirstDiv(s, i + 1, w)
  }

  // ---------------------------------------------------------------------------
  // extractIPAddresses: duplicates
  // ---------------------------------------------------------------------------

  predicate NoDuplicates(xs: seq<string>)
  {
    forall p, q :: 0 <= p < q < |xs| ==> xs[p] != xs[q]
  }

  /** The index of the first occurrence of `x`. */
  function FirstIndex(xs: seq<string>, x: string): (k: nat)
    requires x in xs
    ensures k < |xs| && xs[k] == x
    ensures forall j :: 0 <= j < k ==> xs[j] != x
  {
    if xs[0] == x then 0 else 1 + FirstIndex(xs[1..], x)
  }

  /** `[...new Set(xs)]`: the distinct elements, in order of first occurrence. */
  function Dedupe(xs: seq<string>): (r: seq<string>)
    ensures forall x :: x in r <==> x in xs
    ensures NoDuplicates(r)
  {
    if xs == [] then []
    else
      var d := Dedupe(xs[..|xs| - 1]);
      var x := xs[|xs| - 1];
      if x in d then d else d + [x]
  }

  /** The distinct elements come out in the order of their first occurrences. */
  lemma {:induction false} DedupeOrder(xs: seq<string>)
    ensures forall p, q :: 0 <= p < q < |Dedupe(xs)| ==> FirstIndex(xs, Dedupe(xs)[p]) < FirstIndex(xs, Dedupe(xs)[q])
  {
    if xs != [] {
      var pre := xs[..|xs| - 1];
      DedupeOrder(pre);
      FirstIndexPrefix(xs);
    }
  }

  /** The first occurrences in a prefix are first occurrences in the whole. */
  lemma FirstIndexPrefix(xs: seq<string>)
    requires xs != []
    ensures forall x :: x in xs[..|xs| - 1] ==> FirstIndex(xs, x) == FirstIndex(xs[..|xs| - 1], x)
    ensures xs[|xs| - 1] !in xs[..|xs| - 1] ==> FirstIndex(xs, xs[|xs| - 1]) == |xs| - 1
  {
    var pre := xs[..|xs| - 1];
    forall x | x in pre ensures FirstIndex(xs, x) == FirstIndex(pre, x) {
      var k := FirstIndex(pre, x);
      assert xs[k] == x;
      var k' := FirstIndex(xs, x);
      assert k' <= k;
      assert pre[k'] == x;
    }
    var y := xs[|xs| - 1];
    if y !in pre {
      assert forall j :: 0 <= j < |xs| - 1 ==> xs[j] == pre[j];
    }
  }

  /** A list without duplicates is left as it is. */
  lemma {:induction false} DedupeKeeps(xs: seq<string>)
    requires NoDuplicates(xs)
    ensures Dedupe(xs) == xs
  {
    if xs != [] {
      var pre := xs[..|xs| - 1];
      assert forall p :: 0 <= p < |pre| ==> pre[p] == xs[p];
      DedupeKeeps(pre);
      assert xs[|xs| - 1] !in pre;
      assert pre + [xs[|xs| - 1]] == xs;
    }
  }

  /** The group the region pattern captures in the leftmost answer region, if any. */
  function AnswerRegion(html: string): (r: Option<string>)
    ensures (forall j :: 0 <= j <= |html| ==> DivAt(html, j, AnswerPattern).None?) ==> r.None?
  {
    match FirstDiv(html, 0, AnswerPattern)
    case None => None
    case Some(i) => Some(html[DivAt(html, i, AnswerPattern).value.0..DivAt(html, i, AnswerPattern).value.1])
  }

  /** `extractIPAddresses(inputString)`: `[]` when the page has no answer region,
      otherwise the distinct tokens of the first one, in order of first occurrence. */
  function ExtractIPAddresses(html: string): (r: seq<string>)
    ensures NoDuplicates(r)
    ensures AnswerRegion(html).None? ==> r == []
  {
    match AnswerRegion(html)
    case None => []
    case Some(region) => Dedupe(Tokens(region, 0))
  }

  /** Every extracted address is a dotted quad of one-to-three-digit groups. */
  lemma ExtractedAreQuads(html: string)
    ensures forall k :: 0 <= k < |ExtractIPAddresses(html)| ==> FieldsOk(ExtractIPAddresses(html)[k], '.', ShortNum, 4)
  {
    if AnswerRegion(html).Some? {
      var ts := Tokens(AnswerRegion(html).value, 0);
      TokensAreQuads(AnswerRegion(html).value, 0);
      var r := ExtractIPAddresses(html);
      forall k | 0 <= k < |r| ensures FieldsOk(r[k], '.', ShortNum, 4) {
        assert r[k] in ts;
        var j :| 0 <= j < |ts| && ts[j] == r[k];
      }
    }
  }

  /** Text made of `n` fields of at most three characters each, with one separator
      between neighbours, has at most `4 * n - 1` characters. */
  lemma {:induction false} FieldsBound(t: string, sep: char, n: nat)
    requires |Fields(t, sep)| == n
    requires forall k :: 0 <= k < n ==> |Fields(t, sep)[k]| <= 3
    ensures |t| + 1 <= 4 * n
    decreases |t|
  {
    var m := IndexOfChar(t, sep);
    var fs := Fields(t, sep);
    if m < |t| {
      var rest := Fields(t[m + 1..], sep);
      assert fs == [t[..m]] + rest;
      assert |t| == m + 1 + |t[m + 1..]|;
      assert m == |fs[0]|;
      forall k | 0 <= k < n - 1 ensures |rest[k]| <= 3 {
        assert rest[k] == fs[k + 1];
      }
      FieldsBound(t[m + 1..], sep, n - 1);
    } else {
      assert fs == [t];
      assert |t| == |fs[0]|;
    }
  }

  /** An extracted address is a dotted quad of at most 15 characters, so it fits the
      20-column address field of a hosts line with room to spare. */
  lemma ExtractedAreShort(html: string)
    ensures forall k :: 0 <= k < |ExtractIPAddresses(html)| ==> |ExtractIPAddresses(html)[k]| <= 15
  {
    var r := ExtractIPAddresses(html);
    ExtractedAreQuads(html);
    forall k | 0 <= k < |r| ensures |r[k]| <= 15 {
      var fs := Fields(r[k], '.');
      forall j | 0 <= j < 4 ensures |fs[j]| <= 3 {
        assert GroupOk(ShortNum, fs[j]);
      }
      FieldsBound(r[k], '.', 4);
    }
  }

  /** The tokens come from the leftmost answer region only, each kept once. */
  lemma ExtractFromFirstRegion(html: string, i: nat, b: nat, c: nat)
    requires IsAnswerDiv(html, i, AnswerPattern, b, c)
    requires forall j :: 0 <= j < i ==> DivAt(html, j, AnswerPattern).None?
    ensures forall x :: x in ExtractIPAddresses(html) <==> x in Tokens(html[b..c], 0)
    ensures NoDuplicates(Tokens(html[b..c], 0)) ==> ExtractIPAddresses(html) == Tokens(html[b..c], 0)
  {
    DivAtMeans(html, i, AnswerPattern, b, c);
    assert FirstDiv(html, 0, AnswerPattern) == Some(i);
    assert AnswerRegion(html) == Some(html[b..c]);
    if NoDuplicates(Tokens(html[b..c], 0)) {
      DedupeKeeps(Tokens(html[b..c], 0));
    }
  }

  /** Four groups joined by dots. */
  function Dotted(g1: string, g2: string, g3: string, g4: string): string
  {
    g1 + "." + (g2 + "." + (g3 + "." + g4))
  }

  lemma DottedFields(g1: string, g2: string, g3: string, g4: string)
    requires '.' !in g1 && '.' !in g2 && '.' !in g3 && '.' !in g4
    ensures Fields(Dotted(g1, g2, g3, g4), '.') == [g1, g2, g3, g4]
  {
    assert Dotted(g1, g2, g3, g4) == g1 + ['.'] + (g2 + ['.'] + (g3 + ['.'] + g4));
    FourFields(g1, g2, g3, g4, '.');
  }

  /** Octets are not range-checked: four digit groups joined by dots always form a
      token, ... */
  lemma QuadToken(g1: string, g2: string, g3: string, g4: string)
    requires ShortRun(ShortNum, g1, 3) && ShortRun(ShortNum, g2, 3)
    requires ShortRun(ShortNum, g3, 3) && ShortRun(ShortNum, g4, 3)
    ensures IsIpToken(Dotted(g1, g2, g3, g4), 0, |Dotted(g1, g2, g3, g4)|)
  {
    var t := Dotted(g1, g2, g3, g4);
    GroupDigits(g1);
    GroupDigits(g4);
    DottedEnds(g1, g2, g3, g4);
    QuadFieldsOk(g1, g2, g3, g4);
    assert t[0..|t|] == t;
  }

  lemma DottedEnds(g1: string, g2: string, g3: string, g4: string)
    requires |g1| >= 1 && |g4| >= 1
    ensures var t := Dotted(g1, g2, g3, g4); t[0] == g1[0] && t[|t| - 1] == g4[|g4| - 1]
  {
  }

  lemma QuadFieldsOk(g1: string, g2: string, g3: string, g4: string)
    requires ShortRun(ShortNum, g1, 3) && ShortRun(ShortNum, g2, 3)
    requires ShortRun(ShortNum, g3, 3) && ShortRun(ShortNum, g4, 3)
    ensures FieldsOk(Dotted(g1, g2, g3, g4), '.', ShortNum, 4)
  {
    GroupDigits(g1);
    GroupDigits(g2);
    GroupDigits(g3);
    GroupDigits(g4);
    DottedFields(g1, g2, g3, g4);
  }

  /** ... but `validateIP` accepts it only when every group is at most 255: a token
      such as `999.999.999.999` reaches the classification. */
  lemma QuadIPv4(g1: string, g2: string, g3: string, g4: string)
    requires ShortRun(ShortNum, g1, 3) && ShortRun(ShortNum, g2, 3)
    requires ShortRun(ShortNum, g3, 3) && ShortRun(ShortNum, g4, 3)
    ensures ValidateIP(Dotted(g1, g2, g3, g4)) == IPv4 <==>
      DecimalValue(g1) <= 255 && DecimalValue(g2) <= 255 && DecimalValue(g3) <= 255 && DecimalValue(g4) <= 255
  {
    QuadIsIPv4(g1, g2, g3, g4);
    ValidateIPMeans(Dotted(g1, g2, g3, g4));
  }

  lemma QuadIsIPv4(g1: string, g2: string, g3: string, g4: string)
    requires ShortRun(ShortNum, g1, 3) && ShortRun(ShortNum, g2, 3)
    requires ShortRun(ShortNum, g3, 3) && ShortRun(ShortNum, g4, 3)
    ensures IsIPv4(Dotted(g1, g2, g3, g4)) <==>
      DecimalValue(g1) <= 255 && DecimalValue(g2) <= 255 && DecimalValue(g3) <= 255 && DecimalValue(g4) <= 255
  {
    GroupDigits(g1);
    GroupDigits(g2);
    GroupDigits(g3);
    GroupDigits(g4);
    DottedFields(g1, g2, g3, g4);
    var fs := Fields(Dotted(g1, g2, g3, g4), '.');
    assert fs[0] == g1 && fs[1] == g2 && fs[2] == g3 && fs[3] == g4;
    assert IsIPv4(Dotted(g1, g2, g3, g4)) <==>
      DecimalOctet(g1) && DecimalOctet(g2) && DecimalOctet(g3) && DecimalOctet(g4);
  }

  lemma GroupDigits(g: string)
    requires ShortRun(ShortNum, g, 3)
    ensures AllDigits(g) && '.' !in g && 1 <= |g| <= 3 && IsWordChar(g[0]) && IsWordChar(g[|g| - 1])
  {
  }

  /** Splitting four groups joined by a separator none of them holds gives them back. */
  lemma FourFields(g1: string, g2: string, g3: string, g4: string, sep: char)
    requires sep !in g1 && sep !in g2 && sep !in g3 && sep !in g4
    ensures Fields(g1 + [sep] + (g2 + [sep] + (g3 + [sep] + g4)), sep) == [g1, g2, g3, g4]
  {
    ThreeFields(g2, g3, g4, sep);
    FieldsCons(g1, g2 + [sep] + (g3 + [sep] + g4), sep);
    ConsFour(g1, g2, g3, g4);
  }

  lemma ConsFour(g1: string, g2: string, g3: string, g4: string)
    ensures [g1] + [g2, g3, g4] == [g1, g2, g3, g4]
  {
  }

  lemma ThreeFields(g2: string, g3: string, g4: string, sep: char)
    requires sep !in g2 && sep !in g3 && sep !in g4
    ensures Fields(g2 + [sep] + (g3 + [sep] + g4), sep) == [g2, g3, g4]
  {
    TwoFields(g3, g4, sep);
    FieldsCons(g2, g3 + [sep] + g4, sep);
    assert [g2] + [g3, g4] == [g2, g3, g4];
  }

  lemma TwoFields(g3: string, g4: string, sep: char)
    requires sep !in g3 && sep !in g4
    ensures Fields(g3 + [sep] + g4, sep) == [g3, g4]
  {
    FieldsAt(g4, sep, |g4|);
    FieldsCons(g3, g4, sep);
  }

  /** Splitting a group, the separator and the rest gives the group, then the rest's
      fields. */
  lemma FieldsCons(g: string, r: string, sep: char)
    requires sep !in g
    ensures Fields(g + [sep] + r, sep) == [g] + Fields(r, sep)
  {
    var t := g + [sep] + r;
    assert forall k :: 0 <= k < |g| ==> t[k] == g[k];
    FieldsAt(t, sep, |g|);
    assert t[..|g|] == g && t[|g| + 1..] == r;
  }
}
