/** Character classes and string helpers shared by the models of globalUtil.ts and
    hosts.ts. Strings are JavaScript strings: sequences of UTF-16 code units,
    here `seq<char>`. */
module Text {
  import opened Outcomes

  // ---------------------------------------------------------------------------
  // Character classes of the source's regular expressions
  // ---------------------------------------------------------------------------

  /** `\r` or `\n`, the line terminators that `/\r\n|\r|\n/` recognises. */
  predicate IsTerminator(c: char) { c == '\r' || c == '\n' }

  /** `\d`: an ASCII decimal digit. */
  predicate IsDigit(c: char) { '0' <= c <= '9' }

  /** `[\da-fA-F]`. */
  predicate IsHexDigit(c: char) { IsDigit(c) || 'a' <= c <= 'f' || 'A' <= c <= 'F' }

  /** `\w`, the class `\b` is defined by. */
  predicate IsWordChar(c: char) { IsDigit(c) || 'a' <= c <= 'z' || 'A' <= c <= 'Z' || c == '_' }

  /** `[A-Z]`. */
  predicate IsUpper(c: char) { 'A' <= c <= 'Z' }

  /** Lower-casing of one character, on the ASCII letters only. */
  function ToLower(c: char): (d: char)
    ensures !IsUpper(d)
    ensures IsUpper(c) ==> d as int == c as int + 32
    ensures !IsUpper(c) ==> d == c
  {
    if IsUpper(c) then (c as int + 32) as char else c
  }

  /** Upper-casing of one character, on the ASCII letters only. */
  function ToUpper(c: char): (d: char)
    ensures 'a' <= c <= 'z' ==> IsUpper(d) && ToLower(d) == c
    ensures !('a' <= c <= 'z') ==> d == c
  {
    if 'a' <= c <= 'z' then (c as int - 32) as char else c
  }

  /** The characters `String.prototype.trim` removes: WhiteSpace and LineTerminator
      of ECMAScript (tab, VT, FF, space, NBSP, BOM, the Zs separators, LF, CR, LS, PS). */
  predicate IsJsSpace(c: char)
  {
    c == ' ' || c == '\t' || c == '\n' || c == '\r' || c as int == 0x0B || c as int == 0x0C
    || c as int == 0xA0 || c as int == 0x1680 || 0x2000 <= c as int <= 0x200A
    || c as int == 0x2028 || c as int == 0x2029 || c as int == 0x202F
    || c as int == 0x205F || c as int == 0x3000 || c as int == 0xFEFF
  }

  predicate AllSpace(s: string) { forall k :: 0 <= k < |s| ==> IsJsSpace(s[k]) }

  // ---------------------------------------------------------------------------
  // Searching
  // ---------------------------------------------------------------------------

  /** Index of the leftmost line terminator, or `|s|` when there is none. */
  function FirstTerminator(s: string): (k: nat)
    ensures k <= |s|
    ensures k < |s| ==> IsTerminator(s[k])
    ensures forall j :: 0 <= j < k ==> !IsTerminator(s[j])
  {
    if s == [] then 0
    else if IsTerminator(s[0]) then 0
    else 1 + FirstTerminator(s[1..])
  }

  /** Index of the leftmost `c`, or `|s|` when `c` does not occur. */
  function IndexOfChar(s: string, c: char): (k: nat)
    ensures k <= |s|
    ensures k < |s| ==> s[k] == c
    ensures forall j :: 0 <= j < k ==> s[j] != c
  {
    if s == [] then 0
    else if s[0] == c then 0
    else 1 + IndexOfChar(s[1..], c)
  }

  /** `w` occurs in `s` starting at index `i`. */
  predicate OccursAt(s: string, w: string, i: int)
  {
    0 <= i && i + |w| <= |s| && MatchesFrom(s, w, i, 0)
  }

  /** The characters of `w` from index `k` on sit at `i + k` onwards in `s`. */
  predicate MatchesFrom(s: string, w: string, i: nat, k: nat)
    requires i + |w| <= |s|
    decreases |w| - k
  {
    k >= |w| || (s[i + k] == w[k] && MatchesFrom(s, w, i, k + 1))
  }

  lemma {:induction false} MatchesFromAll(s: string, w: string, i: nat, k: nat)
    requires i + |w| <= |s|
    ensures MatchesFrom(s, w, i, k) <==> forall j :: k <= j < |w| ==> s[i + j] == w[j]
    decreases |w| - k
  {
    if k < |w| {
      MatchesFromAll(s, w, i, k + 1);
    }
  }

  /** An occurrence is a slice equal to the word. */
  lemma OccursAtSlice(s: string, w: string, i: int)
    ensures OccursAt(s, w, i) <==> 0 <= i && i + |w| <= |s| && s[i..i + |w|] == w
  {
    if 0 <= i && i + |w| <= |s| {
      MatchesFromAll(s, w, i, 0);
      if s[i..i + |w|] == w {
        forall j | 0 <= j < |w| ensures s[i + j] == w[j] {
          assert s[i..i + |w|][j] == w[j];
        }
      }
      if MatchesFrom(s, w, i, 0) {
        assert s[i..i + |w|] == w by {
          forall j | 0 <= j < |w| ensures s[i..i + |w|][j] == w[j] {
            assert s[i + j] == w[j];
          }
        }
      }
    }
  }

  /** A word occurs where it is placed between two texts. */
  lemma OccursBetween(x: string, w: string, y: string)
    ensures OccursAt(x + w + y, w, |x|)
  {
    var s := x + w + y;
    MatchesFromAll(s, w, |x|, 0);
    assert forall j :: 0 <= j < |w| ==> s[|x| + j] == w[j];
  }

  /** `s.indexOf(w, from)`: the leftmost occurrence of `w` at or after `from`. */
  function Find(s: string, w: string, from: nat): (r: Option<nat>)
    ensures r.Some? ==> from <= r.value && OccursAt(s, w, r.value)
    ensures r.Some? ==> forall j :: from <= j < r.value ==> !OccursAt(s, w, j)
    ensures r.None? ==> forall j :: from <= j ==> !OccursAt(s, w, j)
    decreases |s| - from
  {
    if from + |w| > |s| then None
    else if OccursAt(s, w, from) then Some(from)
    else Find(s, w, from + 1)
  }

  /** The rightmost occurrence of `w` that starts at or after `lo` and ends at or before `hi`. */
  function FindLast(s: string, w: string, lo: nat, hi: nat): (r: Option<nat>)
    requires hi <= |s|
    ensures r.Some? ==> lo <= r.value && r.value + |w| <= hi && OccursAt(s, w, r.value)
    ensures r.Some? ==> forall j :: r.value < j && j + |w| <= hi ==> !OccursAt(s, w, j)
    ensures r.None? ==> forall j :: lo <= j && j + |w| <= hi ==> !OccursAt(s, w, j)
    decreases hi
  {
    if hi < lo + |w| then None
    else if OccursAt(s, w, hi - |w|) then Some(hi - |w|)
    else FindLast(s, w, lo, hi - 1)
  }

  /** An occurrence of `w` puts `w`'s characters at the matching positions of `s`. */
  lemma OccursAtChar(s: string, w: string, i: int, k: int)
    requires OccursAt(s, w, i) && 0 <= k < |w|
    ensures s[i + k] == w[k]
  {
    MatchesFromAll(s, w, i, 0);
  }

  // ---------------------------------------------------------------------------
  // Splitting and joining
  // ---------------------------------------------------------------------------

  /** `s.split(sep)` for a one-character separator: the fields between separators. */
  function Fields(s: string, sep: char): (r: seq<string>)
    ensures |r| >= 1
    ensures forall k :: 0 <= k < |r| ==> sep !in r[k]
    decreases |s|
  {
    var m := IndexOfChar(s, sep);
    if m == |s| then [s] else [s[..m]] + Fields(s[m + 1..], sep)
  }

  /** `parts.join(sep)`. */
  function Join(parts: seq<string>, sep: string): (r: string)
    ensures |parts| == 1 ==> r == parts[0]
  {
    if |parts| == 0 then ""
    else if |parts| == 1 then parts[0]
    else parts[0] + sep + Join(parts[1..], sep)
  }

  /** Joining brings in no character that neither the parts nor the separator hold. */
  lemma {:induction false} JoinAvoids(parts: seq<string>, sep: string, c: char)
    requires forall k :: 0 <= k < |parts| ==> c !in parts[k]
    requires c !in sep
    ensures c !in Join(parts, sep)
  {
    if |parts| > 1 {
      JoinAvoids(parts[1..], sep, c);
    }
  }

  // ---------------------------------------------------------------------------
  // Trimming
  // ---------------------------------------------------------------------------

  /** The index of the first character at or after `i` that is not white space, or
      `|s|`. */
  function SpaceEnd(s: string, i: nat): (k: nat)
    requires i <= |s|
    ensures i <= k <= |s|
    ensures k < |s| ==> !IsJsSpace(s[k])
    decreases |s| - i
  {
    if i < |s| && IsJsSpace(s[i]) then SpaceEnd(s, i + 1) else i
  }

  /** Everything `SpaceEnd` skips is white space. */
  lemma {:induction false} SpaceEndSkips(s: string, i: nat)
    requires i <= |s|
    ensures forall j :: i <= j < SpaceEnd(s, i) ==> IsJsSpace(s[j])
    decreases |s| - i
  {
    if i < |s| && IsJsSpace(s[i]) {
      SpaceEndSkips(s, i + 1);
    }
  }

  /** The index just past the last character before `j` that is not white space, or
      0. */
  function SpaceStart(s: string, j: nat): (k: nat)
    requires j <= |s|
    ensures k <= j
    ensures k > 0 ==> !IsJsSpace(s[k - 1])
  {
    if j > 0 && IsJsSpace(s[j - 1]) then SpaceStart(s, j - 1) else j
  }

  /** Everything `SpaceStart` skips is white space. */
  lemma {:induction false} SpaceStartSkips(s: string, j: nat)
    requires j <= |s|
    ensures forall i :: SpaceStart(s, j) <= i < j ==> IsJsSpace(s[i])
  {
    if j > 0 && IsJsSpace(s[j - 1]) {
      SpaceStartSkips(s, j - 1);
    }
  }

  /** The run of white space that ends at the first other character is the one
      `SpaceEnd` skips. */
  lemma {:induction false} SpaceEndUnique(s: string, i: nat, k: nat)
    requires i <= k <= |s|
    requires k < |s| ==> !IsJsSpace(s[k])
    requires forall j :: i <= j < k ==> IsJsSpace(s[j])
    ensures SpaceEnd(s, i) == k
    decreases k - i
  {
    if i < k {
      SpaceEndUnique(s, i + 1, k);
    }
  }

  /** The run of white space that starts after the last other character is the one
      `SpaceStart` skips. */
  lemma {:induction false} SpaceStartUnique(s: string, j: nat, k: nat)
    requires k <= j <= |s|
    requires k > 0 ==> !IsJsSpace(s[k - 1])
    requires forall i :: k <= i < j ==> IsJsSpace(s[i])
    ensures SpaceStart(s, j) == k
    decreases j - k
  {
    if k < j {
      SpaceStartUnique(s, j - 1, k);
    }
  }

  /** `s.trimStart()`. */
  function TrimStart(s: string): string
  {
    s[SpaceEnd(s, 0)..]
  }

  /** `s.trimEnd()`. */
  function TrimEnd(s: string): string
  {
    s[..SpaceStart(s, |s|)]
  }

  /** `s.trim()`. */
  function Trim(s: string): string
  {
    TrimEnd(TrimStart(s))
  }

  /** White space after the text does not change where its last other character is. */
  lemma TrimEndPadded(x: string, w: string)
    requires AllSpace(w)
    ensures TrimEnd(x + w) == TrimEnd(x)
  {
    var b := SpaceStart(x, |x|);
    SpaceStartSkips(x, |x|);
    SpaceStartUnique(x + w, |x + w|, b);
    assert (x + w)[..b] == x[..b];
  }

  /** Trimming removes exactly the leading and the trailing run of white space: a
      string padded with white space on either side trims to what the unpadded one does. */
  lemma TrimPadded(w1: string, x: string, w2: string)
    requires AllSpace(w1) && AllSpace(w2)
    ensures Trim(w1 + x + w2) == Trim(x)
  {
    var a := SpaceEnd(x, 0);
    if a < |x| {
      LeadingRun(w1, x, w2);
      DropPadded(w1, x, w2, a);
      TrimEndPadded(x[a..], w2);
    } else {
      BlankRun(w1, x, w2);
    }
  }

  /** Before a text that is not all white space, the leading run of `w1 + x + w2` is
      `w1` and the leading run of `x`. */
  lemma LeadingRun(w1: string, x: string, w2: string)
    requires AllSpace(w1) && SpaceEnd(x, 0) < |x|
    ensures SpaceEnd(w1 + x + w2, 0) == |w1| + SpaceEnd(x, 0)
  {
    var t := w1 + x + w2;
    var a := SpaceEnd(x, 0);
    SpaceEndSkips(x, 0);
    forall j | 0 <= j < |w1| + a ensures IsJsSpace(t[j]) {
      if j < |w1| {
        assert t[j] == w1[j];
      } else {
        assert t[j] == x[j - |w1|];
      }
    }
    assert t[|w1| + a] == x[a];
    SpaceEndUnique(t, 0, |w1| + a);
  }

  /** White space padded with white space is white space throughout. */
  lemma BlankRun(w1: string, x: string, w2: string)
    requires AllSpace(w1) && AllSpace(w2) && SpaceEnd(x, 0) == |x|
    ensures SpaceEnd(w1 + x + w2, 0) == |w1 + x + w2|
  {
    var t := w1 + x + w2;
    SpaceEndSkips(x, 0);
    forall j | 0 <= j < |t| ensures IsJsSpace(t[j]) {
      if j < |w1| {
        assert t[j] == w1[j];
      } else if j < |w1| + |x| {
        assert t[j] == x[j - |w1|];
      } else {
        assert t[j] == w2[j - |w1| - |x|];
      }
    }
    SpaceEndUnique(t, 0, |t|);
  }

  /** Dropping `w1` and a prefix of `x` from `w1 + x + w2` leaves the rest of `x`, then `w2`. */
  lemma DropPadded(w1: string, x: string, w2: string, a: nat)
    requires a <= |x|
    ensures (w1 + x + w2)[|w1| + a..] == x[a..] + w2
  {
  }

  /** A character that is not white space survives trimming. */
  lemma TrimKeeps(s: string, k: nat)
    requires k < |s| && !IsJsSpace(s[k])
    ensures s[k] in Trim(s)
  {
    var a := SpaceEnd(s, 0);
    var y := s[a..];
    var b := SpaceStart(y, |y|);
    SpaceEndSkips(s, 0);
    SpaceStartSkips(y, |y|);
    assert y[k - a] == s[k];
    assert y[..b][k - a] == s[k];
  }

  /** Trimming only removes characters: whatever the result holds, the input held. */
  lemma TrimChars(s: string, c: char)
    requires c in Trim(s)
    ensures c in s
  {
    var a := SpaceEnd(s, 0);
    var y := s[a..];
    var b := SpaceStart(y, |y|);
    var k :| 0 <= k < b && y[..b][k] == c;
    assert s[a + k] == c;
  }
}
