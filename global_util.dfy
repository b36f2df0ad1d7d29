/** The general-purpose helpers of src/utils/globalUtil.ts: fixed-width padding,
    line splitting, camel-case conversion, a sequential retry and a deep merge. */
module GlobalUtil {
  import opened Outcomes
  import opened Text

  // ---------------------------------------------------------------------------
  // lJust
  // ---------------------------------------------------------------------------

  /** `s.repeat(n)`. */
  function Repeat(s: string, n: nat): (r: string)
    ensures |r| == n * |s|
    ensures forall k :: 0 <= k < |r| ==> r[k] in s
  {
    if n == 0 then "" else Repeat(s, n - 1) + s
  }

  /** The `i`-th stretch of `|s|` characters is a copy of `s`: the result is `n` copies. */
  lemma {:induction false} RepeatCopies(s: string, n: nat, i: nat)
    requires i < n
    ensures (i + 1) * |s| <= |Repeat(s, n)|
    ensures Repeat(s, n)[i * |s|..(i + 1) * |s|] == s
  {
    var prev := Repeat(s, n - 1);
    assert (i + 1) * |s| == i * |s| + |s|;
    assert n * |s| == (n - 1) * |s| + |s|;
    if i < n - 1 {
      RepeatCopies(s, n - 1, i);
      assert (i + 1) * |s| <= (n - 1) * |s|;
      assert Repeat(s, n)[i * |s|..(i + 1) * |s|] == prev[i * |s|..(i + 1) * |s|];
    } else {
      assert Repeat(s, n)[i * |s|..(i + 1) * |s|] == (prev + s)[|prev|..];
    }
  }

  function Max(a: int, b: int): int { if a < b then b else a }

  /** `lJust(str, total, fillChar)`: `str` followed by `max(0, total - |str|)` copies of
      `fillChar`. */
  function LJust(str: string, total: int, fillChar: string := " "): (r: string)
    ensures |r| >= |str| && r[..|str|] == str
    ensures forall k :: |str| <= k < |r| ==> r[k] in fillChar
    ensures |r| == |str| + Max(0, total - |str|) * |fillChar|
    ensures |fillChar| == 1 ==> |r| == Max(total, |str|)
    ensures |str| >= total ==> r == str
  {
    str + Repeat(fillChar, Max(0, total - |str|))
  }

  /** Space padding is undone by trimming the end: the padded column holds nothing
      but the value and blanks. */
  lemma LJustTrimEnd(str: string, total: int)
    ensures TrimEnd(LJust(str, total)) == TrimEnd(str)
  {
    var pad := Repeat(" ", Max(0, total - |str|));
    assert AllSpace(pad) by {
      forall k | 0 <= k < |pad| ensures IsJsSpace(pad[k]) { assert pad[k] in " "; }
    }
    TrimEndPadded(str, pad);
  }

  // ---------------------------------------------------------------------------
  // splitLines
  // ---------------------------------------------------------------------------

  predicate NoTerminator(s: string) { forall k :: 0 <= k < |s| ==> !IsTerminator(s[k]) }

  /** `str.split(/\r\n|\r|\n/)`: at each leftmost terminator, `\r\n` is tried first. */
  function SplitLines(s: string): (r: seq<string>)
    ensures |r| >= 1
    ensures forall k :: 0 <= k < |r| ==> NoTerminator(r[k])
    decreases |s|
  {
    var k := FirstTerminator(s);
    if k == |s| then [s]
    else
      var width := if s[k] == '\r' && k + 1 < |s| && s[k + 1] == '\n' then 2 else 1;
      [s[..k]] + SplitLines(s[k + width..])
  }

  /** `\r\n` is one separator, not a separator followed by an empty line. */
  lemma SplitLinesCrLf(a: string, b: string)
    requires NoTerminator(a)
    ensures SplitLines(a + "\r\n" + b) == [a] + SplitLines(b)
  {
    var s := a + "\r\n" + b;
    assert s[|a|] == '\r' && s[|a| + 1] == '\n';
    assert FirstTerminator(s) == |a| by {
      forall j | 0 <= j < |a| ensures !IsTerminator(s[j]) { assert s[j] == a[j]; }
    }
    assert s[..|a|] == a;
    assert s[|a| + 2..] == b;
  }

  /** For text that uses `\n` only, joining the lines with `\n` gives the text back. */
  lemma {:induction false} SplitLinesJoin(s: string)
    requires '\r' !in s
    ensures Join(SplitLines(s), "\n") == s
    decreases |s|
  {
    var k := FirstTerminator(s);
    if k < |s| {
      assert s[k] == '\n';
      var rest := s[k + 1..];
      assert '\r' !in rest by {
        forall j | 0 <= j < |rest| ensures rest[j] != '\r' { assert rest[j] == s[k + 1 + j]; }
      }
      SplitLinesJoin(rest);
      var lines := SplitLines(s);
      assert lines == [s[..k]] + SplitLines(rest);
      assert lines[1..] == SplitLines(rest);
      assert Join(lines, "\n") == s[..k] + "\n" + rest;
      assert s == s[..k] + "\n" + rest;
    }
  }

  /** A line without terminators followed by one separator is split off the front,
      unless the separator is `\r` and a `\n` comes next. */
  lemma SplitAfter(a: string, sep: string, rest: string)
    requires NoTerminator(a)
    requires sep == "\n" || sep == "\r\n" || sep == "\r"
    requires sep == "\r" ==> rest == [] || rest[0] != '\n'
    ensures SplitLines(a + sep + rest) == [a] + SplitLines(rest)
  {
    if sep == "\r\n" {
      SplitLinesCrLf(a, rest);
    } else {
      var s := a + sep + rest;
      assert FirstTerminator(s) == |a| by {
        forall j | 0 <= j < |a| ensures !IsTerminator(s[j]) { assert s[j] == a[j]; }
        assert s[|a|] == sep[0];
      }
      assert s[..|a|] == a;
      assert sep == "\r" && rest != [] ==> s[|a| + 1] == rest[0];
      assert s[|a| + 1..] == rest;
    }
  }

  /** Lines without terminators joined by `\r` do not start with `\n`. */
  lemma JoinStart(parts: seq<string>, sep: string)
    requires |parts| >= 1 && sep == "\r"
    requires forall k :: 0 <= k < |parts| ==> NoTerminator(parts[k])
    ensures Join(parts, sep) == [] || Join(parts, sep)[0] != '\n'
  {
    if |parts[0]| > 0 {
      JoinHead(parts, sep);
      assert Join(parts, sep)[0] == parts[0][0];
    } else if |parts| >= 2 {
      JoinEmptyHead(parts, sep);
    }
  }

  /** Lines without terminators, joined by any one of the three terminators, split
      back into the same lines. */
  lemma {:induction false} JoinSplitLines(lines: seq<string>, sep: string)
    requires |lines| >= 1
    requires sep == "\n" || sep == "\r\n" || sep == "\r"
    requires forall k :: 0 <= k < |lines| ==> NoTerminator(lines[k])
    ensures SplitLines(Join(lines, sep)) == lines
    decreases |lines|
  {
    if |lines| > 1 {
      var head, tail := lines[0], lines[1..];
      JoinSplitLines(tail, sep);
      JoinCons(lines, sep);
      JoinSplitStep(head, tail, sep);
      ConsTail(lines);
    }
  }

  /** One step of the induction: a line and its separator in front of joined lines
      split off again. */
  lemma JoinSplitStep(head: string, tail: seq<string>, sep: string)
    requires |tail| >= 1 && NoTerminator(head)
    requires sep == "\n" || sep == "\r\n" || sep == "\r"
    requires forall k :: 0 <= k < |tail| ==> NoTerminator(tail[k])
    requires SplitLines(Join(tail, sep)) == tail
    ensures SplitLines(head + sep + Join(tail, sep)) == [head] + tail
  {
    if sep == "\r" {
      JoinStart(tail, sep);
    }
    SplitAfter(head, sep, Join(tail, sep));
  }

  /** Joining at least two parts puts the first and a separator before the rest. */
  lemma JoinCons(parts: seq<string>, sep: string)
    requires |parts| >= 2
    ensures Join(parts, sep) == parts[0] + sep + Join(parts[1..], sep)
  {
  }

  /** A sequence is its head followed by its tail. */
  lemma ConsTail<T>(s: seq<T>)
    requires |s| >= 1
    ensures [s[0]] + s[1..] == s
  {
  }

  lemma JoinHead(parts: seq<string>, sep: string)
    requires |parts| >= 1
    ensures |Join(parts, sep)| >= |parts[0]| && Join(parts, sep)[..|parts[0]|] == parts[0]
  {
  }

  lemma JoinEmptyHead(parts: seq<string>, sep: string)
    requires |parts| >= 2 && parts[0] == ""
    ensures Join(parts, sep) == sep + Join(parts[1..], sep)
  {
  }

  // ---------------------------------------------------------------------------
  // transferCamel
  // ---------------------------------------------------------------------------

  function CountUpper(s: string): nat
  {
    if s == [] then 0 else (if IsUpper(s[0]) then 1 else 0) + CountUpper(s[1..])
  }

  /** `s.replace(/([A-Z])/g, '-$1')`: one `-` more per capital, and every capital has a
      `-` right before it. */
  function Dasherize(s: string): (r: string)
    ensures |r| == |s| + CountUpper(s)
    ensures forall k :: 0 <= k < |r| && IsUpper(r[k]) ==> 0 < k && r[k - 1] == '-'
  {
    if s == [] then []
    else (if IsUpper(s[0]) then ['-', s[0]] else [s[0]]) + Dasherize(s[1..])
  }

  /** The replacement works character by character, so it distributes over `+`. */
  lemma {:induction false} DasherizeAppend(a: string, b: string)
    ensures Dasherize(a + b) == Dasherize(a) + Dasherize(b)
    decreases |a|
  {
    if a != [] {
      assert (a + b)[0] == a[0] && (a + b)[1..] == a[1..] + b;
      DasherizeAppend(a[1..], b);
    } else {
      assert a + b == b;
    }
  }

  /** `t` with every `-` removed. */
  function StripDashes(t: string): (r: string)
    ensures '-' !in r && |r| <= |t|
  {
    if t == [] then [] else (if t[0] == '-' then [] else [t[0]]) + StripDashes(t[1..])
  }

  /** The only characters added are dashes: removing the dashes from both sides gives the
      same text, so a name without `-` comes back unchanged. */
  lemma {:induction false} DasherizeStrip(s: string)
    ensures StripDashes(Dasherize(s)) == StripDashes(s)
    ensures '-' !in s ==> StripDashes(Dasherize(s)) == s
  {
    if s != [] {
      DasherizeStrip(s[1..]);
      var head := if IsUpper(s[0]) then ['-', s[0]] else [s[0]];
      StripAppend(head, Dasherize(s[1..]));
      if '-' !in s {
        assert '-' !in s[1..];
        assert s == [s[0]] + s[1..];
      }
    }
  }

  lemma {:induction false} StripAppend(a: string, b: string)
    ensures StripDashes(a + b) == StripDashes(a) + StripDashes(b)
    decreases |a|
  {
    if a != [] {
      assert (a + b)[0] == a[0] && (a + b)[1..] == a[1..] + b;
      StripAppend(a[1..], b);
    } else {
      assert a + b == b;
    }
  }

  /** `s.toLowerCase()`, on ASCII letters: no capital is left, every capital becomes
      its small letter, and every other character is kept. */
  function LowerAll(s: string): (r: string)
    ensures |r| == |s|
    ensures forall k :: 0 <= k < |r| ==> !IsUpper(r[k])
    ensures forall k :: 0 <= k < |s| && IsUpper(s[k]) ==> r[k] as int == s[k] as int + 32
    ensures forall k :: 0 <= k < |s| && !IsUpper(s[k]) ==> r[k] == s[k]
  {
    seq(|s|, k requires 0 <= k < |s| => ToLower(s[k]))
  }

  /** Lower-casing twice is lower-casing once. */
  lemma LowerAllIdempotent(s: string)
    ensures LowerAll(LowerAll(s)) == LowerAll(s)
  {
  }

  /** `transferCamel(camel)`: a `-` before every capital, everything lower-cased, and
      the first character dropped. */
  function TransferCamel(camel: string): (r: string)
    ensures forall k :: 0 <= k < |r| ==> !IsUpper(r[k])
    ensures camel != [] ==> |r| == |camel| + CountUpper(camel) - 1
  {
    var t := LowerAll(Dasherize(camel));
    if t == [] then [] else t[1..]
  }

  /** Kebab-case back to Pascal case: capitalise the first letter and every letter that
      follows a `-`, and drop the `-`. The inverse of `TransferCamel` on Pascal-case names. */
  function KebabToPascal(t: string): string
  {
    if t == [] then [] else [ToUpper(t[0])] + UndoDashes(t[1..])
  }

  function UndoDashes(t: string): string
  {
    if t == [] then []
    else if t[0] == '-' && |t| >= 2 then [ToUpper(t[1])] + UndoDashes(t[2..])
    else [t[0]] + UndoDashes(t[1..])
  }

  /** On a Pascal-case name (a capital first, no `-`), `TransferCamel` yields the kebab
      form, which converts back to the same name. */
  lemma TransferCamelRoundTrip(s: string)
    requires s != [] && IsUpper(s[0]) && '-' !in s
    ensures KebabToPascal(TransferCamel(s)) == s
  {
    var rest := NoDashTail(s);
    TransferCamelOfCapital(s, rest);
    UndoDashesInverse(rest);
    CapitalRoundTrip(s[0]);
    PascalHead(ToLower(s[0]), LowerAll(Dasherize(rest)));
  }

  lemma NoDashTail(s: string) returns (rest: string)
    requires s != [] && '-' !in s
    ensures rest == s[1..] && '-' !in rest && s == [s[0]] + rest
  {
    rest := s[1..];
    assert '-' !in rest by {
      forall j | 0 <= j < |rest| ensures rest[j] != '-' { assert rest[j] == s[j + 1]; }
    }
  }

  lemma TransferCamelOfCapital(s: string, rest: string)
    requires s != [] && IsUpper(s[0]) && rest == s[1..]
    ensures TransferCamel(s) == [ToLower(s[0])] + LowerAll(Dasherize(rest))
  {
    var d := Dasherize(rest);
    assert Dasherize(s) == ['-', s[0]] + d;
    LowerAllAppend(['-', s[0]], d);
    assert LowerAll(['-', s[0]]) == ['-', ToLower(s[0])];
  }

  lemma CapitalRoundTrip(c: char)
    requires IsUpper(c)
    ensures ToUpper(ToLower(c)) == c
  {
  }

  lemma PascalHead(c: char, t: string)
    ensures KebabToPascal([c] + t) == [ToUpper(c)] + UndoDashes(t)
  {
    assert ([c] + t)[1..] == t;
  }

  lemma LowerAllAppend(a: string, b: string)
    ensures LowerAll(a + b) == LowerAll(a) + LowerAll(b)
  {
  }

  lemma {:induction false} UndoDashesInverse(s: string)
    requires '-' !in s
    ensures UndoDashes(LowerAll(Dasherize(s))) == s
    decreases |s|
  {
    if s != [] {
      var rest := NoDashTail(s);
      UndoDashesInverse(rest);
      UndoDashesStep(s, rest);
    }
  }

  lemma UndoDashesStep(s: string, rest: string)
    requires s != [] && s[0] != '-' && rest == s[1..]
    requires UndoDashes(LowerAll(Dasherize(rest))) == rest
    ensures UndoDashes(LowerAll(Dasherize(s))) == s
  {
    var head := if IsUpper(s[0]) then ['-', s[0]] else [s[0]];
    var l := LowerAll(Dasherize(rest));
    var t := LowerAll(head) + l;
    assert LowerAll(Dasherize(s)) == t by {
      assert Dasherize(s) == head + Dasherize(rest);
      LowerAllAppend(head, Dasherize(rest));
    }
    if IsUpper(s[0]) {
      assert t[0] == '-' && t[1] == ToLower(s[0]) && t[2..] == l;
      CapitalRoundTrip(s[0]);
    } else {
      assert t[0] == s[0] && t[1..] == l;
    }
    assert s == [s[0]] + rest;
  }

  /** On a name that does not start with a capital, the first character is lost:
      `transferCamel('fooBar')` is `'oo-bar'`. The conversion assumes Pascal case. */
  lemma TransferCamelDropsFirst(s: string)
    requires s != [] && !IsUpper(s[0])
    ensures TransferCamel(s) == LowerAll(Dasherize(s[1..]))
  {
    assert Dasherize(s) == [s[0]] + Dasherize(s[1..]);
    LowerAllAppend([s[0]], Dasherize(s[1..]));
  }

  // ---------------------------------------------------------------------------
  // retrySync
  // ---------------------------------------------------------------------------

  /** How many calls `retrySync(fn, retries, ...)` makes at most. */
  function Budget(retries: int): nat
  {
    if retries <= 0 then 1 else retries + 1
  }

  /** `retrySync(fn, retries, delay, ...args)`. `fn(k)` is the outcome of the k-th call
      (counting from 0) of the wrapped operation on the fixed arguments; the wait of
      `delay` milliseconds between calls has no observable effect here. Returns the
      outcome and the number of calls made. */
  method RetrySync<T>(fn: nat -> Settled<T>, retries: int, delay: int) returns (r: Settled<T>, calls: nat)
    ensures 1 <= calls <= Budget(retries)
    ensures r == fn(calls - 1)
    ensures forall k :: 0 <= k < calls - 1 ==> fn(k).Rejected?
    ensures r.Rejected? ==> calls == Budget(retries)
  {
    var attempts := retries;
    r := fn(0);
    calls := 1;
    while r.Rejected?
      invariant 1 <= calls <= Budget(retries)
      invariant attempts == retries - (calls - 1)
      invariant r == fn(calls - 1)
      invariant forall k :: 0 <= k < calls - 1 ==> fn(k).Rejected?
      decreases Budget(retries) - calls
    {
      var exhausted := attempts <= 0;
      attempts := attempts - 1;
      if exhausted {
        return;
      }
      r := fn(calls);
      calls := calls + 1;
    }
  }

  // ---------------------------------------------------------------------------
  // mergeDeep
  // ---------------------------------------------------------------------------

  /** A JavaScript value that is not an object. Numbers are integers here. */
  datatype Scalar = Undefined | Null | Bool(b: bool) | Num(n: int) | Str(s: string)

  /** A JavaScript value: a primitive, or a plain object or array with its own
      enumerable properties (an array's are its indices). */
  datatype Json = Prim(p: Scalar) | Obj(isArray: bool, fields: map<string, Json>)

  /** `!!v`. */
  predicate Truthy(v: Json)
  {
    match v
    case Obj(_, _) => true
    case Prim(Bool(b)) => b
    case Prim(Num(n)) => n != 0
    case Prim(Str(s)) => s != ""
    case Prim(_) => false
  }

  /** What assigning a property of a primitive throws in strict mode. */
  const PrimitiveWrite := TypeError("Cannot create property on a primitive value")

  /** The target keys the `for...in` loop acts on: `key.toLocaleLowerCase()` for every
      source key whose lower-cased form the source also owns. */
  function Touched(src: map<string, Json>): set<string>
  {
    set key | key in src && LowerAll(key) in src :: LowerAll(key)
  }

  /** The value the recursion merges into: `target[key]` when truthy, else a fresh
      `[]` or `{}` of the source value's kind. */
  function Base(tf: map<string, Json>, k: string, v: Json): Json
    requires v.Obj?
  {
    if k in tf && Truthy(tf[k]) then tf[k] else Obj(v.isArray, map[])
  }

  /** What `mergeDeep(target, source)` leaves in `target` (or the error it throws). */
  function Merge(target: Json, source: Json): (r: Settled<Json>)
    requires source.Obj?
    ensures r.Rejected? ==> r.reason == PrimitiveWrite
    decreases source, 1
  {
    var keys := Touched(source.fields);
    if keys == {} then Fulfilled(target)
    else if target.Prim? then Rejected(PrimitiveWrite)
    else if exists k :: k in keys && MergeChild(target.fields, source, k).Rejected? then Rejected(PrimitiveWrite)
    else
      Fulfilled(Obj(target.isArray,
        map k | k in target.fields.Keys + keys ::
          if k in keys then MergeChild(target.fields, source, k).value else target.fields[k]))
  }

  /** The new `target[k]`: the source value itself when it is not an object, otherwise
      the merge of it into `Base`. */
  function MergeChild(tf: map<string, Json>, source: Json, k: string): (r: Settled<Json>)
    requires source.Obj? && k in source.fields
    ensures r.Rejected? ==> r.reason == PrimitiveWrite
    decreases source, 0
  {
    var v := source.fields[k];
    if v.Obj? then Merge(Base(tf, k, v), v) else Fulfilled(v)
  }

  /** `target` with the children of the keys in `done` merged, the rest as before. */
  function Partial(target: Json, source: Json, done: set<string>): Json
    requires target.Obj? && source.Obj?
    requires done <= Touched(source.fields)
    requires forall k :: k in done ==> MergeChild(target.fields, source, k).Fulfilled?
  {
    Obj(target.isArray,
      map k | k in target.fields.Keys + done ::
        if k in done then MergeChild(target.fields, source, k).value else target.fields[k])
  }

  lemma TouchedIsLowerKeys(src: map<string, Json>)
    ensures forall k :: k in Touched(src) <==> k in src && LowerAll(k) == k
  {
    forall k | k in src && LowerAll(k) == k ensures k in Touched(src) {
      assert LowerAll(k) in src;
    }
  }

  /** Key by key, a successful merge keeps the target's own properties, overwrites
      every lower-case key the source owns with the source's primitive, and merges the
      source's objects into the existing truthy child (or a fresh `[]`/`{}`). With no
      lower-case source key the target comes back unchanged, even a primitive. */
  lemma MergeMeans(target: Json, source: Json, k: string)
    requires source.Obj? && Merge(target, source).Fulfilled?
    ensures var owned := k in source.fields && LowerAll(k) == k;
      var r := Merge(target, source).value;
      && (Touched(source.fields) == {} ==> r == target)
      && (Touched(source.fields) != {} ==>
            && target.Obj? && r.Obj? && r.isArray == target.isArray
            && (k in r.fields <==> k in target.fields || owned)
            && (k in target.fields && !owned ==> r.fields[k] == target.fields[k])
            && (owned && source.fields[k].Prim? ==> r.fields[k] == source.fields[k])
            && (owned && source.fields[k].Obj? ==>
                  Merge(Base(target.fields, k, source.fields[k]), source.fields[k]) == Fulfilled(r.fields[k])))
  {
    TouchedIsLowerKeys(source.fields);
  }

  /** `mergeDeep(target, source)`, on values. The `for...in` loop visits every own key
      of `source` once, in an order the model leaves open; the result does not depend
      on it. */
  method MergeDeep(target: Json, source: Json) returns (r: Settled<Json>)
    requires source.Obj?
    ensures r == Merge(target, source)
    decreases source, 1
  {
    var keys := source.fields.Keys;
    var t := target;
    ghost var done: set<string> := {};
    TouchedIsLowerKeys(source.fields);
    if target.Obj? { PartialNone(target, source); }
    while keys != {}
      invariant keys <= source.fields.Keys
      invariant done <= Touched(source.fields)
      invariant forall k :: k in Touched(source.fields) && k !in keys ==> k in done
      invariant target.Obj? ==> forall k :: k in done ==> MergeChild(target.fields, source, k).Fulfilled?
      invariant target.Prim? ==> t == target && done == {}
      invariant target.Obj? ==> t == Partial(target, source, done)
      decreases keys
    {
      var key :| key in keys;
      keys := keys - {key};
      var lk := LowerAll(key);
      if lk in source.fields {
        assert lk in Touched(source.fields);
        var value := source.fields[lk];
        if t.Prim? {
          return Rejected(PrimitiveWrite);
        }
        var child := value;
        if value.Obj? {
          var base := Base(t.fields, lk, value);
          MergeAgain(target, source, done, lk);
          var m := MergeDeep(base, value);
          if m.Rejected? {
            assert MergeChild(target.fields, source, lk).Rejected?;
            return m;
          }
          child := m.value;
        }
        PartialStep(target, source, done, lk);
        t := t.(fields := t.fields[lk := child]);
        done := done + {lk};
      }
    }
    if target.Obj? {
      assert done == Touched(source.fields);
      MergeAll(target, source);
    }
    r := Fulfilled(t);
  }

  lemma MergeAll(target: Json, source: Json)
    requires target.Obj? && source.Obj?
    requires forall k :: k in Touched(source.fields) ==> MergeChild(target.fields, source, k).Fulfilled?
    ensures Merge(target, source) == Fulfilled(Partial(target, source, Touched(source.fields)))
  {
    if Touched(source.fields) == {} {
      PartialNone(target, source);
    }
  }

  lemma PartialNone(target: Json, source: Json)
    requires target.Obj? && source.Obj?
    ensures Partial(target, source, {}) == target
  {
    assert Partial(target, source, {}).fields == target.fields;
  }

  /** Merging one more key into the partial result. */
  lemma PartialStep(target: Json, source: Json, done: set<string>, k: string)
    requires target.Obj? && source.Obj?
    requires done <= Touched(source.fields) && k in Touched(source.fields)
    requires forall j :: j in done + {k} ==> MergeChild(target.fields, source, j).Fulfilled?
    ensures var p := Partial(target, source, done);
      Partial(target, source, done + {k}) == p.(fields := p.fields[k := MergeChild(target.fields, source, k).value])
  {
    var p := Partial(target, source, done);
    var q := Partial(target, source, done + {k});
    assert q.fields == p.fields[k := MergeChild(target.fields, source, k).value];
  }

  /** The merge of a key's source value into the partial result's current value gives
      what the merge into the original target's value gives: for a key not reached yet
      the two bases agree, and for one reached before the second merge is idempotent. */
  lemma MergeAgain(target: Json, source: Json, done: set<string>, k: string)
    requires target.Obj? && source.Obj?
    requires done <= Touched(source.fields) && k in Touched(source.fields)
    requires forall j :: j in done ==> MergeChild(target.fields, source, j).Fulfilled?
    requires source.fields[k].Obj?
    ensures Merge(Base(Partial(target, source, done).fields, k, source.fields[k]), source.fields[k])
      == MergeChild(target.fields, source, k)
  {
    var v := source.fields[k];
    var p := Partial(target, source, done);
    if k in done {
      BaseOfMerged(target.fields, k, v);
      MergeIdempotent(Base(target.fields, k, v), v);
    } else {
      assert Base(p.fields, k, v) == Base(target.fields, k, v);
    }
  }

  /** The base a child merge starts from is truthy, and so is what merging into it
      yields; a second merge therefore starts from the first one's result. */
  lemma BaseOfMerged(tf: map<string, Json>, k: string, v: Json)
    requires v.Obj?
    requires Merge(Base(tf, k, v), v).Fulfilled?
    ensures Truthy(Merge(Base(tf, k, v), v).value)
  {
  }

  /** Merging the same source a second time changes nothing. */
  lemma {:induction false} MergeIdempotent(target: Json, source: Json)
    requires source.Obj?
    requires Merge(target, source).Fulfilled?
    ensures Merge(Merge(target, source).value, source) == Merge(target, source)
    decreases source
  {
    var keys := Touched(source.fields);
    if keys != {} {
      var r := Merge(target, source).value;
      forall k | k in keys
        ensures MergeChild(r.fields, source, k) == MergeChild(target.fields, source, k)
      {
        var v := source.fields[k];
        if v.Obj? {
          assert MergeChild(target.fields, source, k).Fulfilled?;
          BaseOfMerged(target.fields, k, v);
          MergeIdempotent(Base(target.fields, k, v), v);
        }
      }
      assert Merge(r, source).value == r by {
        assert Merge(r, source).value.fields == r.fields;
      }
    }
  }

  /** A source key that is not already lower case has no effect, whether or not the
      source also owns its lower-cased form. */
  lemma MergeIgnoresUpperCaseKey(target: Json, isArray: bool, src: map<string, Json>, key: string)
    requires key in src && LowerAll(key) != key
    ensures Merge(target, Obj(isArray, src)) == Merge(target, Obj(isArray, src - {key}))
  {
    var s1 := Obj(isArray, src);
    var s2 := Obj(isArray, src - {key});
    assert Touched(src) == Touched(src - {key}) by {
      TouchedIsLowerKeys(src);
      TouchedIsLowerKeys(src - {key});
    }
    if target.Obj? && Touched(src) != {} {
      SameChildren(target, isArray, src, key);
      if Merge(target, s1).Fulfilled? {
        assert Merge(target, s1).value.fields == Merge(target, s2).value.fields;
      }
    }
  }

  /** Every lower-case key merges the same child with or without the upper-case key. */
  lemma SameChildren(target: Json, isArray: bool, src: map<string, Json>, key: string)
    requires target.Obj? && key in src && LowerAll(key) != key
    requires Touched(src) == Touched(src - {key})
    ensures forall k :: k in Touched(src) ==>
      MergeChild(target.fields, Obj(isArray, src), k) == MergeChild(target.fields, Obj(isArray, src - {key}), k)
  {
    var s1 := Obj(isArray, src);
    var s2 := Obj(isArray, src - {key});
    TouchedIsLowerKeys(src);
    forall k | k in Touched(src) ensures MergeChild(target.fields, s1, k) == MergeChild(target.fields, s2, k) {
      assert s1.fields[k] == s2.fields[k];
    }
  }
}
