/**
 * The SQL-text and value helpers (pkg/helper/helper.go): named and positional
 * placeholder rewriting, IN-list and multi-row VALUES expansion, list
 * difference, one-time passwords, nullable wrappers and tag normalisation.
 */
module Helper {
  import opened Wrappers
  import opened Text
  import Sorting

  newtype int32 = x: int | -0x8000_0000 <= x < 0x8000_0000

  /** The positional placeholder `$n`. */
  function Dollar(n: nat): string {
    "$" + Itoa(n)
  }

  // ---------------------------------------------------------------------------
  // ReplaceQueryParams
  // ---------------------------------------------------------------------------

  /**
   * The pairs with a non-empty key, in iteration order: the ones that get a
   * number. The map's iteration order is taken as the order of `params`.
   */
  function Named<V>(params: seq<(string, V)>): (r: seq<(string, V)>)
    ensures |r| <= |params|
    ensures forall m :: 0 <= m < |r| ==> r[m].0 != "" && r[m] in params
  {
    if params == [] then []
    else (if params[0].0 == "" then [] else [params[0]]) + Named(params[1..])
  }

  /** Completeness: every pair with a non-empty key is numbered, as often as it occurs, and no other pair is. */
  lemma {:induction false} NamedCounts<V>(params: seq<(string, V)>, x: (string, V))
    ensures multiset(Named(params))[x] == if x.0 == "" then 0 else multiset(params)[x]
  {
    if params != [] {
      NamedCounts(params[1..], x);
      assert params == [params[0]] + params[1..];
    }
  }

  /** The numbering keeps the iteration order: earlier numbers go to earlier pairs. */
  lemma {:induction false} NamedOrder<V>(params: seq<(string, V)>, i: nat, j: nat) returns (p: nat, q: nat)
    requires i < j < |Named(params)|
    ensures p < q < |params|
    ensures params[p] == Named(params)[i] && params[q] == Named(params)[j]
  {
    var rest := params[1..];
    var named := Named(rest);
    if params[0].0 != "" && i == 0 {
      assert Named(params) == [params[0]] + named;
      var k := NamedIndex(rest, j - 1);
      assert params[k + 1] == rest[k];
      p, q := 0, k + 1;
    } else {
      if params[0].0 == "" {
        assert Named(params) == named;
        p, q := NamedOrder(rest, i, j);
      } else {
        assert Named(params) == [params[0]] + named;
        p, q := NamedOrder(rest, i - 1, j - 1);
      }
      assert params[p + 1] == rest[p] && params[q + 1] == rest[q];
      p, q := p + 1, q + 1;
    }
  }

  /** Where the m-th numbered pair sits in `params`. */
  lemma NamedIndex<V>(params: seq<(string, V)>, m: nat) returns (p: nat)
    requires m < |Named(params)|
    ensures p < |params| && params[p] == Named(params)[m]
  {
    assert Named(params)[m] in params;
    p :| p < |params| && params[p] == Named(params)[m];
  }

  /** Every `:key` of the `next`-th, `next+1`-th, ... non-empty key becomes `$next`, `$next+1`, ... */
  function Bind<V>(q: string, params: seq<(string, V)>, next: nat): string
    decreases |params|
  {
    if params == [] then q
    else if params[0].0 == "" then Bind(q, params[1..], next)
    else Bind(ReplaceAll(q, ":" + params[0].0, Dollar(next)), params[1..], next + 1)
  }

  /** The argument list: the value of every non-empty key, in iteration order. */
  function BoundArgs<V>(params: seq<(string, V)>): seq<V> {
    if params == [] then [] else (if params[0].0 == "" then [] else [params[0].1]) + BoundArgs(params[1..])
  }

  /** The i-th argument is the value of the i-th non-empty key, so there is one argument per number handed out. */
  lemma {:induction false} BoundArgsNamed<V>(params: seq<(string, V)>)
    ensures |BoundArgs(params)| == |Named(params)|
    ensures forall m :: 0 <= m < |Named(params)| ==> BoundArgs(params)[m] == Named(params)[m].1
  {
    if params != [] {
      BoundArgsNamed(params[1..]);
    }
  }

  /** The `for k, v := range params` loop. */
  method ReplaceQueryParams<V>(namedQuery: string, params: seq<(string, V)>) returns (query: string, args: seq<V>)
    ensures query == Bind(namedQuery, params, 1)
    ensures args == BoundArgs(params)
  {
    query, args := namedQuery, [];
    var i := 1;
    var j := 0;
    while j < |params|
      invariant 0 <= j <= |params|
      invariant i == |args| + 1
      invariant Bind(query, params[j..], i) == Bind(namedQuery, params, 1)
      invariant args + BoundArgs(params[j..]) == BoundArgs(params)
    {
      var (k, v) := params[j];
      BindStep(query, params, j, i);
      if k != "" {
        query := ReplaceAll(query, ":" + k, Dollar(i));
        assert args + [v] + BoundArgs(params[j + 1..]) == args + BoundArgs(params[j..]);
        args := args + [v];
        i := i + 1;
      }
      j := j + 1;
    }
  }

  /** One turn of the binding loop: the pair at `j` is bound (or skipped) and the rest is still to come. */
  lemma BindStep<V>(q: string, params: seq<(string, V)>, j: nat, next: nat)
    requires j < |params|
    ensures params[j].0 == "" ==> Bind(q, params[j..], next) == Bind(q, params[j + 1..], next)
    ensures params[j].0 != "" ==>
      Bind(q, params[j..], next) == Bind(ReplaceAll(q, ":" + params[j].0, Dollar(next)), params[j + 1..], next + 1)
    ensures BoundArgs(params[j..]) == (if params[j].0 == "" then [] else [params[j].1]) + BoundArgs(params[j + 1..])
  {
    assert params[j..][1..] == params[j + 1..];
  }

  lemma NoCharNoContains(s: string, t: string)
    requires |t| > 0 && t[0] !in s
    ensures !Contains(s, t)
  {
    forall i | 0 <= i <= |s| - |t| ensures !MatchAt(s, t, i) {
      assert s[i..i + |t|][0] == s[i];
    }
  }

  /** A query without any `:` has nothing to bind and comes back unchanged. */
  lemma {:induction false} BindWithoutNames<V>(q: string, params: seq<(string, V)>, next: nat)
    requires ':' !in q
    ensures Bind(q, params, next) == q
  {
    if params != [] {
      if params[0].0 != "" {
        NoCharNoContains(q, ":" + params[0].0);
        ReplaceAllAbsent(q, ":" + params[0].0, Dollar(next));
      }
      BindWithoutNames(q, params[1..], if params[0].0 == "" then next else next + 1);
    }
  }

  /**
   * A key that is a prefix of another rewrites the head of the longer
   * placeholder when it is bound first: `:message_type` becomes `$n_type`.
   */
  lemma PrefixKeyCollision(k: string, suffix: string, n: nat)
    requires k != "" && ':' !in suffix
    ensures ReplaceAll(":" + k + suffix, ":" + k, Dollar(n)) == Dollar(n) + suffix
  {
    var s, t := ":" + k + suffix, ":" + k;
    assert s[0..|t|] == t;
    FindLeftmost(s, t, 0, 0);
    assert s[|t|..] == suffix;
    NoCharNoContains(suffix, t);
    ReplaceAllAbsent(suffix, t, Dollar(n));
  }

  /**
   * With `message` bound before `message_type`, the query keeps only `$1`:
   * the second placeholder is gone although two arguments are passed.
   */
  lemma BindPrefixCollision<V>(k: string, suffix: string, v1: V, v2: V)
    requires k != "" && suffix != "" && ':' !in suffix
    ensures Bind(":" + k + suffix, [(k, v1), (k + suffix, v2)], 1) == Dollar(1) + suffix
    ensures BoundArgs([(k, v1), (k + suffix, v2)]) == [v1, v2]
  {
    var params := [(k, v1), (k + suffix, v2)];
    PrefixKeyCollision(k, suffix, 1);
    var q := Dollar(1) + suffix;
    DollarIsPlaceholder(1);
    BindWithoutNames(q, params[1..], 2);
    assert Bind(":" + k + suffix, params, 1) == Bind(q, params[1..], 2);
    assert params[1..][1..] == [];
    assert BoundArgs(params[1..]) == [v2] + BoundArgs(params[1..][1..]);
  }

  // ---------------------------------------------------------------------------
  // ReplaceSQL
  // ---------------------------------------------------------------------------

  /** `pattern` has no character a placeholder `$n` is made of. */
  predicate PlainPattern(pattern: string) {
    pattern != "" && forall k :: 0 <= k < |pattern| ==> pattern[k] != '$' && !IsDigit(pattern[k])
  }

  /** What the loop computes: `strings.Replace(s, pattern, "$m", 1)` for m = first .. last. */
  function ReplaceLoop(s: string, pattern: string, first: nat, last: nat): string
    decreases last + 1 - first
  {
    if first > last then s else ReplaceLoop(ReplaceFirst(s, pattern, Dollar(first)), pattern, first + 1, last)
  }

  method ReplaceSQL(query: string, pattern: string) returns (r: string)
    ensures r == ReplaceLoop(query, pattern, 1, Count(query, pattern))
  {
    var tmpCount := Count(query, pattern);
    r := query;
    var m := 1;
    while m <= tmpCount
      invariant 1 <= m <= tmpCount + 1
      invariant ReplaceLoop(r, pattern, m, tmpCount) == ReplaceLoop(query, pattern, 1, tmpCount)
    {
      r := ReplaceFirst(r, pattern, Dollar(m));
      m := m + 1;
    }
  }

  /** The m-th, (m+1)-th, ... occurrence of `pattern`, left to right, becomes `$m`, `$m+1`, ... */
  function Numbered(s: string, pattern: string, m: nat): string
    requires pattern != ""
    decreases |s|
  {
    match Find(s, pattern, 0)
    case None => s
    case Some(i) => s[..i] + Dollar(m) + Numbered(s[i + |pattern|..], pattern, m + 1)
  }

  /** Text made only of the characters of placeholders. */
  predicate PlaceholderText(d: string) {
    forall k :: 0 <= k < |d| ==> d[k] == '$' || IsDigit(d[k])
  }

  lemma DollarIsPlaceholder(n: nat)
    ensures |Dollar(n)| >= 2 && PlaceholderText(Dollar(n))
  {
    var d := Itoa(n);
    assert forall k :: 1 <= k < |Dollar(n)| ==> Dollar(n)[k] == d[k - 1];
  }

  lemma MatchShift(a: string, x: string, t: string, p: nat)
    ensures MatchAt(a + x, t, |a| + p) <==> MatchAt(x, t, p)
  {
    if p + |t| <= |x| {
      assert (a + x)[|a| + p..|a| + p + |t|] == x[p..p + |t|];
    }
  }

  /** A match that ends before the cut sees only the common prefix. */
  lemma MatchInPrefix(a: string, x: string, y: string, t: string, p: nat)
    requires p + |t| <= |a|
    ensures MatchAt(a + x, t, p) <==> MatchAt(a + y, t, p)
  {
    assert (a + x)[p..p + |t|] == a[p..p + |t|] == (a + y)[p..p + |t|];
  }

  /** A plain pattern cannot overlap a placeholder character. */
  lemma PlaceholderBlocks(t: string, pattern: string, q: nat, p: nat)
    requires PlainPattern(pattern) && q < |t| && (t[q] == '$' || IsDigit(t[q]))
    requires p <= q < p + |pattern|
    ensures !MatchAt(t, pattern, p)
  {
  }

  /** Nothing matches before the end of the placeholder put in for the first occurrence. */
  lemma NoMatchBeforePlaceholder(s: string, pattern: string, i: nat, d: string, x: string)
    requires PlainPattern(pattern) && Find(s, pattern, 0) == Some(i)
    requires |d| >= 1 && PlaceholderText(d)
    ensures forall p :: 0 <= p < i + |d| ==> !MatchAt(s[..i] + d + x, pattern, p)
  {
    var t := s[..i] + d + x;
    assert t == s[..i] + (d + x);
    assert s == s[..i] + s[i..];
    forall p | 0 <= p < i + |d| ensures !MatchAt(t, pattern, p) {
      if p + |pattern| <= i {
        MatchInPrefix(s[..i], d + x, s[i..], pattern, p);
      } else {
        var q := if p < i then i else p;
        assert t[q] == d[q - i];
        PlaceholderBlocks(t, pattern, q, p);
      }
    }
  }

  /** The first match of `a + x` at or past `|a|` is the first match of `x`, shifted. */
  lemma FindShift(a: string, x: string, pattern: string)
    requires forall p :: 0 <= p < |a| ==> !MatchAt(a + x, pattern, p)
    ensures Find(x, pattern, 0).None? ==> Find(a + x, pattern, 0).None?
    ensures Find(x, pattern, 0).Some? ==> Find(a + x, pattern, 0) == Some(|a| + Find(x, pattern, 0).value)
  {
    var f := Find(x, pattern, 0);
    if f.Some? {
      FindShiftSome(a, x, pattern, f.value);
    } else {
      FindShiftNone(a, x, pattern);
    }
  }

  lemma FindShiftSome(a: string, x: string, pattern: string, j: nat)
    requires forall p :: 0 <= p < |a| ==> !MatchAt(a + x, pattern, p)
    requires Find(x, pattern, 0) == Some(j)
    ensures Find(a + x, pattern, 0) == Some(|a| + j)
  {
    forall p | |a| <= p < |a| + j ensures !MatchAt(a + x, pattern, p) {
      MatchShift(a, x, pattern, p - |a|);
    }
    MatchShift(a, x, pattern, j);
    FindLeftmost(a + x, pattern, 0, |a| + j);
  }

  lemma FindShiftNone(a: string, x: string, pattern: string)
    requires forall p :: 0 <= p < |a| ==> !MatchAt(a + x, pattern, p)
    requires Find(x, pattern, 0).None?
    ensures Find(a + x, pattern, 0).None?
  {
    forall p | |a| <= p ensures !MatchAt(a + x, pattern, p) {
      MatchShift(a, x, pattern, p - |a|);
    }
  }

  /** Cutting `x[j..j+len]` out of `a + x` and putting `n` there keeps `a` in front. */
  lemma SliceConcat(a: string, x: string, n: string, j: nat, len: nat)
    requires j + len <= |x|
    ensures (a + x)[..|a| + j] + n + (a + x)[|a| + j + len..] == a + (x[..j] + n + x[j + len..])
  {
    assert (a + x)[..|a| + j] == a + x[..j];
    assert (a + x)[|a| + j + len..] == x[j + len..];
  }

  /**
   * Past the first occurrence and the `$m` put in its place, the next
   * occurrence of a plain pattern is the next one of the original text.
   */
  lemma ReplaceFirstPast(s: string, pattern: string, i: nat, d: string, x: string, n: string)
    requires PlainPattern(pattern) && Find(s, pattern, 0) == Some(i)
    requires |d| >= 1 && PlaceholderText(d)
    ensures ReplaceFirst(s[..i] + d + x, pattern, n) == s[..i] + d + ReplaceFirst(x, pattern, n)
  {
    NoMatchBeforePlaceholder(s, pattern, i, d, x);
    ReplaceFirstAfter(s[..i] + d, x, pattern, n);
  }

  lemma ReplaceFirstShifted(a: string, x: string, pattern: string, n: string, j: nat)
    requires pattern != ""
    requires Find(x, pattern, 0) == Some(j) && Find(a + x, pattern, 0) == Some(|a| + j)
    ensures ReplaceFirst(a + x, pattern, n) == a + ReplaceFirst(x, pattern, n)
  {
    ReplaceFirstAt(x, pattern, n, j);
    ReplaceFirstAt(a + x, pattern, n, |a| + j);
    SliceConcat(a, x, n, j, |pattern|);
  }

  lemma ReplaceFirstAt(s: string, pattern: string, n: string, i: nat)
    requires pattern != "" && Find(s, pattern, 0) == Some(i)
    ensures i + |pattern| <= |s|
    ensures ReplaceFirst(s, pattern, n) == s[..i] + n + s[i + |pattern|..]
  {
  }

  /** A text with no match starting in its first |a| characters is replaced in its tail. */
  lemma ReplaceFirstAfter(a: string, x: string, pattern: string, n: string)
    requires pattern != ""
    requires forall p :: 0 <= p < |a| ==> !MatchAt(a + x, pattern, p)
    ensures ReplaceFirst(a + x, pattern, n) == a + ReplaceFirst(x, pattern, n)
  {
    FindShift(a, x, pattern);
    var f := Find(x, pattern, 0);
    if f.Some? {
      ReplaceFirstShifted(a, x, pattern, n, f.value);
    }
  }

  /** The loop's later turns leave the text up to and including `$m` alone. */
  lemma {:induction false} ReplaceLoopPast(s: string, pattern: string, i: nat, d: string, x: string, first: nat, last: nat)
    requires PlainPattern(pattern) && Find(s, pattern, 0) == Some(i)
    requires |d| >= 1 && PlaceholderText(d)
    ensures ReplaceLoop(s[..i] + d + x, pattern, first, last) == s[..i] + d + ReplaceLoop(x, pattern, first, last)
    decreases last + 1 - first
  {
    if first <= last {
      ReplaceFirstPast(s, pattern, i, d, x, Dollar(first));
      ReplaceLoopPast(s, pattern, i, d, ReplaceFirst(x, pattern, Dollar(first)), first + 1, last);
    }
  }

  /**
   * Replacing the first occurrence `Count` times, numbering from `m`, numbers
   * the occurrences of the original text left to right.
   */
  lemma {:induction false} ReplaceLoopNumbers(s: string, pattern: string, m: nat, last: nat)
    requires PlainPattern(pattern) && last + 1 == m + Count(s, pattern)
    ensures ReplaceLoop(s, pattern, m, last) == Numbered(s, pattern, m)
    decreases |s|
  {
    var f := Find(s, pattern, 0);
    if f.Some? {
      var i := f.value;
      var rest := s[i + |pattern|..];
      ReplaceFirstAt(s, pattern, Dollar(m), i);
      assert Count(s, pattern) == 1 + Count(rest, pattern);
      DollarIsPlaceholder(m);
      ReplaceLoopPast(s, pattern, i, Dollar(m), rest, m + 1, last);
      ReplaceLoopNumbers(rest, pattern, m + 1, last);
    }
  }

  /**
   * For a pattern without `$` or digits, ReplaceSQL makes exactly
   * Count(query, pattern) left-most replacements and the m-th occurrence of
   * the original text becomes `$m`.
   */
  lemma ReplaceSQLNumbers(s: string, pattern: string)
    requires PlainPattern(pattern)
    ensures ReplaceLoop(s, pattern, 1, Count(s, pattern)) == Numbered(s, pattern, 1)
  {
    ReplaceLoopNumbers(s, pattern, 1, Count(s, pattern));
  }

  /** `$last` ... `$first`, counting down. */
  function Countdown(first: nat, last: nat): string
    decreases last + 1 - first
  {
    if first > last then "" else Countdown(first + 1, last) + Dollar(first)
  }

  lemma {:induction false} ReplaceLoopEmpty(s: string, first: nat, last: nat)
    ensures ReplaceLoop(s, "", first, last) == Countdown(first, last) + s
    decreases last + 1 - first
  {
    if first <= last {
      ReplaceLoopEmpty(Dollar(first) + s, first + 1, last);
    }
  }

  /** An empty pattern counts |query| + 1 times and every replacement prepends: "$n...$2$1" + query. */
  lemma ReplaceSQLEmptyPattern(s: string)
    ensures ReplaceLoop(s, "", 1, Count(s, "")) == Countdown(1, |s| + 1) + s
  {
    ReplaceLoopEmpty(s, 1, |s| + 1);
  }

  // ---------------------------------------------------------------------------
  // GenerateOTP
  // ---------------------------------------------------------------------------

  const OtpChars := "1234567890"

  /** The digit a random byte stands for: `otpChars[b % 10]`. */
  function OtpByte(b: byte): (r: byte)
    ensures IsDigit(r as int as char)
    ensures r as int as char == OtpChars[b as int % 10]
  {
    OtpCharsDigits();
    OtpChars[b as int % 10] as int as byte
  }

  lemma OtpCharsDigits()
    ensures forall k :: 0 <= k < |OtpChars| ==> IsDigit(OtpChars[k])
  {
    assert OtpChars == ['1', '2', '3', '4', '5', '6', '7', '8', '9', '0'];
  }

  function BytesToString(bytes: seq<byte>): (r: string)
    ensures |r| == |bytes|
  {
    seq(|bytes|, i requires 0 <= i < |bytes| => bytes[i] as int as char)
  }

  /**
   * The buffer holds the bytes `crypto/rand` read (`random`), or the read
   * failed; each byte is overwritten in place by the digit it selects.
   */
  method GenerateOTP(length: nat, random: seq<byte>, readError: Option<string>) returns (r: Result<string, string>)
    requires |random| == length
    ensures readError.Some? ==> r == Failure(readError.value)
    ensures readError.None? ==> r.Success? && |r.value| == length
    ensures r.Success? ==> forall i :: 0 <= i < length ==> r.value[i] == OtpChars[random[i] as int % 10] && IsDigit(r.value[i])
  {
    var buffer := new byte[length](i requires 0 <= i < length => random[i]);
    if readError.Some? {
      return Failure(readError.value);
    }
    var i := 0;
    while i < length
      invariant 0 <= i <= length
      invariant forall k :: 0 <= k < i ==> buffer[k] == OtpByte(random[k])
      invariant forall k :: i <= k < length ==> buffer[k] == random[k]
    {
      buffer[i] := OtpByte(buffer[i]);
      i := i + 1;
    }
    return Success(BytesToString(buffer[..]));
  }

  // ---------------------------------------------------------------------------
  // Difference
  // ---------------------------------------------------------------------------

  /** The elements of `a` not in `b`, in the order of `a`, duplicates kept. */
  function Minus(a: seq<int32>, b: seq<int32>): seq<int32> {
    if a == [] then []
    else Minus(a[..|a| - 1], b) + (if a[|a| - 1] in b then [] else [a[|a| - 1]])
  }

  /** Each value of `a` missing from `b` keeps all its copies; every value of `b` is dropped. */
  lemma {:induction false} MinusCounts(a: seq<int32>, b: seq<int32>, x: int32)
    ensures multiset(Minus(a, b))[x] == if x in b then 0 else multiset(a)[x]
  {
    if a != [] {
      var init, last := a[..|a| - 1], a[|a| - 1];
      MinusCounts(init, b, x);
      assert a == init + [last];
      assert multiset(a) == multiset(init) + multiset{last};
      var tail: seq<int32> := if last in b then [] else [last];
      assert Minus(a, b) == Minus(init, b) + tail;
      assert multiset(Minus(a, b)) == multiset(Minus(init, b)) + multiset(tail);
    }
  }

  /** Order is kept: filtering a concatenation filters each part in place. */
  lemma {:induction false} MinusAppend(a1: seq<int32>, a2: seq<int32>, b: seq<int32>)
    ensures Minus(a1 + a2, b) == Minus(a1, b) + Minus(a2, b)
    decreases |a2|
  {
    if a2 != [] {
      var init, last := a2[..|a2| - 1], a2[|a2| - 1];
      var tail: seq<int32> := if last in b then [] else [last];
      assert (a1 + a2)[..|a1 + a2| - 1] == a1 + init;
      assert Minus(a1 + a2, b) == Minus(a1 + init, b) + tail;
      assert Minus(a2, b) == Minus(init, b) + tail;
      MinusAppend(a1, init, b);
    } else {
      assert a1 + a2 == a1;
    }
  }

  method Difference(a: seq<int32>, b: seq<int32>) returns (diff: seq<int32>)
    ensures diff == Minus(a, b)
  {
    var mb: set<int32> := {};
    for i := 0 to |b|
      invariant forall x :: x in mb <==> x in b[..i]
    {
      mb := mb + {b[i]};
    }
    assert b[..|b|] == b;
    diff := [];
    for i := 0 to |a|
      invariant diff == Minus(a[..i], b)
    {
      assert a[..i + 1][..i] == a[..i];
      if a[i] !in mb {
        diff := diff + [a[i]];
      }
    }
    assert a[..|a|] == a;
  }

  // ---------------------------------------------------------------------------
  // ValMultipleQuery and InsertMultiple
  // ---------------------------------------------------------------------------

  /** Every part followed by `sep`: the text the loops build before the trailing separator is cut. */
  function Trailing(parts: seq<string>, sep: string): string {
    if parts == [] then "" else Trailing(parts[..|parts| - 1], sep) + parts[|parts| - 1] + sep
  }

  lemma {:induction false} TrailingJoin(parts: seq<string>, sep: string)
    requires |parts| >= 1
    ensures Trailing(parts, sep) == Join(parts, sep) + sep
  {
    var init := parts[..|parts| - 1];
    if |parts| > 1 {
      TrailingJoin(init, sep);
      JoinSnoc(init, parts[|parts| - 1], sep);
      assert init + [parts[|parts| - 1]] == parts;
    }
  }

  /** One turn of an expansion loop appends part `i` and a comma. */
  lemma TrailingStep(prefix: string, parts: seq<string>, i: nat, text: string)
    requires i < |parts| && text == prefix + Trailing(parts[..i], ",")
    ensures text + parts[i] + "," == prefix + Trailing(parts[..i + 1], ",")
  {
    assert parts[..i + 1][..i] == parts[..i];
  }

  /** Cutting the last character of the built text leaves the joined list. */
  lemma CutTrailing(prefix: string, parts: seq<string>, text: string)
    requires |parts| >= 1 && text == prefix + Trailing(parts[..|parts|], ",")
    ensures |text| >= 1 && text[..|text| - 1] == prefix + Join(parts, ",")
  {
    assert parts[..|parts|] == parts;
    TrailingJoin(parts, ",");
    assert text == (prefix + Join(parts, ",")) + ",";
  }

  /** `$1`, ..., `$n`. */
  function Dollars(n: nat): (r: seq<string>)
    ensures |r| == n
    ensures forall k :: 0 <= k < n ==> r[k] == Dollar(k + 1)
  {
    if n == 0 then [] else Dollars(n - 1) + [Dollar(n)]
  }

  /**
   * The IN-list expansion: one `$i,` per value, the last character cut, then
   * `)`. Go panics (None here) when there is no value and the query is empty.
   */
  method ValMultipleQuery(query: string, vals: seq<int32>) returns (r: Option<(string, seq<int32>)>)
    ensures r.None? <==> query == [] && vals == []
    ensures r.Some? ==> r.value.1 == vals
    ensures r.Some? && vals != [] ==> r.value.0 == query + Join(Dollars(|vals|), ",") + ")"
    ensures r.Some? && vals == [] ==> r.value.0 == query[..|query| - 1] + ")"
  {
    var text := query;
    var params: seq<int32> := [];
    for i := 0 to |vals|
      invariant text == query + Trailing(Dollars(|vals|)[..i], ",")
      invariant params == vals[..i]
    {
      TrailingStep(query, Dollars(|vals|), i, text);
      text := text + Dollar(i + 1) + ",";
      params := params + [vals[i]];
    }
    assert vals[..|vals|] == vals;
    if |text| == 0 {
      return None;
    }
    if vals != [] {
      CutTrailing(query, Dollars(|vals|), text);
    }
    return Some((text[..|text| - 1] + ")", params));
  }

  /** The placeholders of the list read back one by one: none of them holds a comma. */
  lemma DollarsRoundTrip(n: nat)
    requires n >= 1
    ensures Split(Join(Dollars(n), ","), ',') == Dollars(n)
  {
    forall k | 0 <= k < n ensures ',' !in Dollars(n)[k] {
      DollarIsPlaceholder(k + 1);
    }
    SplitJoin(Dollars(n), ',');
  }

  /** `($2k+1, $2k+2)`. */
  function PairText(k: nat): string {
    "(" + Dollar(k * 2 + 1) + ", " + Dollar(k * 2 + 2) + ")"
  }

  /** `($1, $2)`, `($3, $4)`, ... for `n` rows. */
  function Pairs(n: nat): (r: seq<string>)
    ensures |r| == n
    ensures forall k :: 0 <= k < n ==> r[k] == PairText(k)
  {
    if n == 0 then [] else Pairs(n - 1) + [PairText(n - 1)]
  }

  /** `[id, vals[0], id, vals[1], ...]`. */
  function Interleave(id: string, vals: seq<string>): (r: seq<string>)
    ensures |r| == 2 * |vals|
  {
    if vals == [] then []
    else Interleave(id, vals[..|vals| - 1]) + [id, vals[|vals| - 1]]
  }

  /** Argument 2k+1 is the id and argument 2k+2 the k-th value, matching the placeholders of row k. */
  lemma {:induction false} InterleaveAt(id: string, vals: seq<string>, k: nat)
    requires k < |vals|
    ensures Interleave(id, vals)[2 * k] == id && Interleave(id, vals)[2 * k + 1] == vals[k]
  {
    var init := vals[..|vals| - 1];
    if k < |init| {
      InterleaveAt(id, init, k);
      assert Interleave(id, vals)[2 * k] == Interleave(id, init)[2 * k];
      assert Interleave(id, vals)[2 * k + 1] == Interleave(id, init)[2 * k + 1];
    }
  }

  /** One turn of the VALUES loop appends row i's placeholders to the text... */
  lemma InsertTextStep(prefix: string, n: nat, i: nat, text: string)
    requires i < n && text == prefix + Trailing(Pairs(n)[..i], ",")
    ensures text + ("(" + Dollar(i * 2 + 1) + ", " + Dollar(i * 2 + 2) + ")") + "," == prefix + Trailing(Pairs(n)[..i + 1], ",")
  {
    assert Pairs(n)[i] == PairText(i);
    TrailingStep(prefix, Pairs(n), i, text);
  }

  /** ... and the id and the i-th value to the arguments. */
  lemma InterleaveStep(id: string, vals: seq<string>, i: nat)
    requires i < |vals|
    ensures Interleave(id, vals[..i]) + [id, vals[i]] == Interleave(id, vals[..i + 1])
  {
    assert vals[..i + 1][..i] == vals[..i];
  }

  /**
   * The multi-row VALUES expansion: one `($2i+1, $2i+2),` per value, the last
   * character cut. Go panics (None here) when there is no value and the query
   * is empty.
   */
  method InsertMultiple(queryInsert: string, id: string, vals: seq<string>) returns (r: Option<(string, seq<string>)>)
    ensures r.None? <==> queryInsert == [] && vals == []
    ensures r.Some? ==> r.value.1 == Interleave(id, vals)
    ensures r.Some? && vals != [] ==> r.value.0 == queryInsert + Join(Pairs(|vals|), ",")
    ensures r.Some? && vals == [] ==> r.value.0 == queryInsert[..|queryInsert| - 1]
  {
    var text := queryInsert;
    var params: seq<string> := [];
    for i := 0 to |vals|
      invariant text == queryInsert + Trailing(Pairs(|vals|)[..i], ",")
      invariant params == Interleave(id, vals[..i])
    {
      var p1 := i * 2;
      var pair := "(" + Dollar(p1 + 1) + ", " + Dollar(p1 + 2) + ")";
      InsertTextStep(queryInsert, |vals|, i, text);
      InterleaveStep(id, vals, i);
      text := text + pair + ",";
      params := params + [id, vals[i]];
    }
    assert vals[..|vals|] == vals;
    if |text| == 0 {
      return None;
    }
    if vals != [] {
      CutTrailing(queryInsert, Pairs(|vals|), text);
    }
    return Some((text[..|text| - 1], params));
  }

  // ---------------------------------------------------------------------------
  // NewNullString, NewNullBool
  // ---------------------------------------------------------------------------

  datatype NullString = NullString(str: string, valid: bool)

  datatype NullBool = NullBool(b: bool, valid: bool)

  /** The empty string is stored as NULL; reading the value back always gives the input. */
  function NewNullString(s: string): (r: NullString)
    ensures r.valid <==> s != ""
    ensures r.str == s
  {
    if |s| == 0 then NullString("", false) else NullString(s, true)
  }

  /** false is stored as NULL; reading the value back always gives the input. */
  function NewNullBool(s: bool): (r: NullBool)
    ensures r.valid <==> s
    ensures r.b == s
  {
    if !s then NullBool(false, false) else NullBool(s, true)
  }

  // ---------------------------------------------------------------------------
  // SortAndJoinTags
  // ---------------------------------------------------------------------------

  /** Go's string order: byte by byte, a proper prefix first. */
  function LexLe(a: string, b: string): bool {
    a == [] || (b != [] && (a[0] < b[0] || (a[0] == b[0] && LexLe(a[1..], b[1..]))))
  }

  lemma {:induction false} LexLeTotal(a: string, b: string)
    ensures LexLe(a, b) || LexLe(b, a)
  {
    if a != [] && b != [] && a[0] == b[0] {
      LexLeTotal(a[1..], b[1..]);
    }
  }

  lemma {:induction false} LexLeTransitive(a: string, b: string, c: string)
    requires LexLe(a, b) && LexLe(b, c)
    ensures LexLe(a, c)
  {
    if a != [] && b != [] && c != [] && a[0] == b[0] && b[0] == c[0] {
      LexLeTransitive(a[1..], b[1..], c[1..]);
    }
  }

  lemma LexLePreorder()
    ensures Sorting.TotalPreorder(LexLe)
  {
    forall a, b ensures LexLe(a, b) || LexLe(b, a) {
      LexLeTotal(a, b);
    }
    forall a, b, c | LexLe(a, b) && LexLe(b, c) ensures LexLe(a, c) {
      LexLeTransitive(a, b, c);
    }
  }

  /** `sort.Strings` on the caller's slice, then `strings.Join(tags, ",")`. */
  method SortAndJoinTags(tags: array<string>) returns (r: string)
    modifies tags
    ensures tags[..] == Sorting.Sort(old(tags[..]), LexLe)
    ensures r == Join(tags[..], ",")
  {
    var sorted := Sorting.Sort(tags[..], LexLe);
    for i := 0 to tags.Length
      invariant tags[..i] == sorted[..i]
    {
      tags[i] := sorted[i];
      assert tags[..i + 1] == tags[..i] + [sorted[i]];
    }
    assert tags[..] == tags[..tags.Length];
    r := Join(tags[..], ",");
  }

  /**
   * The stored tags are the caller's tags, sorted; and when no tag holds a
   * comma, splitting the joined text at commas gives them back.
   */
  lemma SortedTagsRoundTrip(tags: seq<string>)
    requires |tags| >= 1 && forall k :: 0 <= k < |tags| ==> ',' !in tags[k]
    ensures var s := Sorting.Sort(tags, LexLe);
      && multiset(s) == multiset(tags)
      && Sorting.SortedBy(s, LexLe)
      && Split(Join(s, ","), ',') == s
  {
    var s := Sorting.Sort(tags, LexLe);
    LexLePreorder();
    Sorting.SortSorted(tags, LexLe);
    forall k | 0 <= k < |s| ensures ',' !in s[k] {
      assert s[k] in multiset(tags);
    }
    SplitJoin(s, ',');
  }
}
