/**
 * The parts of Go's `strings` and `strconv` packages that the modelled code
 * relies on: substring search, counting and replacement, ASCII lower-casing,
 * decimal formatting, joining and splitting. Strings are sequences of
 * characters; where the code measures a string with `len`, the model takes
 * its UTF-8 length (ByteLength), and elsewhere one character stands for one
 * byte of ASCII text.
 */
module Text {
  import opened Wrappers

  /** A Go `byte`. */
  newtype byte = x: int | 0 <= x < 256

  /** The number of bytes UTF-8 spends on one character. */
  function Utf8Width(c: char): (w: nat)
    ensures 1 <= w <= 4
    ensures w == 1 <==> c as int < 0x80
  {
    if c as int < 0x80 then 1
    else if c as int < 0x800 then 2
    else if c as int < 0x1_0000 then 3
    else 4
  }

  /** Go's `len(s)`: the length of `s` in UTF-8 bytes. */
  function ByteLength(s: string): (n: nat)
    decreases |s|
  {
    if s == [] then 0 else Utf8Width(s[0]) + ByteLength(s[1..])
  }

  /** Every character takes one to four bytes, and exactly one when it is ASCII. */
  lemma {:induction false} ByteLengthBounds(s: string)
    ensures |s| <= ByteLength(s) <= 4 * |s|
    ensures ByteLength(s) == |s| <==> forall i :: 0 <= i < |s| ==> s[i] as int < 0x80
  {
    if s != [] {
      ByteLengthBounds(s[1..]);
      assert forall i :: 0 < i < |s| ==> s[i] == s[1..][i - 1];
    }
  }

  /** `t` occurs in `s` starting at index `i`. */
  predicate MatchAt(s: string, t: string, i: nat) {
    i + |t| <= |s| && s[i..i + |t|] == t
  }

  predicate IsPrefix(t: string, s: string) {
    |t| <= |s| && s[..|t|] == t
  }

  /** `strings.Contains(s, t)`. */
  predicate Contains(s: string, t: string) {
    exists i :: 0 <= i <= |s| - |t| && MatchAt(s, t, i)
  }

  /** `strings.Index(s[from:], t)`, as an absolute index: the left-most match at or after `from`. */
  function Find(s: string, t: string, from: nat): (r: Option<nat>)
    ensures r.Some? ==> from <= r.value && MatchAt(s, t, r.value)
    ensures r.Some? ==> forall p :: from <= p < r.value ==> !MatchAt(s, t, p)
    ensures r.None? ==> forall p :: from <= p ==> !MatchAt(s, t, p)
    decreases |s| - from
  {
    if from + |t| > |s| then None
    else if MatchAt(s, t, from) then Some(from)
    else Find(s, t, from + 1)
  }

  /** The left-most match is the one `Find` reports. */
  lemma FindLeftmost(s: string, t: string, from: nat, q: nat)
    requires from <= q && MatchAt(s, t, q)
    requires forall p :: from <= p < q ==> !MatchAt(s, t, p)
    ensures Find(s, t, from) == Some(q)
  {
  }

  lemma ContainsIffFound(s: string, t: string)
    ensures Contains(s, t) <==> Find(s, t, 0).Some?
  {
    var r := Find(s, t, 0);
    if r.Some? {
      assert 0 <= r.value <= |s| - |t| && MatchAt(s, t, r.value);
    }
  }

  /** `strings.Count(s, t)`: the number of non-overlapping matches found left to right; one more than the length for an empty `t`. */
  function Count(s: string, t: string): nat
    decreases |s|
  {
    if |t| == 0 then |s| + 1
    else match Find(s, t, 0)
      case None => 0
      case Some(i) => 1 + Count(s[i + |t|..], t)
  }

  /** `strings.Replace(s, t, n, 1)`: the left-most match becomes `n`; an empty `t` puts `n` in front. */
  function ReplaceFirst(s: string, t: string, n: string): string {
    if |t| == 0 then n + s
    else match Find(s, t, 0)
      case None => s
      case Some(i) => s[..i] + n + s[i + |t|..]
  }

  /** `strings.ReplaceAll(s, t, n)` for a non-empty `t`: every match, left to right, without overlaps. */
  function ReplaceAll(s: string, t: string, n: string): string
    requires |t| > 0
    decreases |s|
  {
    match Find(s, t, 0)
    case None => s
    case Some(i) => s[..i] + n + ReplaceAll(s[i + |t|..], t, n)
  }

  lemma ReplaceAllAbsent(s: string, t: string, n: string)
    requires |t| > 0 && !Contains(s, t)
    ensures ReplaceAll(s, t, n) == s
  {
    ContainsIffFound(s, t);
  }

  // ASCII case mapping (`strings.ToLower` on ASCII text).

  function LowerChar(c: char): char {
    if 'A' <= c <= 'Z' then (c as int + 32) as char else c
  }

  function ToLower(s: string): (r: string)
    ensures |r| == |s|
  {
    seq(|s|, i requires 0 <= i < |s| => LowerChar(s[i]))
  }

  lemma ToLowerIdempotent(s: string)
    ensures ToLower(ToLower(s)) == ToLower(s)
  {
  }

  lemma ToLowerConcat(a: string, b: string)
    ensures ToLower(a + b) == ToLower(a) + ToLower(b)
  {
  }

  // Decimal formatting (`strconv.Itoa`, `fmt.Sprintf("%d")` on non-negative values).

  predicate IsDigit(c: char) {
    '0' <= c <= '9'
  }

  function DigitChar(d: nat): (c: char)
    requires d < 10
    ensures IsDigit(c)
  {
    ('0' as int + d) as char
  }

  function Itoa(n: nat): (r: string)
    ensures |r| >= 1
    ensures forall k :: 0 <= k < |r| ==> IsDigit(r[k])
    decreases n
  {
    if n < 10 then [DigitChar(n)] else Itoa(n / 10) + [DigitChar(n % 10)]
  }

  /** The value a string of decimal digits denotes. */
  function Atoi(s: string): int {
    if s == [] then 0 else Atoi(s[..|s| - 1]) * 10 + (s[|s| - 1] as int - '0' as int)
  }

  /** Formatting then reading back gives the number: `Itoa` loses nothing. */
  lemma {:induction false} AtoiItoa(n: nat)
    ensures Atoi(Itoa(n)) == n
  {
    if n >= 10 {
      var r := Itoa(n);
      assert r[..|r| - 1] == Itoa(n / 10);
      AtoiItoa(n / 10);
    }
  }

  /** `strings.Join(parts, sep)`. */
  function Join(parts: seq<string>, sep: string): string {
    if |parts| == 0 then ""
    else if |parts| == 1 then parts[0]
    else parts[0] + sep + Join(parts[1..], sep)
  }

  /** Appending one more part to a non-empty list adds the separator and the part at the end. */
  lemma {:induction false} JoinSnoc(parts: seq<string>, p: string, sep: string)
    requires |parts| >= 1
    ensures Join(parts + [p], sep) == Join(parts, sep) + sep + p
  {
    if |parts| > 1 {
      assert (parts + [p])[1..] == parts[1..] + [p];
      JoinSnoc(parts[1..], p, sep);
    }
  }

  /** `strings.Split(s, string(c))`: the pieces between the occurrences of `c`. */
  function Split(s: string, c: char): (r: seq<string>)
    ensures |r| >= 1
    decreases |s|
  {
    match Find(s, [c], 0)
    case None => [s]
    case Some(i) => [s[..i]] + Split(s[i + 1..], c)
  }

  lemma NoCharNoMatch(s: string, c: char)
    requires c !in s
    ensures Find(s, [c], 0) == None
  {
    forall p: nat | p + 1 <= |s| ensures !MatchAt(s, [c], p) {
      assert s[p..p + 1] == [s[p]];
    }
  }

  /** The first separator in `p + [c] + rest` is the one after `p` when `p` has none. */
  lemma FindSeparator(p: string, c: char, rest: string)
    requires c !in p
    ensures Find(p + [c] + rest, [c], 0) == Some(|p|)
  {
    var s := p + [c] + rest;
    assert MatchAt(s, [c], |p|) by { assert s[|p|..|p| + 1] == [c]; }
    forall q | 0 <= q < |p| ensures !MatchAt(s, [c], q) {
      assert s[q..q + 1] == [p[q]];
    }
    FindLeftmost(s, [c], 0, |p|);
  }

  /** Splitting a joined list gives it back when no piece contains the separator. */
  lemma {:induction false} SplitJoin(parts: seq<string>, c: char)
    requires |parts| >= 1
    requires forall k :: 0 <= k < |parts| ==> c !in parts[k]
    ensures Split(Join(parts, [c]), c) == parts
  {
    if |parts| == 1 {
      NoCharNoMatch(parts[0], c);
    } else {
      var p, tail := parts[0], parts[1..];
      var rest := Join(tail, [c]);
      var s := p + [c] + rest;
      assert Join(parts, [c]) == s;
      FindSeparator(p, c, rest);
      assert s[..|p|] == p && s[|p| + 1..] == rest;
      assert forall k :: 0 <= k < |tail| ==> tail[k] == parts[k + 1];
      SplitJoin(tail, c);
      assert Split(s, c) == [p] + tail;
      assert parts == [p] + tail;
    }
  }
}
