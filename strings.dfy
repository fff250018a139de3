/** String helpers with the semantics of the Java and Android library calls
    the engine relies on: `String.indexOf`, `String.trim`, `String.replace`,
    `String.endsWith`, `TextUtils.join`, `String.format("%d")` and the
    engine's own `substringBetween`. */
module Strings {

  /** `s` ends with `suffix` (`String.endsWith`). */
  predicate EndsWith(s: string, suffix: string) {
    |suffix| <= |s| && s[|s| - |suffix|..] == suffix
  }

  /** `pat` occurs in `s` starting at position `k`. */
  predicate OccursAt(s: string, pat: string, k: int) {
    0 <= k && k + |pat| <= |s| && s[k..k + |pat|] == pat
  }

  /** The leftmost occurrence of `pat` in `s` at or after `k`, or -1. */
  function IndexFrom(s: string, pat: string, k: nat): (r: int)
    requires k <= |s|
    ensures r == -1 || (k <= r && r + |pat| <= |s|)
    decreases |s| - k
  {
    if k + |pat| > |s| then -1
    else if s[k..k + |pat|] == pat then k
    else IndexFrom(s, pat, k + 1)
  }

  /** `IndexFrom` answers an occurrence at or after `k` with none before it,
      or -1 when there is none at all. */
  lemma {:induction false} IndexFromSpec(s: string, pat: string, k: nat)
    requires k <= |s|
    ensures var r := IndexFrom(s, pat, k);
      (r == -1 || (k <= r && OccursAt(s, pat, r))) &&
      (r == -1 ==> forall j :: k <= j ==> !OccursAt(s, pat, j)) &&
      (r != -1 ==> forall j :: k <= j < r ==> !OccursAt(s, pat, j))
    decreases |s| - k
  {
    if k + |pat| <= |s| && s[k..k + |pat|] != pat {
      IndexFromSpec(s, pat, k + 1);
    }
  }

  /** The leftmost occurrence at or after `k` is the one at `p` when `p` is
      an occurrence and none lies between. */
  lemma {:induction false} IndexFromFinds(s: string, pat: string, k: nat, p: nat)
    requires k <= p && OccursAt(s, pat, p)
    requires forall j :: k <= j < p ==> !OccursAt(s, pat, j)
    ensures IndexFrom(s, pat, k) == p
    decreases p - k
  {
    if k < p {
      assert !OccursAt(s, pat, k);
      IndexFromFinds(s, pat, k + 1, p);
    }
  }

  /** `String.indexOf(pat, from)`: a negative start counts as 0 and a start
      past the end as the end. */
  function IndexOf(s: string, pat: string, from: int): int {
    IndexFrom(s, pat, if from < 0 then 0 else if from > |s| then |s| else from)
  }

  /** Every character of `s` is a space or a control character, the
      characters `String.trim` removes. */
  predicate AllBlank(s: string) {
    forall i :: 0 <= i < |s| ==> s[i] <= ' '
  }

  /** Drops the leading characters `String.trim` removes. */
  function TrimStart(s: string): (r: string)
    ensures |r| <= |s|
  {
    if s != [] && s[0] <= ' ' then TrimStart(s[1..]) else s
  }

  /** `TrimStart` keeps a suffix that starts with a non-blank character,
      and what it drops is blank. */
  lemma {:induction false} TrimStartSpec(s: string)
    ensures var r := TrimStart(s);
      r == s[|s| - |r|..] && AllBlank(s[..|s| - |r|]) && (r == [] || r[0] > ' ')
  {
    if s != [] && s[0] <= ' ' {
      TrimStartSpec(s[1..]);
      var rest := TrimStart(s[1..]);
      assert s[1..][|s| - 1 - |rest|..] == s[|s| - |rest|..];
      var dropped := s[..|s| - |rest|];
      forall i | 0 <= i < |dropped| ensures dropped[i] <= ' ' {
        if i > 0 { assert dropped[i] == s[1..][..|s| - 1 - |rest|][i - 1]; }
      }
    }
  }

  /** Drops the trailing characters `String.trim` removes. */
  function TrimEnd(s: string): (r: string)
    ensures |r| <= |s|
  {
    if s != [] && s[|s| - 1] <= ' ' then TrimEnd(s[..|s| - 1]) else s
  }

  /** `TrimEnd` keeps a prefix that ends with a non-blank character, and
      what it drops is blank. */
  lemma {:induction false} TrimEndSpec(s: string)
    ensures var r := TrimEnd(s);
      r == s[..|r|] && AllBlank(s[|r|..]) && (r == [] || r[|r| - 1] > ' ')
  {
    if s != [] && s[|s| - 1] <= ' ' {
      TrimEndSpec(s[..|s| - 1]);
      var rest := TrimEnd(s[..|s| - 1]);
      assert s[..|s| - 1][..|rest|] == s[..|rest|];
      var dropped := s[|rest|..];
      forall i | 0 <= i < |dropped| ensures dropped[i] <= ' ' {
        if i < |s| - 1 - |rest| { assert dropped[i] == s[..|s| - 1][|rest|..][i]; }
      }
    }
  }

  /** `String.trim`. */
  function Trim(s: string): (r: string)
    ensures |r| <= |s|
  {
    TrimEnd(TrimStart(s))
  }

  /** `String.trim` keeps the middle part of `s` that neither starts nor
      ends with a blank; what it drops on either side is blank. */
  lemma TrimSpec(s: string)
    ensures var r := Trim(s);
      (exists i :: 0 <= i <= |s| - |r| && r == s[i..i + |r|] && AllBlank(s[..i]) && AllBlank(s[i + |r|..])) &&
      (r == [] || (r[0] > ' ' && r[|r| - 1] > ' '))
  {
    var a := TrimStart(s);
    var r := TrimEnd(a);
    TrimStartSpec(s);
    TrimEndSpec(a);
    var i := |s| - |a|;
    assert r == s[i..i + |r|];
    assert s[i + |r|..] == a[|r|..];
    assert r != [] ==> r[0] == a[0];
  }

  /** Text that neither starts nor ends with a blank trims to itself. */
  lemma TrimOfTrimmed(s: string)
    requires s == [] || (s[0] > ' ' && s[|s| - 1] > ' ')
    ensures Trim(s) == s
  {
  }

  /** `String.replace(target, replacement)`: every occurrence of `target`,
      scanning left to right without overlaps, is replaced. */
  function Replace(s: string, target: string, replacement: string): (r: string)
    requires target != ""
    ensures |target| == |replacement| ==> |r| == |s|
    decreases |s|
  {
    if |s| < |target| then s
    else if s[..|target|] == target then replacement + Replace(s[|target|..], target, replacement)
    else [s[0]] + Replace(s[1..], target, replacement)
  }

  /** Text without an occurrence of the target is left as it is. */
  lemma {:induction false} ReplaceNone(s: string, target: string, replacement: string)
    requires target != ""
    requires forall j :: !OccursAt(s, target, j)
    ensures Replace(s, target, replacement) == s
    decreases |s|
  {
    if |s| >= |target| {
      assert !OccursAt(s, target, 0);
      forall j ensures !OccursAt(s[1..], target, j) {
        if OccursAt(s[1..], target, j) {
          assert s[1..][j..j + |target|] == s[j + 1..j + 1 + |target|];
          assert OccursAt(s, target, j + 1);
        }
      }
      ReplaceNone(s[1..], target, replacement);
    }
  }

  /** Replacing passes over a prefix in which no occurrence of the target
      starts, leaving it as it is. */
  lemma {:induction false} ReplaceSkip(pre: string, tail: string, target: string, replacement: string)
    requires target != ""
    requires forall j :: 0 <= j < |pre| ==> !OccursAt(pre + tail, target, j)
    ensures Replace(pre + tail, target, replacement) == pre + Replace(tail, target, replacement)
    decreases |pre|
  {
    var s := pre + tail;
    if pre == [] {
      assert s == tail;
    } else {
      var t := pre[1..] + tail;
      assert s == [pre[0]] + t;
      forall j | 0 <= j < |pre[1..]| ensures !OccursAt(t, target, j) {
        assert !OccursAt(s, target, j + 1);
      }
      ReplaceSkip(pre[1..], tail, target, replacement);
      if |s| < |target| {
        assert Replace(tail, target, replacement) == tail;
      } else {
        assert !OccursAt(s, target, 0);
        assert s[1..] == t;
        assert Replace(s, target, replacement) == [s[0]] + Replace(t, target, replacement);
      }
    }
  }

  /** The first occurrence of the target is replaced and the scan goes on
      after it: the text before it is kept, and the rest is replaced in
      turn. */
  lemma ReplaceFirst(pre: string, target: string, replacement: string, rest: string)
    requires target != ""
    requires forall j :: 0 <= j < |pre| ==> !OccursAt(pre + target + rest, target, j)
    ensures Replace(pre + target + rest, target, replacement) == pre + replacement + Replace(rest, target, replacement)
  {
    assert pre + target + rest == pre + (target + rest);
    ReplaceSkip(pre, target + rest, target, replacement);
    assert (target + rest)[..|target|] == target;
    assert (target + rest)[|target|..] == rest;
  }

  /** The engine's `substringBetween(start, end, input)`: the trimmed text
      between the first `start` and the first `end` after it, or the whole
      input when either is missing. */
  function SubstringBetween(start: string, end: string, input: string): string {
    var si := IndexOf(input, start, 0);
    var ei := IndexOf(input, end, si + |start|);
    if si == -1 || ei == -1 then input else Trim(input[si + |start|..ei])
  }

  /** Without an occurrence of `start`, `substringBetween` answers its input. */
  lemma SubstringBetweenMissing(start: string, end: string, input: string)
    requires forall j :: !OccursAt(input, start, j)
    ensures SubstringBetween(start, end, input) == input
  {
    IndexFromSpec(input, start, 0);
  }

  /** When the first `start` is at `p` and the first `end` after it is at
      `e`, `substringBetween` yields the text between them, trimmed. */
  lemma SubstringBetweenFinds(start: string, end: string, input: string, p: nat, e: nat)
    requires OccursAt(input, start, p) && forall j :: 0 <= j < p ==> !OccursAt(input, start, j)
    requires p + |start| <= e && OccursAt(input, end, e)
    requires forall j :: p + |start| <= j < e ==> !OccursAt(input, end, j)
    ensures SubstringBetween(start, end, input) == Trim(input[p + |start|..e])
  {
    IndexFromFinds(input, start, 0, p);
    assert IndexOf(input, start, 0) == p;
    IndexFromFinds(input, end, p + |start|, e);
    assert IndexOf(input, end, p + |start|) == e;
  }

  /** `TextUtils.join(sep, xs)`. */
  function Join(sep: string, xs: seq<string>): string {
    if |xs| == 0 then ""
    else if |xs| == 1 then xs[0]
    else xs[0] + sep + Join(sep, xs[1..])
  }

  /** The StringBuilder pattern `for (x : xs) sb.append(sep).append(x)`. */
  function Prefixed(sep: string, xs: seq<string>): string {
    if xs == [] then "" else sep + xs[0] + Prefixed(sep, xs[1..])
  }

  /** Appending a list piece by piece is appending its parts in turn. */
  lemma {:induction false} PrefixedAppend(sep: string, a: seq<string>, b: seq<string>)
    ensures Prefixed(sep, a + b) == Prefixed(sep, a) + Prefixed(sep, b)
  {
    if a == [] {
      assert a + b == b;
    } else {
      assert (a + b)[1..] == a[1..] + b;
      PrefixedAppend(sep, a[1..], b);
    }
  }

  /** A join is the first element followed by `sep` + element for the rest. */
  lemma {:induction false} JoinIsPrefixed(sep: string, x: string, ys: seq<string>)
    ensures Join(sep, [x] + ys) == x + Prefixed(sep, ys)
    decreases |ys|
  {
    if ys != [] {
      assert ([x] + ys)[1..] == [ys[0]] + ys[1..];
      JoinIsPrefixed(sep, ys[0], ys[1..]);
    }
  }

  /** Splits `s` at every occurrence of the character `c`, empty pieces
      kept: the inverse of `Join` over pieces free of `c`, used to tell
      index names apart. */
  function Split(s: string, c: char): (r: seq<string>)
    ensures |r| >= 1
    decreases |s|
  {
    if s == [] then [""]
    else if s[0] == c then [""] + Split(s[1..], c)
    else
      var rest := Split(s[1..], c);
      [[s[0]] + rest[0]] + rest[1..]
  }

  /** A piece free of the separator splits to itself. */
  lemma {:induction false} SplitNone(s: string, c: char)
    requires c !in s
    ensures Split(s, c) == [s]
    decreases |s|
  {
    if s != [] {
      assert s[0] != c;
      assert c !in s[1..];
      SplitNone(s[1..], c);
      assert [s[0]] + s[1..] == s;
    }
  }

  /** A separator-free piece followed by the separator splits off first. */
  lemma {:induction false} SplitFirst(x: string, c: char, rest: string)
    requires c !in x
    ensures Split(x + [c] + rest, c) == [x] + Split(rest, c)
    decreases |x|
  {
    if x == [] {
      assert x + [c] + rest == [c] + rest;
      assert ([c] + rest)[1..] == rest;
    } else {
      assert (x + [c] + rest)[1..] == x[1..] + [c] + rest;
      assert c !in x[1..];
      SplitFirst(x[1..], c, rest);
      assert [x[0]] + x[1..] == x;
    }
  }

  /** Splitting a join of separator-free pieces gives the pieces back. */
  lemma {:induction false} SplitJoin(xs: seq<string>, c: char)
    requires |xs| >= 1
    requires forall i :: 0 <= i < |xs| ==> c !in xs[i]
    ensures Split(Join([c], xs), c) == xs
    decreases |xs|
  {
    if |xs| == 1 {
      SplitNone(xs[0], c);
    } else {
      SplitJoin(xs[1..], c);
      SplitFirst(xs[0], c, Join([c], xs[1..]));
      assert [xs[0]] + xs[1..] == xs;
    }
  }

  /** The decimal digit character for `d`. */
  function DigitChar(d: nat): char
    requires d < 10
  {
    ('0' as int + d) as char
  }

  /** Decimal digits of `n`, most significant first. */
  function Digits(n: nat): (r: string)
    ensures r != [] && forall i :: 0 <= i < |r| ==> '0' <= r[i] <= '9'
  {
    if n < 10 then [DigitChar(n)] else Digits(n / 10) + [DigitChar(n % 10)]
  }

  /** `String.format("%d", i)`. */
  function IntToString(i: int): string {
    if i < 0 then "-" + Digits(-i) else Digits(i)
  }

  /** The value of a string of decimal digits. */
  function DigitsValue(s: string): nat
    requires forall i :: 0 <= i < |s| ==> '0' <= s[i] <= '9'
  {
    if s == [] then 0 else 10 * DigitsValue(s[..|s| - 1]) + (s[|s| - 1] as int - '0' as int)
  }

  /** Printing a number in decimal loses nothing. */
  lemma {:induction false} DigitsRoundTrip(n: nat)
    ensures DigitsValue(Digits(n)) == n
  {
    var d := Digits(n);
    if n >= 10 {
      DigitsRoundTrip(n / 10);
      assert d[..|d| - 1] == Digits(n / 10);
    }
  }
}
