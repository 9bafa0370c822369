/**
 * The Python `str` operations the backend relies on, over `seq<char>`:
 * `isspace`, `strip`, `find`, `replace`, `split("\n")[0]` and `endswith`.
 */
module Text {
  import opened Wrappers

  /** Python's `str.isspace` for one character (`Py_UNICODE_ISSPACE`); regular
      expressions over `str` use the same set for `\s`. */
  predicate IsSpace(c: char) {
    if c <= ' ' then ('\t' <= c <= '\r') || '\U{1C}' <= c
    else if c <= '\U{A0}' then c == '\U{85}' || c == '\U{A0}'
    else if c < '\U{2000}' then c == '\U{1680}'
    else if c <= '\U{200A}' then true
    else c == '\U{2028}' || c == '\U{2029}' || c == '\U{202F}' || c == '\U{205F}' || c == '\U{3000}'
  }

  predicate AllSpace(s: string) {
    forall i :: 0 <= i < |s| ==> IsSpace(s[i])
  }

  /** Neither end of `s` is whitespace: the shape of every result of `strip()`. */
  predicate Stripped(s: string) {
    s == [] || (!IsSpace(s[0]) && !IsSpace(s[|s| - 1]))
  }

  /** `s.lstrip()`: the suffix of `s` after its leading whitespace. */
  function TrimStart(s: string): (r: string)
    ensures |r| <= |s| && r == s[|s| - |r|..]
    ensures AllSpace(s[..|s| - |r|])
    ensures r == [] || !IsSpace(r[0])
    decreases |s|
  {
    if |s| > 0 && IsSpace(s[0]) then TrimStart(s[1..]) else s
  }

  /** `s.rstrip()`: the prefix of `s` before its trailing whitespace. */
  function TrimEnd(s: string): (r: string)
    ensures |r| <= |s| && r == s[..|r|]
    ensures AllSpace(s[|r|..])
    ensures r == [] || !IsSpace(r[|r| - 1])
    decreases |s|
  {
    if |s| > 0 && IsSpace(s[|s| - 1]) then
      var r := TrimEnd(s[..|s| - 1]);
      SpaceRunGrows(s, |r|);
      r
    else s
  }

  /** A run of whitespace up to the last character, and that character whitespace,
      make a run of whitespace to the end. */
  lemma SpaceRunGrows(s: string, i: nat)
    requires i < |s| && AllSpace(s[..|s| - 1][i..]) && IsSpace(s[|s| - 1])
    ensures AllSpace(s[i..])
  {
    assert s[i..] == s[..|s| - 1][i..] + [s[|s| - 1]];
  }

  /** Where the text kept by `strip()` starts: the length of the leading whitespace. */
  function StripStart(s: string): (i: nat)
    ensures i <= |s| && TrimStart(s) == s[i..] && AllSpace(s[..i])
  {
    |s| - |TrimStart(s)|
  }

  /** `s.strip()`: `s` with whitespace removed from both ends. */
  function Strip(s: string): (r: string)
    ensures Stripped(r) && |r| <= |s|
  {
    TrimEnd(TrimStart(s))
  }

  /** `strip()` removes whitespace and nothing else: what it keeps is one piece of
      `s`, with only whitespace before and after it. */
  lemma StripParts(s: string)
    ensures StripStart(s) + |Strip(s)| <= |s|
    ensures s[StripStart(s)..StripStart(s) + |Strip(s)|] == Strip(s)
    ensures AllSpace(s[..StripStart(s)]) && AllSpace(s[StripStart(s) + |Strip(s)|..])
  {
    var i := StripStart(s);
    var u := TrimStart(s);
    assert Strip(s) == TrimEnd(u);
    TrimEndInside(s, i, u);
  }

  /** Trimming the end of a suffix `u == s[i..]` keeps a piece of `s` followed by
      whitespace only. */
  lemma TrimEndInside(s: string, i: nat, u: string)
    requires i <= |s| && u == s[i..]
    ensures i + |TrimEnd(u)| <= |s| && s[i..i + |TrimEnd(u)|] == TrimEnd(u)
    ensures AllSpace(s[i + |TrimEnd(u)|..])
  {
    var r := TrimEnd(u);
    assert s[i..i + |r|] == u[..|r|];
    assert s[i + |r|..] == u[|r|..];
  }

  lemma {:induction false} TrimStartSkips(a: string, rest: string)
    requires AllSpace(a)
    requires rest == [] || !IsSpace(rest[0])
    ensures TrimStart(a + rest) == rest
    decreases |a|
  {
    if a != [] {
      assert (a + rest)[1..] == a[1..] + rest;
      TrimStartSkips(a[1..], rest);
    }
  }

  lemma {:induction false} TrimEndSkips(rest: string, b: string)
    requires AllSpace(b)
    requires rest == [] || !IsSpace(rest[|rest| - 1])
    ensures TrimEnd(rest + b) == rest
    decreases |b|
  {
    if b != [] {
      var b' := b[..|b| - 1];
      assert (rest + b)[..|rest + b| - 1] == rest + b';
      TrimEndSkips(rest, b');
    } else {
      assert rest + b == rest;
    }
  }

  /** `strip()` is determined by its result's shape: whatever text with no whitespace
      at either end is surrounded by whitespace is exactly what `strip()` returns. */
  lemma StripSurrounded(a: string, t: string, b: string)
    requires AllSpace(a) && AllSpace(b) && Stripped(t)
    ensures Strip(a + t + b) == t
  {
    if t == [] {
      assert a + t + b == a + b + [];
      TrimStartSkips(a + b, []);
    } else {
      assert a + t + b == a + (t + b);
      TrimStartSkips(a, t + b);
      TrimEndSkips(t, b);
    }
  }

  /** A blank string strips to the empty string. */
  lemma StripAllSpace(s: string)
    requires AllSpace(s)
    ensures Strip(s) == []
  {
    assert s == s + [] + [];
    StripSurrounded(s, [], []);
  }

  /** Leading whitespace never changes the result of `strip()`. */
  lemma StripLeadingSpace(a: string, t: string)
    requires AllSpace(a)
    ensures Strip(a + t) == Strip(t)
  {
    TrimStartSpace(a, t);
  }

  lemma {:induction false} TrimStartSpace(a: string, t: string)
    requires AllSpace(a)
    ensures TrimStart(a + t) == TrimStart(t)
    decreases |a|
  {
    if a == [] {
      assert a + t == t;
    } else {
      assert (a + t)[0] == a[0];
      assert (a + t)[1..] == a[1..] + t;
      TrimStartSpace(a[1..], t);
    }
  }

  /** `strip()` only removes characters, so it cannot introduce one. */
  lemma StripKeepsOut(s: string, c: char)
    requires c !in s
    ensures c !in Strip(s)
  {
    var r, i := Strip(s), StripStart(s);
    StripParts(s);
    forall k | 0 <= k < |r|
      ensures r[k] != c
    {
      assert r[k] == s[i + k];
    }
  }

  /** `strip()` is idempotent. */
  lemma StripIdempotent(s: string)
    ensures Strip(Strip(s)) == Strip(s)
  {
    var r := Strip(s);
    assert r == [] + r + [];
    StripSurrounded([], r, []);
  }

  /** `m` occurs in `s` at index `i`. */
  predicate Occurs(s: string, m: string, i: int) {
    0 <= i && i + |m| <= |s| && s[i..i + |m|] == m
  }

  /** Python's `m in s`. */
  ghost predicate Contains(s: string, m: string) {
    exists i :: Occurs(s, m, i)
  }

  /** `s.find(m, i)`: the first occurrence of `m` at or after `i`, if any. */
  function FindFrom(s: string, m: string, i: nat): (r: Option<nat>)
    ensures r.Some? ==> i <= r.value && Occurs(s, m, r.value)
    ensures forall j :: i <= j && Occurs(s, m, j) ==> r.Some? && r.value <= j
    decreases |s| - i
  {
    if i + |m| > |s| then None
    else if s[i..i + |m|] == m then Some(i)
    else FindFrom(s, m, i + 1)
  }

  /** The index of the first newline at or after `k`, or `|s|` if there is none. */
  function LineEnd(s: string, k: nat): (e: nat)
    requires k <= |s|
    ensures k <= e <= |s|
    ensures '\n' !in s[k..e]
    ensures e < |s| ==> s[e] == '\n'
    decreases |s| - k
  {
    if k == |s| || s[k] == '\n' then k else LineEnd(s, k + 1)
  }

  /** The index of the first non-whitespace character at or after `k`, or `|s|`. */
  function SpaceEnd(s: string, k: nat): (e: nat)
    requires k <= |s|
    ensures k <= e <= |s|
    ensures AllSpace(s[k..e])
    ensures e < |s| ==> !IsSpace(s[e])
    decreases |s| - k
  {
    if k == |s| || !IsSpace(s[k]) then k else SpaceEnd(s, k + 1)
  }

  /** The line from `k` ends at `e` when no newline comes before `e` and one is at `e`
      (or the text ends there). */
  lemma {:induction false} LineEndAt(s: string, k: nat, e: nat)
    requires k <= e <= |s| && (e == |s| || s[e] == '\n')
    requires forall i :: k <= i < e ==> s[i] != '\n'
    ensures LineEnd(s, k) == e
    decreases e - k
  {
    if k < e {
      LineEndAt(s, k + 1, e);
    }
  }

  /** The whitespace run from `a` stops at or before any non-whitespace character `k`. */
  lemma {:induction false} SpaceEndStops(s: string, a: nat, k: nat)
    requires a <= k < |s| && !IsSpace(s[k])
    ensures SpaceEnd(s, a) <= k
    decreases k - a
  {
    if a < k && IsSpace(s[a]) {
      SpaceEndStops(s, a + 1, k);
    }
  }

  /** `s.split("\n")[0]`: the longest prefix of `s` without a newline. */
  function FirstLine(s: string): (r: string)
    ensures r <= s
    ensures '\n' !in r
    ensures |r| < |s| ==> s[|r|] == '\n'
  {
    s[..LineEnd(s, 0)]
  }

  /** The first line of a stripped text starts where the text does. */
  lemma FirstLineOfStripped(s: string)
    requires Stripped(s)
    ensures FirstLine(s) == [] || !IsSpace(FirstLine(s)[0])
  {
    var r := FirstLine(s);
    assert r != [] ==> r[0] == s[0];
  }

  /** A character missing from a slice is missing from each position it covers. */
  lemma NotInSlice(s: string, c: char, i: nat, j: nat, k: nat)
    requires i <= k < j <= |s| && c !in s[i..j]
    ensures s[k] != c
  {
    assert s[i..j][k - i] == s[k];
  }

  /** The first line of a line followed by a newline is that line. */
  lemma FirstLineBeforeNewline(a: string, b: string)
    requires '\n' !in a
    ensures FirstLine(a + "\n" + b) == a
  {
    var s := a + "\n" + b;
    forall k | 0 <= k < |a|
      ensures s[k] != '\n'
    {
      assert s[k] == a[k];
    }
    LineEndAt(s, 0, |a|);
    assert s[..|a|] == a;
  }

  /** `s.replace(p, n)`: every occurrence of `p`, found left to right without
      overlapping, is replaced by `n`. */
  function Replace(s: string, p: string, n: string): (r: string)
    requires p != []
    ensures |n| == |p| ==> |r| == |s|
    ensures n == p ==> r == s
    decreases |s|
  {
    if |s| < |p| then s
    else if s[..|p|] == p then
      assert s == s[..|p|] + s[|p|..];
      n + Replace(s[|p|..], p, n)
    else
      assert s == [s[0]] + s[1..];
      [s[0]] + Replace(s[1..], p, n)
  }

  /** An occurrence in the tail is an occurrence one place further on in `s`. */
  lemma OccursInTail(s: string, m: string, j: nat)
    requires |s| > 0
    ensures Occurs(s[1..], m, j) <==> Occurs(s, m, j + 1)
  {
    if j + |m| <= |s| - 1 {
      assert s[1..][j..j + |m|] == s[j + 1..j + 1 + |m|];
    }
  }

  /** Text without the pattern comes out of `replace` unchanged. */
  lemma {:induction false} ReplaceAbsent(s: string, p: string, n: string)
    requires p != [] && !Contains(s, p)
    ensures Replace(s, p, n) == s
    decreases |s|
  {
    if |s| >= |p| {
      assert !Occurs(s, p, 0);
      forall j: int
        ensures !Occurs(s[1..], p, j)
      {
        if 0 <= j { OccursInTail(s, p, j); }
      }
      ReplaceAbsent(s[1..], p, n);
      assert [s[0]] + s[1..] == s;
    }
  }

  /** `replace` keeps the text before the first occurrence, replaces that occurrence,
      and carries on after it: an occurrence anywhere, not only a leading one, goes. */
  lemma {:induction false} ReplaceFirst(s: string, p: string, n: string, j: nat)
    requires p != [] && Occurs(s, p, j)
    requires forall i :: 0 <= i < j ==> !Occurs(s, p, i)
    ensures Replace(s, p, n) == s[..j] + n + Replace(s[j + |p|..], p, n)
    decreases j
  {
    if j == 0 {
      ReplaceAtStart(s, p, n);
      assert s[..j] + n == n;
    } else {
      var t := s[1..];
      ReplaceSkipsChar(s, p, n);
      NoEarlierInTail(s, p, j);
      var rest := Replace(s[j + |p|..], p, n);
      ReplaceFirst(t, p, n, j - 1);
      TailAfter(s, j + |p|);
      assert Replace(t, p, n) == t[..j - 1] + n + rest;
      assert Replace(s, p, n) == [s[0]] + (t[..j - 1] + n + rest);
      ShiftedSplit(s, n, rest, j);
    }
  }

  lemma ReplaceAtStart(s: string, p: string, n: string)
    requires p != [] && Occurs(s, p, 0)
    ensures Replace(s, p, n) == n + Replace(s[|p|..], p, n)
  {
    assert s[..|p|] == p;
  }

  lemma ReplaceSkipsChar(s: string, p: string, n: string)
    requires p != [] && |s| > 0 && !Occurs(s, p, 0)
    ensures Replace(s, p, n) == [s[0]] + Replace(s[1..], p, n)
  {
  }

  lemma TailAfter(s: string, k: nat)
    requires 0 < k <= |s|
    ensures s[1..][k - 1..] == s[k..]
  {
  }

  lemma ShiftedSplit(s: string, n: string, r: string, j: nat)
    requires 0 < j <= |s|
    ensures [s[0]] + (s[1..][..j - 1] + n + r) == s[..j] + n + r
  {
    assert [s[0]] + s[1..][..j - 1] == s[..j];
  }

  lemma NoEarlierInTail(s: string, p: string, j: nat)
    requires 0 < j && Occurs(s, p, j)
    requires forall i :: 0 <= i < j ==> !Occurs(s, p, i)
    ensures Occurs(s[1..], p, j - 1)
    ensures forall i :: 0 <= i < j - 1 ==> !Occurs(s[1..], p, i)
  {
    assert s[1..][j - 1..j - 1 + |p|] == s[j..j + |p|];
    forall i | 0 <= i < j - 1
      ensures !Occurs(s[1..], p, i)
    {
      OccursInTail(s, p, i);
    }
  }

  /** Python's `s.endswith(suffix)`. */
  predicate EndsWith(s: string, suffix: string): (b: bool)
    ensures b <==> exists t :: s == t + suffix
  {
    if |suffix| <= |s| then
      var t := s[..|s| - |suffix|];
      assert s == t + s[|s| - |suffix|..];
      s[|s| - |suffix|..] == suffix
    else
      false
  }
}
