/**
 * Character-level helpers shared by the response parsers: Python's notion of
 * whitespace (used both by `str.strip` and by the regular-expression class `\s`),
 * ASCII digits, ASCII case folding, anchored pattern tests, a first-position
 * search (the left-to-right scan of `re.search` and of lazy `.*?` captures),
 * and `str.split('\n')` / `"\n".join`.
 */
module Text {

  /** `str.isspace` for one character; `re`'s `\s` on str patterns uses the same set. */
  predicate IsSpace(c: char)
  {
    c == ' ' || ('\t' <= c <= '\r') || ('\U{1C}' <= c <= '\U{1F}')
    || c == '\U{85}' || c == '\U{A0}' || c == '\U{1680}'
    || ('\U{2000}' <= c <= '\U{200A}') || c == '\U{2028}' || c == '\U{2029}'
    || c == '\U{202F}' || c == '\U{205F}' || c == '\U{3000}'
  }

  /** `\d`, restricted to ASCII digits. */
  predicate IsDigit(c: char)
  {
    '0' <= c <= '9'
  }

  predicate AllSpace(t: string)
  {
    forall k :: 0 <= k < |t| ==> IsSpace(t[k])
  }

  predicate AllDigits(t: string)
  {
    forall k :: 0 <= k < |t| ==> IsDigit(t[k])
  }

  /** Neither end of `t` is whitespace: what `str.strip` returns. */
  predicate IsStripped(t: string)
  {
    t == [] || (!IsSpace(t[0]) && !IsSpace(t[|t| - 1]))
  }

  predicate NoNewline(t: string)
  {
    forall k :: 0 <= k < |t| ==> t[k] != '\n'
  }

  /** The first position at or after `i` that is not whitespace (greedy `\s*`). */
  function SkipSpace(s: string, i: nat): (j: nat)
    requires i <= |s|
    ensures i <= j <= |s|
    ensures forall k :: i <= k < j ==> IsSpace(s[k])
    ensures j < |s| ==> !IsSpace(s[j])
    decreases |s| - i
  {
    if i == |s| || !IsSpace(s[i]) then i else SkipSpace(s, i + 1)
  }

  /** A slice of `w + u` that lies past `w` is a slice of `u`. */
  lemma SliceAfter<T>(w: seq<T>, u: seq<T>, i: nat, j: nat, a: nat, b: nat)
    requires a <= b <= |u| && i == |w| + a && j == |w| + b
    ensures (w + u)[i..j] == u[a..b]
  {
  }

  /** Dropping the head of a concatenation drops the head of its first part. */
  lemma ConcatCons<T>(xs: seq<T>, ys: seq<T>)
    requires xs != []
    ensures (xs + ys)[0] == xs[0] && (xs + ys)[1..] == xs[1..] + ys
  {
  }

  lemma ConcatAssoc<T>(a: seq<T>, b: seq<T>, c: seq<T>)
    ensures a + (b + c) == (a + b) + c
  {
  }

  /** What `\s*` skips is whitespace. */
  lemma SkippedIsSpace(s: string, i: nat)
    requires i <= |s|
    ensures AllSpace(s[i..SkipSpace(s, i)])
  {
    var j := SkipSpace(s, i);
    forall k | 0 <= k < j - i ensures IsSpace(s[i..j][k]) { assert s[i..j][k] == s[i + k]; }
  }

  /** `\s*` from `i` ends exactly at `j` when `s[i..j]` is whitespace and `s[j]` is not. */
  lemma {:induction false} SkipSpaceTo(s: string, i: nat, j: nat)
    requires i <= j <= |s|
    requires forall k :: i <= k < j ==> IsSpace(s[k])
    requires j < |s| ==> !IsSpace(s[j])
    ensures SkipSpace(s, i) == j
    decreases j - i
  {
    if i < j {
      SkipSpaceTo(s, i + 1, j);
    }
  }

  /** `\s*` from `i` ends at `j` when `s[i..j]` is whitespace and `s[j]` is not. */
  lemma SkipSpaceOver(s: string, i: nat, j: nat)
    requires i <= j <= |s| && AllSpace(s[i..j]) && (j < |s| ==> !IsSpace(s[j]))
    ensures SkipSpace(s, i) == j
  {
    forall k | i <= k < j ensures IsSpace(s[k]) { assert s[k] == s[i..j][k - i]; }
    SkipSpaceTo(s, i, j);
  }

  /** The smallest `k` in `[lo, j]` such that `s[k..j]` is all whitespace. */
  function BackSpace(s: string, lo: nat, j: nat): (k: nat)
    requires lo <= j <= |s|
    ensures lo <= k <= j
    ensures forall m :: k <= m < j ==> IsSpace(s[m])
    ensures lo < k ==> !IsSpace(s[k - 1])
    decreases j
  {
    if j == lo || !IsSpace(s[j - 1]) then j else BackSpace(s, lo, j - 1)
  }

  /** The backward whitespace scan from `j` stops exactly at `k` when `s[k..j]` is whitespace and `s[k - 1]` is not. */
  lemma {:induction false} BackSpaceTo(s: string, lo: nat, j: nat, k: nat)
    requires lo <= k <= j <= |s|
    requires forall m :: k <= m < j ==> IsSpace(s[m])
    requires lo < k ==> !IsSpace(s[k - 1])
    ensures BackSpace(s, lo, j) == k
    decreases j
  {
    if k < j {
      BackSpaceTo(s, lo, j - 1, k);
    }
  }

  /** `str.strip()`: `t` without its leading and trailing whitespace. */
  function Strip(t: string): (r: string)
    ensures IsStripped(r)
    ensures r == [] <==> AllSpace(t)
    ensures |r| <= |t|
    ensures forall k :: 0 <= k < |r| ==> r[k] in t
  {
    var a := SkipSpace(t, 0);
    t[a..BackSpace(t, a, |t|)]
  }

  /** Strip is determined by any split of `t` into whitespace, a stripped core and whitespace. */
  lemma StripUnique(t: string, a: nat, b: nat)
    requires a <= b <= |t|
    requires AllSpace(t[..a]) && AllSpace(t[b..]) && IsStripped(t[a..b])
    ensures Strip(t) == t[a..b]
  {
    if a < b {
      assert !IsSpace(t[a]) && !IsSpace(t[b - 1]);
      var a' := SkipSpace(t, 0);
      assert forall k :: 0 <= k < a ==> IsSpace(t[k]) by {
        forall k | 0 <= k < a ensures IsSpace(t[k]) { assert t[..a][k] == t[k]; }
      }
      assert a' == a;
      var b' := BackSpace(t, a, |t|);
      assert forall k :: b <= k < |t| ==> IsSpace(t[k]) by {
        forall k | b <= k < |t| ensures IsSpace(t[k]) { assert t[b..][k - b] == t[k]; }
      }
      assert b' == b;
    } else {
      forall k | 0 <= k < |t| ensures IsSpace(t[k]) {
        if k < a { assert t[..a][k] == t[k]; } else { assert t[b..][k - b] == t[k]; }
      }
    }
  }

  /** Stripping text that is already stripped changes nothing; in particular Strip is idempotent. */
  lemma StripStripped(t: string)
    requires IsStripped(t)
    ensures Strip(t) == t
  {
    assert t[..0] == [] && t[|t|..] == [] && t[0..|t|] == t;
    StripUnique(t, 0, |t|);
  }

  /** Whitespace around a stripped text is exactly what Strip removes. */
  lemma StripPadded(w1: string, t: string, w2: string)
    requires AllSpace(w1) && AllSpace(w2) && IsStripped(t)
    ensures Strip(w1 + t + w2) == t
  {
    var s := w1 + t + w2;
    assert s[..|w1|] == w1;
    assert s[|w1| + |t|..] == w2;
    assert s[|w1|..|w1| + |t|] == t;
    StripUnique(s, |w1|, |w1| + |t|);
  }

  /** Leading whitespace makes no difference to Strip. */
  lemma StripAfterSpace(w: string, u: string)
    requires AllSpace(w)
    ensures Strip(w + u) == Strip(u)
  {
    var t := w + u;
    var a := SkipSpace(u, 0);
    var b := BackSpace(u, a, |u|);
    var i := SkipSpace(t, 0);
    var j := BackSpace(t, i, |t|);
    StripBounds(t);
    StripBounds(u);
    SkipAfterSpace(w, u);
    BackAfterSpace(w, u, a);
    SliceAfter(w, u, i, j, a, b);
  }

  lemma StripBounds(t: string)
    ensures Strip(t) == t[SkipSpace(t, 0)..BackSpace(t, SkipSpace(t, 0), |t|)]
  {
  }

  lemma SkipAfterSpace(w: string, u: string)
    requires AllSpace(w)
    ensures SkipSpace(w + u, 0) == |w| + SkipSpace(u, 0)
  {
    var a := SkipSpace(u, 0);
    var t := w + u;
    forall k | 0 <= k < |w| + a
      ensures IsSpace(t[k])
    {
      if k < |w| { assert t[k] == w[k]; } else { assert t[k] == u[k - |w|]; }
    }
    assert |w| + a < |t| ==> t[|w| + a] == u[a];
    SkipSpaceTo(t, 0, |w| + a);
  }

  lemma BackAfterSpace(w: string, u: string, a: nat)
    requires a <= |u|
    ensures BackSpace(w + u, |w| + a, |w + u|) == |w| + BackSpace(u, a, |u|)
  {
    var b := BackSpace(u, a, |u|);
    var t := w + u;
    forall m | |w| + b <= m < |t|
      ensures IsSpace(t[m])
    {
      assert t[m] == u[m - |w|];
    }
    assert a < b ==> t[|w| + b - 1] == u[b - 1];
    BackSpaceTo(t, |w| + a, |t|, |w| + b);
  }

  /** Stripping what follows a run of whitespace is stripping from the start of the run. */
  lemma StripFromSkip(s: string, i: nat)
    requires i <= |s|
    ensures Strip(s[SkipSpace(s, i)..]) == Strip(s[i..])
  {
    var j := SkipSpace(s, i);
    assert s[i..] == s[i..j] + s[j..];
    StripAfterSpace(s[i..j], s[j..]);
  }

  /** `c.lower()` on ASCII letters; every other character is left alone. */
  function LowerChar(c: char): (d: char)
    ensures 'A' <= c <= 'Z' ==> d as int == c as int + 32
    ensures !('A' <= c <= 'Z') ==> d == c
  {
    if 'A' <= c <= 'Z' then (c as int + 32) as char else c
  }

  /** `s[i..]` starts with `pat`, compared character by character (case-sensitive). */
  predicate StartsWithAt(s: string, i: nat, pat: string)
  {
    i + |pat| <= |s| && s[i..i + |pat|] == pat
  }

  /**
   * `s[i..]` starts with `marker` under IGNORECASE; `marker` is written in lower case,
   * so each character of `s` is folded and compared with it.
   */
  predicate FoldedAt(s: string, i: nat, marker: string)
  {
    i + |marker| <= |s| && forall k :: 0 <= k < |marker| ==> LowerChar(s[i + k]) == marker[k]
  }

  /** `$` without MULTILINE: the end of the text, or just before a final newline. */
  predicate AtEnd(s: string, i: nat)
  {
    i == |s| || (i + 1 == |s| && s[i] == '\n')
  }

  /**
   * The first position `k` in `[i, n)` with `f(k)`, or `n` when there is none.
   * This is the scan of `re.search` over start positions, and the scan a lazy
   * `.*?` makes for the first place its lookahead holds.
   */
  function First(i: nat, n: nat, f: nat -> bool): (k: nat)
    requires i <= n
    ensures i <= k <= n
    ensures k < n ==> f(k)
    ensures forall j :: i <= j < k ==> !f(j)
    decreases n - i
  {
    if i == n || f(i) then i else First(i + 1, n, f)
  }

  /** Any position that is first to satisfy `f` in `[i, n)` (or `n`, when none does) is what First returns. */
  lemma FirstIs(i: nat, n: nat, f: nat -> bool, k: nat)
    requires i <= k <= n
    requires k < n ==> f(k)
    requires forall j :: i <= j < k ==> !f(j)
    ensures First(i, n, f) == k
  {
  }

  /** The number of digits at `s[d..]`, at most `limit` (greedy `\d{1,limit}` without its lower bound). */
  function DigitRun(s: string, d: nat, limit: nat): (n: nat)
    requires d <= |s|
    ensures n <= limit && d + n <= |s|
    ensures AllDigits(s[d..d + n])
    ensures n < limit && d + n < |s| ==> !IsDigit(s[d + n])
    decreases limit
  {
    if limit == 0 || d == |s| || !IsDigit(s[d]) then 0
    else
      var m := DigitRun(s, d + 1, limit - 1);
      assert s[d..d + 1 + m] == [s[d]] + s[d + 1..d + 1 + m];
      1 + m
  }

  /** The digit run from `d` is exactly `n` long when `n` digits follow `d` and no further digit may be taken. */
  lemma {:induction false} DigitRunIs(s: string, d: nat, limit: nat, n: nat)
    requires n <= limit && d + n <= |s| && AllDigits(s[d..d + n])
    requires n < limit && d + n < |s| ==> !IsDigit(s[d + n])
    ensures DigitRun(s, d, limit) == n
    decreases n
  {
    if n > 0 {
      assert IsDigit(s[d..d + n][0]);
      assert s[d + 1..d + n] == s[d..d + n][1..];
      DigitRunIs(s, d + 1, limit - 1, n - 1);
    }
  }

  /** A suffix of a newline-free text is newline-free. */
  lemma SuffixNoNewline(t: string, i: nat)
    requires i <= |t|
    ensures NoNewline(t) ==> NoNewline(t[i..])
  {
    if NoNewline(t) {
      forall k | 0 <= k < |t| - i ensures t[i..][k] != '\n' { assert t[i..][k] == t[i + k]; }
    }
  }

  /** `"\n".join(xs)`. */
  function JoinLines(xs: seq<string>): (s: string)
    ensures xs == [] ==> s == ""
    ensures |xs| == 1 ==> s == xs[0]
  {
    if xs == [] then ""
    else if |xs| == 1 then xs[0]
    else xs[0] + "\n" + JoinLines(xs[1..])
  }

  /** `s.split('\n')`: the pieces between newlines; never empty, and `""` gives `[""]`. */
  function SplitLines(s: string): (xs: seq<string>)
    ensures |xs| >= 1
    ensures forall i :: 0 <= i < |xs| ==> NoNewline(xs[i])
    ensures forall x :: x in xs ==> NoNewline(x)
    decreases |s|
  {
    var isNewline := (j: nat) => j < |s| && s[j] == '\n';
    var k := First(0, |s|, isNewline);
    assert NoNewline(s[..k]) by {
      forall j | 0 <= j < k ensures s[..k][j] != '\n' { assert !isNewline(j); }
    }
    if k == |s| then assert s[..k] == s; [s]
    else [s[..k]] + SplitLines(s[k + 1..])
  }
}
