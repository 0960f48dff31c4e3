/** The members of JavaScript's `String.prototype` that the partial loader uses. A
    string here is a sequence of Unicode code points, where JavaScript indexes UTF-16
    code units; the two agree on the ASCII needles the loader searches for. */
module JsString {

  /** `t` occurs in `s` starting at index `i`. */
  predicate OccursAt(s: string, t: string, i: int)
  {
    0 <= i && i + |t| <= |s| && s[i..i + |t|] == t
  }

  /** `s.indexOf(t, from)` for `from <= |s|`: the first index at or after `from` where
      `t` occurs, or -1 (`IndexFromFinds` states it). Beyond the end JavaScript would
      still find an empty `t` at `|s|`; the loader only searches from 0. */
  function IndexFrom(s: string, t: string, from: nat): (r: int)
    decreases |s| - from
    ensures r == -1 || from <= r <= |s| - |t|
  {
    if |s| < from + |t| then -1
    else if s[from..from + |t|] == t then from
    else IndexFrom(s, t, from + 1)
  }

  /** `IndexFrom` finds an occurrence, and no earlier one at or after `from` exists;
      -1 means none exists at all at or after `from`. */
  lemma {:induction false} IndexFromFinds(s: string, t: string, from: nat)
    decreases |s| - from
    ensures IndexFrom(s, t, from) == -1 || OccursAt(s, t, IndexFrom(s, t, from))
    ensures forall j :: from <= j && (IndexFrom(s, t, from) == -1 || j < IndexFrom(s, t, from)) ==> !OccursAt(s, t, j)
  {
    if |s| >= from + |t| && s[from..from + |t|] != t {
      IndexFromFinds(s, t, from + 1);
    }
  }

  /** `s.indexOf(t)`: the first index where `t` occurs in `s`, or -1 when it occurs
      nowhere (`IndexOfFinds` states it). */
  function IndexOf(s: string, t: string): (r: int)
    ensures r == -1 || 0 <= r <= |s| - |t|
    ensures t == "" ==> r == 0
  {
    IndexFrom(s, t, 0)
  }

  /** `indexOf` finds the first occurrence; -1 means `t` occurs nowhere in `s`. */
  lemma IndexOfFinds(s: string, t: string)
    ensures IndexOf(s, t) == -1 || OccursAt(s, t, IndexOf(s, t))
    ensures forall j :: 0 <= j && (IndexOf(s, t) == -1 || j < IndexOf(s, t)) ==> !OccursAt(s, t, j)
  {
    IndexFromFinds(s, t, 0);
  }

  /** `s.replace(t, u)` with a string pattern: only the first occurrence of `t` is
      replaced. The replacements used here ("" and "_") hold no `$` patterns. */
  function Replace(s: string, t: string, u: string): (r: string)
    ensures IndexOf(s, t) >= 0 ==> |r| == |s| - |t| + |u|
    ensures IndexOf(s, t) < 0 ==> r == s
    ensures t == "" ==> r == u + s
  {
    var i := IndexOf(s, t);
    if i < 0 then s else s[..i] + u + s[i + |t|..]
  }

  /** Replacing the first occurrence: when `t` does not occur in `a + t` before index
      `|a|`, `(a + t + b).replace(t, u)` is `a + u + b`, whatever `b` holds. */
  lemma ReplaceFirstOccurrence(a: string, t: string, b: string, u: string)
    requires forall j :: 0 <= j < |a| ==> !OccursAt(a + t + b, t, j)
    ensures Replace(a + t + b, t, u) == a + u + b
  {
    var s := a + t + b;
    assert s[|a|..|a| + |t|] == t;
    assert OccursAt(s, t, |a|);
    IndexOfFinds(s, t);
    var r := IndexOf(s, t);
    assert r != -1 && r <= |a|;
    assert !(r < |a|);
    assert s[..|a|] == a && s[|a| + |t|..] == b;
  }

  /** A pattern that starts the string is the occurrence `replace` rewrites. */
  lemma ReplaceAtStart(t: string, b: string, u: string)
    ensures Replace(t + b, t, u) == u + b
  {
    assert "" + t + b == t + b;
    ReplaceFirstOccurrence("", t, b, u);
    assert "" + u + b == u + b;
  }

  /** Replacing the empty string prepends the replacement. */
  lemma ReplaceEmpty(s: string)
    ensures Replace(s, "", "") == s
  {
    assert "" + s == s;
  }

  /** `t` cannot start where its first character is missing. */
  lemma NoOccurrenceBefore(s: string, t: string, n: int)
    requires |t| > 0 && 0 <= n <= |s| && t[0] !in s[..n]
    ensures forall j :: 0 <= j < n ==> !OccursAt(s, t, j)
  {
    forall j | 0 <= j < n
      ensures !OccursAt(s, t, j)
    {
      assert s[..n][j] == s[j];
      if j + |t| <= |s| {
        assert s[j..j + |t|][0] == s[j];
      }
    }
  }

  /** A single character occurs exactly where the string holds it. */
  lemma OccursAtChar(s: string, c: char, i: int)
    ensures OccursAt(s, [c], i) <==> 0 <= i < |s| && s[i] == c
  {
    if 0 <= i < |s| {
      assert s[i..i + 1] == [s[i]];
    }
  }

  /** `s.indexOf(c) >= 0` holds exactly when the character `c` is in `s`. */
  lemma IndexOfChar(s: string, c: char)
    ensures IndexOf(s, [c]) >= 0 <==> c in s
    ensures IndexOf(s, [c]) >= 0 ==> s[IndexOf(s, [c])] == c
    ensures forall j :: 0 <= j < |s| && (IndexOf(s, [c]) < 0 || j < IndexOf(s, [c])) ==> s[j] != c
  {
    IndexOfFinds(s, [c]);
    var r := IndexOf(s, [c]);
    OccursAtChar(s, c, r);
    forall j | 0 <= j < |s| && (r < 0 || j < r)
      ensures s[j] != c
    {
      OccursAtChar(s, c, j);
    }
    if c in s {
      var k :| 0 <= k < |s| && s[k] == c;
      OccursAtChar(s, c, k);
    }
  }

  /** `x` clamped into `[0, n]`, as `substring` treats its arguments. */
  function Clamp(x: int, n: nat): (r: nat)
    ensures r <= n
    ensures 0 <= x <= n ==> r == x
  {
    if x < 0 then 0 else if x > n then n else x
  }

  /** `s.substring(start, end)`: both indices are clamped into `[0, |s|]` and swapped
      when `start` exceeds `end`. */
  function Substring(s: string, start: int, end: int): (r: string)
    ensures 0 <= start <= end <= |s| ==> r == s[start..end]
    ensures end < 0 ==> r == s[..Clamp(start, |s|)]
    ensures |r| <= |s|
  {
    var a, b := Clamp(start, |s|), Clamp(end, |s|);
    if a <= b then s[a..b] else s[b..a]
  }
}
