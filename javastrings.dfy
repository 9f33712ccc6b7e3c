/**
 * The two `java.lang.String` operations the blur loader calls, `startsWith`
 * and `replace(CharSequence, CharSequence)`; the latter replaces every
 * occurrence, scanning from the start and never letting two replaced
 * occurrences overlap. `indexOf` is here as an independent reference
 * definition through which `replace` is specified.
 */
module JavaStrings {

  /** `p` occurs in `s` starting at index `i`. */
  predicate OccursAt(s: string, p: string, i: int) {
    0 <= i && i + |p| <= |s| && s[i..i + |p|] == p
  }

  predicate Contains(s: string, p: string) {
    exists i :: 0 <= i <= |s| && OccursAt(s, p, i)
  }

  /** `String.startsWith`: holds exactly when `s` is the prefix followed by something. */
  function StartsWith(s: string, prefix: string): (r: bool)
    ensures r <==> exists rest :: s == prefix + rest
  {
    assert |prefix| <= |s| && s[..|prefix|] == prefix ==> s == prefix + s[|prefix|..];
    assert forall rest :: s == prefix + rest ==> s[..|prefix|] == prefix;
    |prefix| <= |s| && s[..|prefix|] == prefix
  }

  /** A slice lying wholly in the second part of a concatenation. */
  lemma SliceOfConcat(a: string, b: string, i: int, n: nat)
    requires |a| <= i && i + n <= |a| + |b|
    ensures (a + b)[i..i + n] == b[i - |a|..i - |a| + n]
  {
  }

  /** An occurrence in `s` past index 0 is an occurrence in `s[1..]`, one place earlier. */
  lemma ShiftOccurrence(s: string, p: string, j: int)
    requires 0 < j && |s| > 0
    ensures OccursAt(s, p, j) <==> OccursAt(s[1..], p, j - 1)
  {
    if j + |p| <= |s| {
      assert s[j..j + |p|] == s[1..][j - 1..j - 1 + |p|];
    }
  }

  /** `String.indexOf` for a non-empty pattern: the first occurrence, or -1. */
  function IndexOf(s: string, p: string): (r: int)
    requires |p| > 0
    ensures -1 <= r < |s|
    ensures r == -1 ==> forall j :: !OccursAt(s, p, j)
    ensures r >= 0 ==> OccursAt(s, p, r) && forall j :: 0 <= j < r ==> !OccursAt(s, p, j)
    decreases |s|
  {
    if |s| < |p| then -1
    else if s[..|p|] == p then 0
    else
      var k := IndexOf(s[1..], p);
      assert forall j :: 0 < j ==> (OccursAt(s, p, j) <==> OccursAt(s[1..], p, j - 1)) by {
        forall j | 0 < j {
          ShiftOccurrence(s, p, j);
        }
      }
      if k < 0 then -1 else k + 1
  }

  /**
   * `s.replace(target, replacement)`: every occurrence of `target`, found
   * left to right and consumed whole, becomes `replacement`.
   */
  function ReplaceAll(s: string, target: string, replacement: string): (r: string)
    requires |target| > 0
    ensures |replacement| <= |target| ==> |r| <= |s|
    ensures |replacement| >= |target| ==> |r| >= |s|
    decreases |s|
  {
    if |s| < |target| then s
    else if s[..|target|] == target then replacement + ReplaceAll(s[|target|..], target, replacement)
    else [s[0]] + ReplaceAll(s[1..], target, replacement)
  }

  /** A prefix in which no occurrence of the target starts is copied unchanged. */
  lemma {:induction false} ReplaceAllCopiesClearPrefix(a: string, b: string, target: string, replacement: string)
    requires |target| > 0
    requires forall j :: 0 <= j < |a| ==> !OccursAt(a + b, target, j)
    ensures ReplaceAll(a + b, target, replacement) == a + ReplaceAll(b, target, replacement)
    decreases |a|
  {
    if a == [] {
      assert a + b == b;
    } else {
      var s := a + b;
      assert !OccursAt(s, target, 0);
      assert s[1..] == a[1..] + b;
      forall j | 0 <= j < |a[1..]| ensures !OccursAt(a[1..] + b, target, j) {
        ShiftOccurrence(s, target, j + 1);
      }
      ReplaceAllCopiesClearPrefix(a[1..], b, target, replacement);
      assert ReplaceAll(s, target, replacement) == [a[0]] + ReplaceAll(a[1..] + b, target, replacement);
      assert [a[0]] + (a[1..] + ReplaceAll(b, target, replacement)) == a + ReplaceAll(b, target, replacement);
    }
  }

  /**
   * The replace-all scan stated through `indexOf`, as Java documents it: copy
   * up to the first occurrence, emit the replacement, continue after the
   * occurrence; with no occurrence the string is returned unchanged.
   */
  lemma {:induction false} ReplaceAllByIndexOf(s: string, target: string, replacement: string)
    requires |target| > 0
    ensures var k := IndexOf(s, target);
      ReplaceAll(s, target, replacement) ==
        if k < 0 then s
        else s[..k] + replacement + ReplaceAll(s[k + |target|..], target, replacement)
  {
    var k := IndexOf(s, target);
    if k < 0 {
      assert s == s + [];
      ReplaceAllCopiesClearPrefix(s, [], target, replacement);
    } else {
      assert s == s[..k] + s[k..];
      ReplaceAllCopiesClearPrefix(s[..k], s[k..], target, replacement);
      assert s[k..][..|target|] == target;
      assert s[k..][|target|..] == s[k + |target|..];
    }
  }

  /** A string with no occurrence of the target is left unchanged. */
  lemma ReplaceAllWithoutOccurrence(s: string, target: string, replacement: string)
    requires |target| > 0
    requires !Contains(s, target)
    ensures ReplaceAll(s, target, replacement) == s
  {
    ReplaceAllByIndexOf(s, target, replacement);
  }

  /** No character of `a` appears in `b`. */
  predicate Disjoint(a: string, b: string) {
    forall i, j :: 0 <= i < |a| && 0 <= j < |b| ==> a[i] != b[j]
  }

  /**
   * If the output of a replace-all begins with a string sharing no character
   * with the replacement, the input began with that same string.
   */
  lemma {:induction false} PrefixSurvives(t: string, target: string, replacement: string, q: string)
    requires |target| > 0 && |replacement| > 0
    requires Disjoint(replacement, q)
    ensures var out := ReplaceAll(t, target, replacement);
      |q| <= |out| && out[..|q|] == q ==> |q| <= |t| && t[..|q|] == q
    decreases |t|
  {
    var out := ReplaceAll(t, target, replacement);
    if |q| == 0 || |t| < |target| {
    } else if t[..|target|] == target {
      assert out[0] == replacement[0] != q[0];
    } else {
      var rest := ReplaceAll(t[1..], target, replacement);
      assert out == [t[0]] + rest;
      PrefixSurvives(t[1..], target, replacement, q[1..]);
      if |q| <= |out| && out[..|q|] == q {
        assert rest[..|q| - 1] == q[1..];
        assert t[..|q|] == [t[0]] + t[1..][..|q| - 1];
      }
    }
  }

  /** Emitting a replacement that shares no character with the target creates no occurrence. */
  lemma NoOccurrenceAfterReplacement(replacement: string, rest: string, target: string)
    requires |target| > 0 && |replacement| > 0
    requires Disjoint(replacement, target)
    requires !Contains(rest, target)
    ensures !Contains(replacement + rest, target)
  {
    var out := replacement + rest;
    forall i | 0 <= i <= |out| ensures !OccursAt(out, target, i) {
      if i < |replacement| {
        assert out[i] == replacement[i] != target[0];
      } else if i + |target| <= |out| {
        SliceOfConcat(replacement, rest, i, |target|);
        assert !OccursAt(rest, target, i - |replacement|);
      }
    }
  }

  /**
   * The character `c` copied in front of the output of the pass on `t` does
   * not start an occurrence when `c + t` does not itself start with the target.
   */
  lemma NoOccurrenceAtCopiedHead(c: char, t: string, target: string, replacement: string)
    requires |target| > 0 && |replacement| > 0
    requires Disjoint(replacement, target)
    requires !OccursAt([c] + t, target, 0)
    ensures !OccursAt([c] + ReplaceAll(t, target, replacement), target, 0)
  {
    var rest := ReplaceAll(t, target, replacement);
    var out := [c] + rest;
    var q := target[1..];
    assert target == [target[0]] + q;
    assert Disjoint(replacement, q) by {
      forall i, j | 0 <= i < |replacement| && 0 <= j < |q| ensures replacement[i] != q[j] {
        assert q[j] == target[j + 1];
      }
    }
    PrefixSurvives(t, target, replacement, q);
    if |target| <= |out| {
      assert out[0..|target|] == [c] + rest[..|q|];
      if |q| <= |t| {
        assert ([c] + t)[0..|target|] == [c] + t[..|q|];
      }
    }
  }

  /**
   * Copying one character `c` in front of the output of the pass on `t`
   * creates no occurrence when `c + t` does not itself start with the target.
   */
  lemma NoOccurrenceAfterCopy(c: char, t: string, target: string, replacement: string)
    requires |target| > 0 && |replacement| > 0
    requires Disjoint(replacement, target)
    requires !OccursAt([c] + t, target, 0)
    requires !Contains(ReplaceAll(t, target, replacement), target)
    ensures !Contains([c] + ReplaceAll(t, target, replacement), target)
  {
    var rest := ReplaceAll(t, target, replacement);
    var out := [c] + rest;
    forall i | 0 <= i <= |out| ensures !OccursAt(out, target, i) {
      if i == 0 {
        NoOccurrenceAtCopiedHead(c, t, target, replacement);
      } else if i + |target| <= |out| {
        SliceOfConcat([c], rest, i, |target|);
        assert !OccursAt(rest, target, i - 1);
      }
    }
  }

  /**
   * When the replacement is non-empty and shares no character with the
   * target, a single left-to-right pass leaves no occurrence of the target.
   */
  lemma {:induction false} ReplaceAllRemovesEveryOccurrence(s: string, target: string, replacement: string)
    requires |target| > 0 && |replacement| > 0
    requires Disjoint(replacement, target)
    ensures !Contains(ReplaceAll(s, target, replacement), target)
    decreases |s|
  {
    if |s| < |target| {
      assert ReplaceAll(s, target, replacement) == s;
    } else if s[..|target|] == target {
      ReplaceAllRemovesEveryOccurrence(s[|target|..], target, replacement);
      NoOccurrenceAfterReplacement(replacement, ReplaceAll(s[|target|..], target, replacement), target);
    } else {
      ReplaceAllRemovesEveryOccurrence(s[1..], target, replacement);
      assert [s[0]] + s[1..] == s;
      NoOccurrenceAfterCopy(s[0], s[1..], target, replacement);
    }
  }
}
