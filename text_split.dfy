/**
 * Splitting a string on a non-empty separator string, as Foundation's
 * `components(separatedBy:)` does: the text is scanned from the left, each
 * occurrence of the separator ends one component, occurrences do not overlap,
 * and the text after the last occurrence is the final component (so the result
 * is never empty, and an empty text gives one empty component).
 */
module TextSplit {
  import opened Optional

  /** `sep` occurs in `s` starting at index `i`. */
  predicate OccursAt(s: string, sep: string, i: int)
  {
    0 <= i && i + |sep| <= |s| && s[i..i + |sep|] == sep
  }

  /** `s` contains no occurrence of `sep`. */
  predicate Free(s: string, sep: string)
  {
    forall i | 0 <= i <= |s| :: !OccursAt(s, sep, i)
  }

  /**
   * When `p` is followed by `sep`, the first occurrence of `sep` is the one
   * that follows `p`: no occurrence starts inside `p`, not even one that runs
   * on into the separator.
   */
  predicate Unambiguous(p: string, sep: string)
  {
    forall i | 0 <= i < |p| :: !OccursAt(p + sep, sep, i)
  }

  lemma SliceOfSlice(s: string, lo: nat, hi: nat, j: nat, n: nat)
    requires lo <= hi <= |s| && j + n <= hi - lo
    ensures s[lo..hi][j..j + n] == s[lo + j..lo + j + n]
  {
    var a, b := s[lo..hi][j..j + n], s[lo + j..lo + j + n];
    forall k | 0 <= k < n ensures a[k] == b[k] {
      assert a[k] == s[lo..hi][j + k];
    }
  }

  /**
   * An occurrence inside a slice of `s` is an occurrence in `s`, and an
   * occurrence in `s` that lies within the slice is one in the slice.
   */
  lemma OccursInSlice(s: string, sep: string, lo: nat, hi: nat, j: nat)
    requires lo <= hi <= |s|
    ensures OccursAt(s[lo..hi], sep, j) ==> OccursAt(s, sep, lo + j)
    ensures j + |sep| <= hi - lo ==> (OccursAt(s[lo..hi], sep, j) <==> OccursAt(s, sep, lo + j))
  {
    if j + |sep| <= hi - lo {
      SliceOfSlice(s, lo, hi, j, |sep|);
    }
  }

  /** One mismatching character rules out an occurrence at `i`. */
  lemma MismatchAt(s: string, sep: string, i: nat, m: nat)
    requires m < |sep|
    requires i + m < |s| ==> s[i + m] != sep[m]
    ensures !OccursAt(s, sep, i)
  {
    if i + |sep| <= |s| {
      assert s[i..i + |sep|][m] == s[i + m];
    }
  }

  lemma ShiftOccurs(s: string, sep: string, i: nat)
    requires |s| > 0 && 1 <= i
    ensures OccursAt(s, sep, i) <==> OccursAt(s[1..], sep, i - 1)
  {
    if i + |sep| <= |s| {
      SliceOfSlice(s, 1, |s|, i - 1, |sep|);
    }
  }

  /** The index of the first occurrence of `sep` in `s`, if there is one (see IndexOfFirst). */
  function IndexOf(s: string, sep: string): (r: Option<nat>)
    requires |sep| > 0
    ensures r.Some? ==> OccursAt(s, sep, r.value)
    decreases |s|
  {
    if |s| < |sep| then None
    else if s[..|sep|] == sep then Some(0)
    else
      var r := IndexOf(s[1..], sep);
      ShiftOccurs(s, sep, if r.Some? then r.value + 1 else 1);
      match r
      case None => None
      case Some(i) => Some(i + 1)
  }

  /** The occurrence found is the first one, and none is found only in a text free of `sep`. */
  lemma {:induction false} IndexOfFirst(s: string, sep: string)
    requires |sep| > 0
    ensures IndexOf(s, sep).Some? ==> forall j | 0 <= j < IndexOf(s, sep).value :: !OccursAt(s, sep, j)
    ensures IndexOf(s, sep).None? ==> Free(s, sep)
    decreases |s|
  {
    if |s| >= |sep| && s[..|sep|] != sep {
      IndexOfFirst(s[1..], sep);
      forall i | 1 <= i ensures OccursAt(s, sep, i) <==> OccursAt(s[1..], sep, i - 1) {
        ShiftOccurs(s, sep, i);
      }
      assert !OccursAt(s, sep, 0);
    } else if |s| < |sep| {
      forall i | 0 <= i <= |s| ensures !OccursAt(s, sep, i) { }
    }
  }

  /** A text free of the separator has no first occurrence of it. */
  lemma FreeIndexOf(s: string, sep: string)
    requires |sep| > 0 && Free(s, sep)
    ensures IndexOf(s, sep).None?
  {
  }

  /** The components of `s` separated by `sep`. */
  function Components(s: string, sep: string): (parts: seq<string>)
    requires |sep| > 0
    ensures 1 <= |parts|
    decreases |s|
  {
    match IndexOf(s, sep)
    case None => [s]
    case Some(i) => [s[..i]] + Components(s[i + |sep|..], sep)
  }

  /** The inverse direction: `parts` glued together with `sep` between them. */
  function Join(parts: seq<string>, sep: string): (s: string)
    requires 1 <= |parts|
  {
    if |parts| == 1 then parts[0] else parts[0] + sep + Join(parts[1..], sep)
  }

  /** The text before the first occurrence of `sep`, or all of it when there is none. */
  function UpTo(s: string, sep: string): (c: string)
    requires |sep| > 0
    ensures |c| <= |s|
  {
    match IndexOf(s, sep)
    case None => s
    case Some(i) => s[..i]
  }

  /** A text is the part before an occurrence, the separator, and the part after it. */
  lemma SplitAt(s: string, sep: string, i: nat)
    requires OccursAt(s, sep, i)
    ensures s == s[..i] + sep + s[i + |sep|..]
  {
    assert s == s[..i] + s[i..i + |sep|] + s[i + |sep|..];
  }

  /** The first component, and the components of what follows the first occurrence. */
  lemma ComponentsUnfold(s: string, sep: string, i: nat)
    requires |sep| > 0 && IndexOf(s, sep) == Some(i)
    ensures Components(s, sep) == [s[..i]] + Components(s[i + |sep|..], sep)
  {
  }

  /** There is exactly one component when the separator does not occur. */
  lemma SingleComponent(s: string, sep: string)
    requires |sep| > 0
    ensures |Components(s, sep)| == 1 <==> IndexOf(s, sep).None?
  {
    match IndexOf(s, sep)
    case None =>
    case Some(i) => ComponentsUnfold(s, sep, i);
  }

  /**
   * The first component is the text before the first occurrence of the
   * separator, or the whole text when there is none.
   */
  lemma FirstComponent(s: string, sep: string)
    requires |sep| > 0
    ensures var c := Components(s, sep)[0];
      && |c| <= |s| && s[..|c|] == c && Free(c, sep)
      && (IndexOf(s, sep).None? ==> c == s)
      && (IndexOf(s, sep).Some? ==> IndexOf(s, sep).value == |c| && OccursAt(s, sep, |c|))
  {
    ComponentsFree(s, sep);
    match IndexOf(s, sep)
    case None =>
    case Some(i) => ComponentsUnfold(s, sep, i);
  }

  /** `UpTo` is the first component. */
  lemma UpToFirstComponent(s: string, sep: string)
    requires |sep| > 0
    ensures UpTo(s, sep) == Components(s, sep)[0]
  {
    match IndexOf(s, sep)
    case None =>
    case Some(i) => ComponentsUnfold(s, sep, i);
  }

  lemma PrefixOfTail(s: string, sep: string, lo: nat, c: string)
    requires lo <= |s| && |c| <= |s| - lo && s[lo..][..|c|] == c
    requires |c| < |s| - lo ==> OccursAt(s[lo..], sep, |c|)
    ensures s[lo..lo + |c|] == c
    ensures lo + |c| == |s| || OccursAt(s, sep, lo + |c|)
  {
    assert s[lo..] == s[lo..|s|];
    assert s[lo..lo + |c|] == s[lo..][..|c|];
    OccursInSlice(s, sep, lo, |s|, |c|);
  }

  /** The first component of the text after `lo`, located in the whole text. */
  lemma TailComponent(s: string, sep: string, lo: nat)
    requires |sep| > 0 && lo <= |s|
    ensures var c := Components(s[lo..], sep)[0];
      && lo + |c| <= |s| && s[lo..lo + |c|] == c && Free(c, sep)
      && (lo + |c| == |s| || OccursAt(s, sep, lo + |c|))
  {
    FirstComponent(s[lo..], sep);
    var c := Components(s[lo..], sep)[0];
    assert |c| < |s| - lo ==> IndexOf(s[lo..], sep).Some?;
    PrefixOfTail(s, sep, lo, c);
  }

  /** Splitting loses nothing: joining the components gives back the text. */
  lemma {:induction false} JoinComponents(s: string, sep: string)
    requires |sep| > 0
    ensures Join(Components(s, sep), sep) == s
    decreases |s|
  {
    var r := IndexOf(s, sep);
    if r.Some? {
      var i := r.value;
      var rest := s[i + |sep|..];
      var parts := Components(s, sep);
      ComponentsUnfold(s, sep, i);
      assert parts[1..] == Components(rest, sep);
      JoinComponents(rest, sep);
      SplitAt(s, sep, i);
    }
  }

  /** No component contains the separator. */
  lemma {:induction false} ComponentsFree(s: string, sep: string)
    requires |sep| > 0
    ensures forall k | 0 <= k < |Components(s, sep)| :: Free(Components(s, sep)[k], sep)
    decreases |s|
  {
    var r := IndexOf(s, sep);
    IndexOfFirst(s, sep);
    if r.Some? {
      var i := r.value;
      var rest := s[i + |sep|..];
      ComponentsFree(rest, sep);
      assert s[0..i] == s[..i];
      forall j | 0 <= j <= i ensures !OccursAt(s[..i], sep, j) {
        OccursInSlice(s, sep, 0, i, j);
      }
      ComponentsUnfold(s, sep, i);
    }
  }

  /** In `p + sep + rest` the first occurrence is the one after `p`, when `p` is unambiguous. */
  lemma IndexAfterUnambiguous(p: string, rest: string, sep: string)
    requires |sep| > 0 && Unambiguous(p, sep)
    ensures IndexOf(p + sep + rest, sep) == Some(|p|)
    ensures (p + sep + rest)[..|p|] == p && (p + sep + rest)[|p| + |sep|..] == rest
  {
    var s := p + sep + rest;
    assert s[0..|p| + |sep|] == p + sep;
    OccursInSlice(s, sep, 0, |p| + |sep|, |p|);
    assert OccursAt(p + sep, sep, |p|);
    forall j | 0 <= j < |p| ensures !OccursAt(s, sep, j) {
      OccursInSlice(s, sep, 0, |p| + |sep|, j);
    }
    IndexOfFirst(s, sep);
    assert s[..|p|] == p && s[|p| + |sep|..] == rest;
  }

  /** Splitting `p + sep + rest` cuts exactly after `p` when `p` is unambiguous. */
  lemma ComponentsStep(p: string, rest: string, sep: string)
    requires |sep| > 0 && Unambiguous(p, sep)
    ensures Components(p + sep + rest, sep) == [p] + Components(rest, sep)
  {
    IndexAfterUnambiguous(p, rest, sep);
    ComponentsUnfold(p + sep + rest, sep, |p|);
  }

  /** No part hides the separator: every part but the last is unambiguous, the last is free of it. */
  predicate Separable(parts: seq<string>, sep: string)
  {
    && 1 <= |parts|
    && (forall k | 0 <= k < |parts| - 1 :: Unambiguous(parts[k], sep))
    && Free(parts[|parts| - 1], sep)
  }

  /** Joining and then splitting gives back the parts, provided they are separable. */
  lemma {:induction false} ComponentsJoin(parts: seq<string>, sep: string)
    requires |sep| > 0 && Separable(parts, sep)
    ensures Components(Join(parts, sep), sep) == parts
    decreases |parts|
  {
    if |parts| > 1 {
      var tail := parts[1..];
      assert Separable(tail, sep) by {
        assert tail[|tail| - 1] == parts[|parts| - 1];
        forall k | 0 <= k < |tail| - 1 ensures Unambiguous(tail[k], sep) {
          assert tail[k] == parts[k + 1];
        }
      }
      ComponentsJoin(tail, sep);
      assert Join(parts, sep) == parts[0] + sep + Join(tail, sep);
      ComponentsStep(parts[0], Join(tail, sep), sep);
      assert parts == [parts[0]] + tail;
    }
  }

  /** `s` holds no `c`. */
  predicate Lacks(s: string, c: char)
  {
    forall i | 0 <= i < |s| :: s[i] != c
  }

  /**
   * A character of the separator that does not occur in `p`, and does not
   * occur earlier in the separator, makes `p` unambiguous.
   */
  lemma UnambiguousByChar(p: string, sep: string, m: nat)
    requires m < |sep| && Lacks(p, sep[m]) && Lacks(sep[..m], sep[m])
    ensures Unambiguous(p, sep)
  {
    forall i | 0 <= i < |p| ensures !OccursAt(p + sep, sep, i) {
      if i + m < |p| {
        assert (p + sep)[i + m] == p[i + m];
      } else {
        assert (p + sep)[i + m] == sep[..m][i + m - |p|];
      }
      MismatchAt(p + sep, sep, i, m);
    }
  }

  /** A character of the separator that does not occur in `s` makes `s` free of it. */
  lemma FreeByChar(s: string, sep: string, m: nat)
    requires m < |sep| && Lacks(s, sep[m])
    ensures Free(s, sep)
  {
    forall i | 0 <= i <= |s| ensures !OccursAt(s, sep, i) {
      MismatchAt(s, sep, i, m);
    }
  }

  /**
   * Two texts free of the separator stay free of it when concatenated, unless
   * an occurrence straddles the seam; none can when the separator's first
   * character is absent from the tail of `a` where such an occurrence would start.
   */
  lemma FreeAppend(a: string, b: string, sep: string)
    requires 0 < |sep| <= |a| + 1
    requires Free(a, sep) && Free(b, sep)
    requires Lacks(a[|a| + 1 - |sep|..], sep[0])
    ensures Free(a + b, sep)
  {
    var s := a + b;
    assert s[0..|a|] == a && s[|a|..|s|] == b;
    forall i | 0 <= i <= |s| ensures !OccursAt(s, sep, i) {
      if i + |sep| <= |a| {
        OccursInSlice(s, sep, 0, |a|, i);
      } else if i < |a| {
        assert s[i] == a[|a| + 1 - |sep|..][i - (|a| + 1 - |sep|)];
        MismatchAt(s, sep, i, 0);
      } else {
        OccursInSlice(s, sep, |a|, |s|, i - |a|);
      }
    }
  }
}
