/**
  Python's `str.split(sep)`, `sep.join(parts)` and `str.replace(old, new)` on
  strings, for a non-empty separator. The browser uses `replace` twice: to drop
  every "www." from a host name and to substitute the typed text for "%s" in
  the search-engine template. Python defines `s.replace(old, new)` to equal
  `new.join(s.split(old))`, and so does this module.
*/
module Text {

  /** `pat` occurs in `s` starting at index `j`. */
  predicate OccursAt(s: string, j: int, pat: string) {
    0 <= j && j + |pat| <= |s| && s[j..j + |pat|] == pat
  }

  /**
    No occurrence of `sep` starts inside `part` when `part` is followed by
    `follow`: scanning left to right, the first match is not inside `part`.
  */
  predicate Clean(part: string, follow: string, sep: string) {
    forall j :: 0 <= j < |part| ==> !OccursAt(part + follow, j, sep)
  }

  /**
    `parts` is the leftmost, non-overlapping way of cutting a string at `sep`:
    every piece but the last is followed by a separator that is the first
    match after it, and the last piece holds no match at all.
  */
  predicate LeftmostSplit(parts: seq<string>, sep: string) {
    && |parts| > 0
    && (forall i :: 0 <= i < |parts| - 1 ==> Clean(parts[i], sep, sep))
    && Clean(parts[|parts| - 1], "", sep)
  }

  /** Python's `sep.join(parts)`: the first piece starts it, followed by `sep` when more come. */
  function Join(parts: seq<string>, sep: string): (r: string)
    ensures |parts| > 0 ==> parts[0] <= r
    ensures |parts| > 1 ==> parts[0] + sep <= r
  {
    if |parts| == 0 then ""
    else if |parts| == 1 then parts[0]
    else parts[0] + sep + Join(parts[1..], sep)
  }

  /** Python's `s.split(sep)` for a non-empty `sep`. */
  function Split(s: string, sep: string): (parts: seq<string>)
    requires |sep| > 0
    ensures |parts| > 0
    decreases |s|
  {
    if |s| < |sep| then [s]
    else if s[..|sep|] == sep then [""] + Split(s[|sep|..], sep)
    else
      var rest := Split(s[1..], sep);
      [[s[0]] + rest[0]] + rest[1..]
  }

  /** Python's `s.replace(target, replacement)` for a non-empty `target`. */
  function Replace(s: string, target: string, replacement: string): (r: string)
    requires |target| > 0
    ensures replacement == target ==> r == s
  {
    SplitJoin(s, target);
    Join(Split(s, target), replacement)
  }

  // ---------------------------------------------------------------------------
  // Helpers about Join and about where a match can start.

  lemma JoinCons(x: string, parts: seq<string>, sep: string)
    requires |parts| > 0
    ensures Join([x] + parts, sep) == x + sep + Join(parts, sep)
  {
    assert ([x] + parts)[1..] == parts;
  }

  lemma JoinPrefixFirst(x: string, parts: seq<string>, sep: string)
    requires |parts| > 0
    ensures Join([x + parts[0]] + parts[1..], sep) == x + Join(parts, sep)
  {
    if |parts| > 1 {
      JoinCons(x + parts[0], parts[1..], sep);
    }
  }

  lemma OccursShift(c: char, t: string, j: int, sep: string)
    requires j >= 1
    ensures OccursAt([c] + t, j, sep) <==> OccursAt(t, j - 1, sep)
  {
    if j + |sep| <= |[c] + t| {
      assert ([c] + t)[j..j + |sep|] == t[j - 1..j - 1 + |sep|];
    }
  }

  lemma OccursAtStartOfPrefix(t: string, u: string, sep: string)
    requires OccursAt(t, 0, sep)
    ensures OccursAt(t + u, 0, sep)
  {
    assert (t + u)[..|sep|] == t[..|sep|];
  }

  // ---------------------------------------------------------------------------
  // Split is the leftmost cut, and Join undoes it.

  /** Joining the pieces back with the same separator gives the string back. */
  lemma {:induction false} SplitJoin(s: string, sep: string)
    requires |sep| > 0
    ensures Join(Split(s, sep), sep) == s
    decreases |s|
  {
    if |s| < |sep| {
    } else if s[..|sep|] == sep {
      var p := Split(s[|sep|..], sep);
      assert Split(s, sep) == [""] + p;
      SplitJoin(s[|sep|..], sep);
      JoinCons("", p, sep);
      assert s == s[..|sep|] + s[|sep|..];
    } else {
      var rest := Split(s[1..], sep);
      assert Split(s, sep) == [[s[0]] + rest[0]] + rest[1..];
      SplitJoin(s[1..], sep);
      JoinPrefixFirst([s[0]], rest, sep);
      assert s == [s[0]] + s[1..];
    }
  }

  /** Split cuts at the leftmost non-overlapping matches, and nowhere else. */
  lemma {:induction false} SplitIsLeftmost(s: string, sep: string)
    requires |sep| > 0
    ensures LeftmostSplit(Split(s, sep), sep)
    decreases |s|
  {
    if |s| < |sep| {
    } else if s[..|sep|] == sep {
      var p := Split(s[|sep|..], sep);
      SplitIsLeftmost(s[|sep|..], sep);
      assert Split(s, sep) == [""] + p;
      LeftmostAfterSeparator(p, sep);
    } else {
      var rest := Split(s[1..], sep);
      SplitIsLeftmost(s[1..], sep);
      SplitJoin(s[1..], sep);
      assert Split(s, sep) == [[s[0]] + rest[0]] + rest[1..];
      assert s == [s[0]] + s[1..];
      LeftmostAfterChar(s, rest, sep);
    }
  }

  /** The step of `SplitIsLeftmost` where `s` starts with `sep`: an empty first piece. */
  lemma LeftmostAfterSeparator(p: seq<string>, sep: string)
    requires |sep| > 0 && LeftmostSplit(p, sep)
    ensures LeftmostSplit([""] + p, sep)
  {
    var parts := [""] + p;
    forall i | 1 <= i < |parts|
      ensures parts[i] == p[i - 1]
    {
    }
  }

  /**
    The step of `SplitIsLeftmost` where `s` does not start with `sep`: its
    first character joins the first piece of the rest.
  */
  lemma LeftmostAfterChar(s: string, rest: seq<string>, sep: string)
    requires |sep| > 0 && |s| >= |sep| && s[..|sep|] != sep
    requires LeftmostSplit(rest, sep) && s == [s[0]] + Join(rest, sep)
    ensures LeftmostSplit([[s[0]] + rest[0]] + rest[1..], sep)
  {
    var parts := [[s[0]] + rest[0]] + rest[1..];
    var follow := if |rest| > 1 then sep else "";
    var tail := Join(rest[1..], sep);
    assert Join(rest, sep) == rest[0] + follow + tail by {
      if |rest| > 1 {
        JoinCons(rest[0], rest[1..], sep);
      }
    }
    FirstPieceIsClean(s, s[0], rest[0], follow, tail, sep);
    if |rest| == 1 {
      assert parts == [[s[0]] + rest[0]];
    } else {
      forall i | 1 <= i < |parts|
        ensures parts[i] == rest[i]
      {
      }
      assert parts[|parts| - 1] == rest[|rest| - 1];
    }
  }

  /**
    The step of `SplitIsLeftmost` where `s` does not start with `sep`: adding
    the first character of `s` in front of a clean piece keeps it clean.
  */
  lemma FirstPieceIsClean(s: string, c: char, piece: string, follow: string, tail: string, sep: string)
    requires |sep| > 0 && |s| >= |sep| && s[..|sep|] != sep
    requires s == [c] + (piece + follow + tail)
    requires Clean(piece, follow, sep)
    ensures Clean([c] + piece, follow, sep)
  {
    var t := [c] + piece + follow;
    assert t == [c] + (piece + follow);
    assert s == t + tail;
    forall j | 0 <= j < |[c] + piece|
      ensures !OccursAt(t, j, sep)
    {
      if j == 0 {
        if OccursAt(t, 0, sep) {
          OccursAtStartOfPrefix(t, tail, sep);
          assert false;
        }
      } else {
        OccursShift(c, piece + follow, j, sep);
      }
    }
    assert ([c] + piece) + follow == t;
  }

  /** A string with no match is not cut at all. */
  lemma {:induction false} SplitWithoutMatch(s: string, sep: string)
    requires |sep| > 0
    requires Clean(s, "", sep)
    ensures Split(s, sep) == [s]
    decreases |s|
  {
    if |s| >= |sep| {
      assert s + "" == s;
      assert !OccursAt(s, 0, sep);
      assert s[1..] + "" == s[1..];
      forall j | 0 <= j < |s[1..]|
        ensures !OccursAt(s[1..], j, sep)
      {
        assert s == [s[0]] + s[1..];
        OccursShift(s[0], s[1..], j + 1, sep);
      }
      SplitWithoutMatch(s[1..], sep);
      assert s == [s[0]] + s[1..];
    }
  }

  /** A leading piece with no earlier match is split off at its first separator. */
  lemma {:induction false} SplitAfterClean(a: string, b: string, sep: string)
    requires |sep| > 0
    requires Clean(a, sep, sep)
    ensures Split(a + sep + b, sep) == [a] + Split(b, sep)
    decreases |a|
  {
    var s := a + sep + b;
    if |a| == 0 {
      assert s == sep + b;
      assert s[..|sep|] == sep;
      assert s[|sep|..] == b;
    } else {
      assert !OccursAt(a + sep, 0, sep);
      assert s[..|sep|] == (a + sep)[..|sep|];
      assert s[..|sep|] != sep;
      forall j | 0 <= j < |a[1..]|
        ensures !OccursAt(a[1..] + sep, j, sep)
      {
        assert a + sep == [a[0]] + (a[1..] + sep);
        OccursShift(a[0], a[1..] + sep, j + 1, sep);
      }
      SplitAfterClean(a[1..], b, sep);
      assert s[1..] == a[1..] + sep + b;
      assert a == [a[0]] + a[1..];
    }
  }

  /** The leftmost cut is the only one: Split is fully characterised by it. */
  lemma {:induction false} LeftmostSplitIsSplit(parts: seq<string>, s: string, sep: string)
    requires |sep| > 0
    requires LeftmostSplit(parts, sep) && Join(parts, sep) == s
    ensures Split(s, sep) == parts
    decreases |parts|
  {
    if |parts| == 1 {
      SplitWithoutMatch(s, sep);
    } else {
      var tail := parts[1..];
      assert LeftmostSplit(tail, sep) by {
        forall i | 0 <= i < |tail| - 1
          ensures Clean(tail[i], sep, sep)
        {
          assert tail[i] == parts[i + 1];
        }
      }
      LeftmostSplitIsSplit(tail, Join(tail, sep), sep);
      SplitAfterClean(parts[0], Join(tail, sep), sep);
      assert parts == [parts[0]] + tail;
    }
  }

  // ---------------------------------------------------------------------------
  // Replace

  /** Replacing in a string that holds no match changes nothing. */
  lemma ReplaceWithoutMatch(s: string, target: string, replacement: string)
    requires |target| > 0
    requires Clean(s, "", target)
    ensures Replace(s, target, replacement) == s
  {
    SplitWithoutMatch(s, target);
  }

  /**
    A leading piece with no earlier match is kept, its first separator
    becomes `replacement`, and the rest is replaced on its own.
  */
  lemma ReplaceAfterClean(a: string, b: string, target: string, replacement: string)
    requires |target| > 0
    requires Clean(a, target, target)
    ensures Replace(a + target + b, target, replacement) == a + replacement + Replace(b, target, replacement)
  {
    SplitAfterClean(a, b, target);
    JoinCons(a, Split(b, target), replacement);
  }

  /** A piece that lacks the separator's first character cannot hold a match. */
  lemma CleanWithoutFirstChar(a: string, follow: string, sep: string)
    requires |sep| > 0 && sep[0] !in a
    ensures Clean(a, follow, sep)
  {
    forall j | 0 <= j < |a|
      ensures !OccursAt(a + follow, j, sep)
    {
      assert (a + follow)[j] == a[j];
      if j + |sep| <= |a + follow| {
        assert (a + follow)[j..j + |sep|][0] == a[j];
      }
    }
  }

  lemma {:induction false} JoinEmptyIsShorter(parts: seq<string>, sep: string)
    ensures |Join(parts, "")| <= |Join(parts, sep)|
    decreases |parts|
  {
    if |parts| > 1 {
      JoinEmptyIsShorter(parts[1..], sep);
    }
  }

  /** Deleting every match never makes a string longer. */
  lemma DeletionShrinks(s: string, target: string)
    requires |target| > 0
    ensures |Replace(s, target, "")| <= |s|
  {
    SplitJoin(s, target);
    JoinEmptyIsShorter(Split(s, target), target);
  }
}
