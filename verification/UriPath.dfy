/** In-place removal of dot segments from the path of a URI, against section 5.2.4 of RFC 3986. */
module UriPath {
  import opened BigIntBytes

  const DOT: byte := 0x2E
  const SLASH: byte := 0x2F

  predicate IsDotSegment(s: Bytes) {
    s == [DOT] || s == [DOT, DOT]
  }

  // The number of bytes in front of the first slash, or all of them.
  function SegmentLength(r: Bytes): (n: nat)
    ensures n <= |r| && SLASH !in r[..n] && (n < |r| ==> r[n] == SLASH)
  {
    if r == [] || r[0] == SLASH then 0 else 1 + SegmentLength(r[1..])
  }

  // The place behind the last slash.
  function LastSlash(s: Bytes): (k: nat)
    ensures k <= |s| && SLASH !in s[k..] && (k > 0 ==> s[k - 1] == SLASH)
  {
    if s == [] then 0
    else if s[|s| - 1] == SLASH then |s|
    else LastSlash(s[..|s| - 1])
  }

  // ---------------------------------------------------------------------------
  // The five rules of the RFC.

  predicate Begins(s: Bytes, prefix: Bytes) {
    |prefix| <= |s| && s[..|prefix|] == prefix
  }

  // Without the last segment and the slash in front of it, if there is one.
  function WithoutLast(output: Bytes): Bytes {
    if LastSlash(output) == 0 then [] else output[..LastSlash(output) - 1]
  }

  // The first segment, with the slash in front of it, if there is one.
  function FirstLength(input: Bytes): (n: nat)
    requires input != []
    ensures 0 < n <= |input|
  {
    if input[0] == SLASH then 1 + SegmentLength(input[1..]) else SegmentLength(input)
  }

  function RemoveDotSegments(input: Bytes, output: Bytes): Bytes
    decreases |input|
  {
    if input == [] then output
    else if Begins(input, [DOT, DOT, SLASH]) then RemoveDotSegments(input[3..], output)
    else if Begins(input, [DOT, SLASH]) then RemoveDotSegments(input[2..], output)
    else if Begins(input, [SLASH, DOT, SLASH]) then RemoveDotSegments(input[2..], output)
    else if input == [SLASH, DOT] then RemoveDotSegments([SLASH], output)
    else if Begins(input, [SLASH, DOT, DOT, SLASH]) then RemoveDotSegments(input[3..], WithoutLast(output))
    else if input == [SLASH, DOT, DOT] then RemoveDotSegments([SLASH], WithoutLast(output))
    else if IsDotSegment(input) then output
    else
      var n := FirstLength(input);
      RemoveDotSegments(input[n..], output + input[..n])
  }

  // ---------------------------------------------------------------------------
  // What the loop over the buffer does: `path` is what it has written, r what it has not read.

  function NewPath(path: Bytes, segment: Bytes, slash: Bytes): Bytes {
    if segment == [DOT, DOT] then if |path| > 1 then path[..LastSlash(path[..|path| - 1])] else path
    else if segment == [DOT] then path
    else path + segment + slash
  }

  function Removed(path: Bytes, r: Bytes): Bytes
    decreases |r|
  {
    if r == [] then path
    else
      var n := SegmentLength(r);
      if n == |r| then NewPath(path, r, []) else Removed(NewPath(path, r[..n], [SLASH]), r[n + 1..])
  }

  // ---------------------------------------------------------------------------
  // The loop computes the function of the RFC for every path that begins with a slash.

  // Nothing written yet, or something that begins with a slash.
  predicate Rooted(output: Bytes) {
    output == [] || output[0] == SLASH
  }

  lemma {:induction false} RootedHasSlash(output: Bytes)
    requires Rooted(output)
    ensures output != [] ==> LastSlash(output) > 0
    ensures Rooted(WithoutLast(output))
  {
    if output != [] {
      assert output[0] in output;
    }
  }

  // Backing up over the last segment, with the slash that the loop keeps at the end.
  lemma BackedUp(output: Bytes)
    requires Rooted(output)
    ensures NewPath(output + [SLASH], [DOT, DOT], [SLASH]) == WithoutLast(output) + [SLASH]
    ensures NewPath(output + [SLASH], [DOT, DOT], []) == WithoutLast(output) + [SLASH]
  {
    RootedHasSlash(output);
    var path := output + [SLASH];
    assert path[..|path| - 1] == output;
    if output != [] {
      var k := LastSlash(output);
      assert path[..k] == output[..k - 1] + [SLASH];
    }
  }

  // The tests of the RFC behind a slash, as tests of the bytes there and then of the segment there.
  lemma DotTest(r: Bytes)
    ensures Begins([SLASH] + r, [SLASH, DOT, SLASH]) <==> |r| >= 2 && r[0] == DOT && r[1] == SLASH
  {
    var input := [SLASH] + r;
    if Begins(input, [SLASH, DOT, SLASH]) {
      assert input[1] == input[..3][1] && input[2] == input[..3][2];
    }
  }

  lemma DotDotTest(r: Bytes)
    ensures Begins([SLASH] + r, [SLASH, DOT, DOT, SLASH]) <==>
            |r| >= 3 && r[0] == DOT && r[1] == DOT && r[2] == SLASH
  {
    var input := [SLASH] + r;
    if Begins(input, [SLASH, DOT, DOT, SLASH]) {
      assert input[1] == input[..4][1] && input[2] == input[..4][2] && input[3] == input[..4][3];
    }
  }

  lemma WholeTests(r: Bytes)
    ensures var input := [SLASH] + r;
            && (input == [SLASH, DOT] <==> r == [DOT]) && (input == [SLASH, DOT, DOT] <==> r == [DOT, DOT])
            && !Begins(input, [DOT, DOT, SLASH]) && !Begins(input, [DOT, SLASH]) && !IsDotSegment(input)
  {
    var input := [SLASH] + r;
    assert input[1..] == r && input[0] == SLASH;
    if r == [DOT] { assert input == [SLASH, DOT]; }
    if r == [DOT, DOT] { assert input == [SLASH, DOT, DOT]; }
  }

  lemma PrefixTests(r: Bytes)
    ensures var n, input := SegmentLength(r), [SLASH] + r;
            && (Begins(input, [SLASH, DOT, SLASH]) <==> n < |r| && r[..n] == [DOT])
            && (Begins(input, [SLASH, DOT, DOT, SLASH]) <==> n < |r| && r[..n] == [DOT, DOT])
            && (input == [SLASH, DOT] <==> r == [DOT]) && (input == [SLASH, DOT, DOT] <==> r == [DOT, DOT])
            && !Begins(input, [DOT, DOT, SLASH]) && !Begins(input, [DOT, SLASH]) && !IsDotSegment(input)
  {
    DotTest(r);
    DotDotTest(r);
    ShortSegments(r);
    WholeTests(r);
  }

  lemma ShortSegments(r: Bytes)
    ensures var n := SegmentLength(r);
            && (n < |r| && r[..n] == [DOT] <==> |r| >= 2 && r[0] == DOT && r[1] == SLASH)
            && (n < |r| && r[..n] == [DOT, DOT] <==> |r| >= 3 && r[0] == DOT && r[1] == DOT && r[2] == SLASH)
  {
    var n := SegmentLength(r);
    if |r| >= 2 && r[0] == DOT && r[1] == SLASH {
      assert SegmentLength(r[1..]) == 0;
      assert r[..1] == [DOT];
    }
    if |r| >= 3 && r[0] == DOT && r[1] == DOT && r[2] == SLASH {
      assert r[1..][1..] == r[2..] && SegmentLength(r[2..]) == 0 && SegmentLength(r[1..]) == 1;
      assert r[..2] == [DOT, DOT];
    }
    if n < |r| && r[..n] == [DOT] { assert r[0] == r[..n][0]; }
    if n < |r| && r[..n] == [DOT, DOT] { assert r[0] == r[..n][0] && r[1] == r[..n][1]; }
  }

  // One step of the RFC on a segment behind a slash, by the kind of segment.
  lemma RuleForLastDots(r: Bytes, output: Bytes)
    requires IsDotSegment(r)
    ensures RemoveDotSegments([SLASH] + r, output) ==
            RemoveDotSegments([SLASH], if |r| == 1 then output else WithoutLast(output))
  {
    PrefixTests(r);
    assert SegmentLength(r) == |r|;
  }

  lemma RuleForInnerDots(r: Bytes, output: Bytes)
    requires SegmentLength(r) < |r| && IsDotSegment(r[..SegmentLength(r)])
    ensures var n := SegmentLength(r);
            RemoveDotSegments([SLASH] + r, output) ==
            RemoveDotSegments(r[n..], if n == 1 then output else WithoutLast(output))
  {
    var n, input := SegmentLength(r), [SLASH] + r;
    PrefixTests(r);
    assert input[1..] == r;
    assert input[1..][n..] == input[n + 1..];
  }

  lemma RuleForOthers(r: Bytes, output: Bytes)
    requires !IsDotSegment(r[..SegmentLength(r)])
    ensures var n := SegmentLength(r);
            RemoveDotSegments([SLASH] + r, output) == RemoveDotSegments(r[n..], output + ([SLASH] + r[..n]))
  {
    var n, input := SegmentLength(r), [SLASH] + r;
    PrefixTests(r);
    if n == |r| { assert r[..n] == r; }
    assert input[1..] == r;
    assert FirstLength(input) == n + 1;
    assert input[n + 1..] == r[n..] && input[..n + 1] == [SLASH] + r[..n];
  }

  // The loop and the RFC on the last segment.
  lemma LastSegment(output: Bytes, r: Bytes)
    requires Rooted(output) && SLASH !in r
    ensures NewPath(output + [SLASH], r, []) == RemoveDotSegments([SLASH] + r, output)
  {
    assert SegmentLength(r) == |r| && r[..|r|] == r && r[|r|..] == [];
    if IsDotSegment(r) {
      LastDots(output, r);
    } else {
      RuleForOthers(r, output);
      assert output + [SLASH] + r + [] == output + ([SLASH] + r);
    }
  }

  lemma LastDots(output: Bytes, r: Bytes)
    requires Rooted(output) && IsDotSegment(r)
    ensures NewPath(output + [SLASH], r, []) == RemoveDotSegments([SLASH] + r, output)
  {
    RuleForLastDots(r, output);
    OnlySlash(output);
    OnlySlash(WithoutLast(output));
    BackedUp(output);
  }

  lemma OnlySlash(output: Bytes)
    ensures RemoveDotSegments([SLASH], output) == output + [SLASH]
  {
    assert FirstLength([SLASH]) == 1 && [SLASH][..1] == [SLASH] && [SLASH][1..] == [];
  }

  // The output of the RFC behind a segment that has another one behind it.
  function OutputAfter(output: Bytes, segment: Bytes): Bytes {
    if segment == [DOT] then output
    else if segment == [DOT, DOT] then WithoutLast(output)
    else output + ([SLASH] + segment)
  }

  // The loop's path is that output with a slash.
  lemma PathAfter(output: Bytes, segment: Bytes)
    requires Rooted(output)
    ensures Rooted(OutputAfter(output, segment))
    ensures NewPath(output + [SLASH], segment, [SLASH]) == OutputAfter(output, segment) + [SLASH]
  {
    RootedHasSlash(output);
    if segment == [DOT, DOT] {
      BackedUp(output);
    } else if segment != [DOT] {
      assert (output + [SLASH]) + segment + [SLASH] == (output + ([SLASH] + segment)) + [SLASH];
    }
  }

  lemma RuleAfter(output: Bytes, segment: Bytes, rest: Bytes)
    requires SLASH !in segment
    ensures RemoveDotSegments([SLASH] + (segment + ([SLASH] + rest)), output) ==
            RemoveDotSegments([SLASH] + rest, OutputAfter(output, segment))
  {
    var r := segment + ([SLASH] + rest);
    SegmentOf(segment, rest);
    if IsDotSegment(segment) {
      RuleForInnerDots(r, output);
    } else {
      RuleForOthers(r, output);
    }
  }

  lemma {:induction false} SegmentOf(segment: Bytes, rest: Bytes)
    requires SLASH !in segment
    ensures var r := segment + ([SLASH] + rest);
            SegmentLength(r) == |segment| && r[..|segment|] == segment && r[|segment|..] == [SLASH] + rest
            && r[|segment| + 1..] == rest
  {
    if segment != [] {
      assert (segment + ([SLASH] + rest))[1..] == segment[1..] + ([SLASH] + rest);
      SegmentOf(segment[1..], rest);
    }
  }

  lemma {:induction false} LoopFollowsRfc(output: Bytes, r: Bytes)
    requires Rooted(output)
    ensures Removed(output + [SLASH], r) == RemoveDotSegments([SLASH] + r, output)
    decreases |r|
  {
    var n := SegmentLength(r);
    if n == |r| {
      assert r[..n] == r;
      LastSegment(output, r);
      if r == [] {
        OnlySlash(output);
        assert [SLASH] + r == [SLASH];
      }
    } else {
      assert r == r[..n] + ([SLASH] + r[n + 1..]);
      PathAfter(output, r[..n]);
      RuleAfter(output, r[..n], r[n + 1..]);
      LoopFollowsRfc(OutputAfter(output, r[..n]), r[n + 1..]);
    }
  }

  /** For every path that begins with a slash the loop computes remove_dot_segments. */
  lemma AbsolutePaths(path: Bytes)
    requires path != [] && path[0] == SLASH
    ensures Removed([], path) == RemoveDotSegments(path, [])
  {
    assert path == [SLASH] + path[1..];
    assert SegmentLength(path) == 0;
    if |path| > 0 {
      assert NewPath([], path[..0], [SLASH]) == [] + [SLASH];
      LoopFollowsRfc([], path[1..]);
    }
  }

  // ---------------------------------------------------------------------------
  // No dot segment is left, and so a second pass changes nothing.

  // path[i..j] is a whole segment.
  predicate SegmentAt(path: Bytes, i: nat, j: nat) {
    && i <= j <= |path|
    && (i == 0 || path[i - 1] == SLASH) && (j == |path| || path[j] == SLASH)
    && SLASH !in path[i..j]
  }

  ghost predicate NoDotSegments(path: Bytes) {
    forall i: nat, j: nat | SegmentAt(path, i, j) :: !IsDotSegment(path[i..j])
  }

  // What the loop has written while segments are left: nothing, or whole segments with their slashes.
  predicate Whole(path: Bytes) {
    path == [] || path[|path| - 1] == SLASH
  }

  lemma SegmentAppended(path: Bytes, segment: Bytes)
    requires Whole(path) && NoDotSegments(path) && SLASH !in segment && !IsDotSegment(segment)
    ensures NoDotSegments(path + segment)
  {
    var longer := path + segment;
    forall i: nat, j: nat | SegmentAt(longer, i, j) ensures !IsDotSegment(longer[i..j]) {
      if i < |path| {
        assert longer[|path| - 1] == SLASH;
        assert j < |path|;
        assert longer[i..j] == path[i..j];
        assert SegmentAt(path, i, j);
      } else {
        assert forall k | |path| <= k < |longer| :: longer[k] == segment[k - |path|];
        assert i == |path| && j == |longer|;
        assert longer[i..j] == segment;
      }
    }
  }

  lemma SlashAppended(path: Bytes)
    requires NoDotSegments(path)
    ensures NoDotSegments(path + [SLASH])
  {
    var longer := path + [SLASH];
    forall i: nat, j: nat | SegmentAt(longer, i, j) ensures !IsDotSegment(longer[i..j]) {
      if j <= |path| {
        assert longer[i..j] == path[i..j];
        assert SegmentAt(path, i, j);
      } else {
        assert longer[|path|] == SLASH;
        assert i == j;
      }
    }
  }

  lemma Truncated(path: Bytes, k: nat)
    requires NoDotSegments(path) && k <= |path| && (k == 0 || path[k - 1] == SLASH)
    ensures NoDotSegments(path[..k]) && Whole(path[..k])
  {
    var shorter := path[..k];
    forall i: nat, j: nat | SegmentAt(shorter, i, j) ensures !IsDotSegment(shorter[i..j]) {
      if j < k {
        assert shorter[i..j] == path[i..j];
        assert SegmentAt(path, i, j);
      } else {
        assert k == 0 || shorter[k - 1] == SLASH;
        assert i == j;
      }
    }
  }

  lemma NewPathClean(path: Bytes, segment: Bytes, slash: Bytes)
    requires Whole(path) && NoDotSegments(path) && SLASH !in segment && (slash == [SLASH] || slash == [])
    ensures NoDotSegments(NewPath(path, segment, slash))
    ensures slash != [] ==> Whole(NewPath(path, segment, slash))
  {
    if segment == [DOT, DOT] {
      if |path| > 1 {
        var k := LastSlash(path[..|path| - 1]);
        assert k == 0 || path[k - 1] == path[..|path| - 1][k - 1];
        Truncated(path, k);
      }
    } else if segment != [DOT] {
      SegmentAppended(path, segment);
      if slash == [] {
        assert path + segment + [] == path + segment;
      } else {
        SlashAppended(path + segment);
      }
    }
  }

  lemma {:induction false} RemovedClean(path: Bytes, r: Bytes)
    requires Whole(path) && NoDotSegments(path)
    ensures NoDotSegments(Removed(path, r))
    decreases |r|
  {
    if r != [] {
      var n := SegmentLength(r);
      if n == |r| {
        assert r[..n] == r;
        NewPathClean(path, r, []);
      } else {
        NewPathClean(path, r[..n], [SLASH]);
        RemovedClean(NewPath(path, r[..n], [SLASH]), r[n + 1..]);
      }
    }
  }

  // A path without dot segments is copied as it is.
  lemma {:induction false} CleanKept(path: Bytes, r: Bytes)
    requires Whole(path) && NoDotSegments(path + r)
    ensures Removed(path, r) == path + r
    decreases |r|
  {
    if r == [] {
      assert path + r == path;
    } else {
      var n := SegmentLength(r);
      var segment, all := r[..n], path + r;
      assert all[|path|..|path| + n] == segment;
      assert |path| == 0 || all[|path| - 1] == path[|path| - 1];
      assert SegmentAt(all, |path|, |path| + n);
      if n == |r| {
        assert segment == r && path + r + [] == path + r;
      } else {
        assert (path + segment + [SLASH]) + r[n + 1..] == all;
        CleanKept(path + segment + [SLASH], r[n + 1..]);
      }
    }
  }

  /** No dot segment is left in any path, and a second pass changes nothing. */
  lemma NoneLeft(path: Bytes)
    ensures NoDotSegments(Removed([], path))
    ensures Removed([], Removed([], path)) == Removed([], path)
  {
    RemovedClean([], path);
    var once := Removed([], path);
    assert [] + once == once;
    CleanKept([], once);
  }

  // ---------------------------------------------------------------------------
  // Paths that do not begin with a slash.

  // No slash at the start, and no two in a row.
  predicate NoEmptySegments(r: Bytes) {
    forall i | 0 <= i < |r| && r[i] == SLASH :: i > 0 && r[i - 1] != SLASH
  }

  lemma {:induction false} LastSlashBehind(s: Bytes)
    ensures LastSlash([SLASH] + s) == 1 + LastSlash(s)
  {
    if s == [] {
      assert [SLASH] + s == [SLASH];
    } else {
      assert ([SLASH] + s)[..|s|] == [SLASH] + s[..|s| - 1];
      LastSlashBehind(s[..|s| - 1]);
    }
  }

  lemma NewPathBehind(path: Bytes, segment: Bytes, slash: Bytes)
    requires |path| != 1
    ensures NewPath([SLASH] + path, segment, slash) == [SLASH] + NewPath(path, segment, slash)
  {
    var longer := [SLASH] + path;
    if segment == [DOT, DOT] {
      if path != [] {
        assert longer[..|path|] == [SLASH] + path[..|path| - 1];
        LastSlashBehind(path[..|path| - 1]);
        var k := LastSlash(path[..|path| - 1]);
        assert longer[..k + 1] == [SLASH] + path[..k];
      }
    } else if segment != [DOT] {
      assert longer + segment + slash == [SLASH] + (path + segment + slash);
    }
  }

  // A path that is written has no slash at its front or next to another.
  lemma {:induction false} RelativeLoop(path: Bytes, r: Bytes)
    requires Whole(path) && NoEmptySegments(path) && NoEmptySegments(r)
    ensures Removed([SLASH] + path, r) == [SLASH] + Removed(path, r)
    decreases |r|
  {
    if r != [] {
      var n := SegmentLength(r);
      assert |path| != 1;
      if n == |r| {
        NewPathBehind(path, r, []);
      } else {
        var next := NewPath(path, r[..n], [SLASH]);
        NewPathBehind(path, r[..n], [SLASH]);
        RelativeRest(r);
        NextRelative(path, r[..n]);
        RelativeLoop(next, r[n + 1..]);
      }
    }
  }

  lemma RelativePrefix(path: Bytes, k: nat)
    requires NoEmptySegments(path) && k <= |path| && (k == 0 || path[k - 1] == SLASH)
    ensures Whole(path[..k]) && NoEmptySegments(path[..k])
  {
  }

  lemma RelativeAppend(path: Bytes, segment: Bytes)
    requires Whole(path) && NoEmptySegments(path) && segment != [] && SLASH !in segment
    ensures Whole(path + segment + [SLASH]) && NoEmptySegments(path + segment + [SLASH])
  {
    var next := path + segment + [SLASH];
    forall i | 0 <= i < |next| && next[i] == SLASH ensures i > 0 && next[i - 1] != SLASH {
      if i < |path| {
        assert next[i] == path[i];
      } else {
        assert forall k | |path| <= k < |path| + |segment| :: next[k] == segment[k - |path|];
        assert i == |next| - 1 && next[i - 1] == segment[|segment| - 1];
      }
    }
  }

  lemma RelativeRest(r: Bytes)
    requires NoEmptySegments(r) && SegmentLength(r) < |r|
    ensures SegmentLength(r) > 0 && NoEmptySegments(r[SegmentLength(r) + 1..])
  {
    var n := SegmentLength(r);
    var rest := r[n + 1..];
    assert r[n] == SLASH;
    forall i | 0 <= i < |rest| && rest[i] == SLASH ensures i > 0 && rest[i - 1] != SLASH {
      assert r[n + 1 + i] == SLASH && r[n + i] != SLASH;
    }
  }

  lemma RelativeBack(path: Bytes)
    requires Whole(path) && NoEmptySegments(path) && |path| > 1
    ensures var k := LastSlash(path[..|path| - 1]);
            k <= |path| && Whole(path[..k]) && NoEmptySegments(path[..k])
  {
    var k := LastSlash(path[..|path| - 1]);
    assert k == 0 || path[k - 1] == path[..|path| - 1][k - 1];
    RelativePrefix(path, k);
  }

  lemma NextRelative(path: Bytes, segment: Bytes)
    requires Whole(path) && NoEmptySegments(path) && segment != [] && SLASH !in segment
    ensures var next := NewPath(path, segment, [SLASH]);
            Whole(next) && NoEmptySegments(next)
  {
    if segment == [DOT, DOT] {
      if |path| > 1 { RelativeBack(path); }
    } else if segment != [DOT] {
      RelativeAppend(path, segment);
    }
  }

  /** A path that does not begin with a slash and has no empty segments is treated as if it did begin
      with one, which is then taken off again. */
  lemma RelativePaths(path: Bytes)
    requires NoEmptySegments(path)
    ensures [SLASH] + Removed([], path) == RemoveDotSegments([SLASH] + path, [])
  {
    RelativeLoop([], path);
    LoopFollowsRfc([], path);
    assert [] + [SLASH] == [SLASH] + [] == [SLASH];
  }

  /** There it differs from the RFC: of a/../b the loop leaves b, the RFC /b. */
  lemma RelativePathsDiffer()
    ensures var path: Bytes := [0x61, SLASH, DOT, DOT, SLASH, 0x62];
            Removed([], path) == [0x62] && RemoveDotSegments(path, []) == [SLASH, 0x62]
  {
    LoopOnExample();
    RfcOnExample();
  }

  lemma LoopOnExample()
    ensures Removed([], [0x61, SLASH, DOT, DOT, SLASH, 0x62]) == [0x62]
  {
    var tail, b: Bytes := [DOT, DOT, SLASH, 0x62], [0x62];
    SegmentOf([0x61], tail);
    assert [0x61, SLASH, DOT, DOT, SLASH, 0x62] == [0x61] + ([SLASH] + tail);
    SegmentOf([DOT, DOT], b);
    assert tail == [DOT, DOT] + ([SLASH] + b);
    assert b[1..] == [] && SegmentLength(b) == 1;
    var path: Bytes := [0x61, SLASH];
    assert [] + [0x61] + [SLASH] == path && path[..1] == [0x61];
    assert Removed(path, tail) == Removed([], b);
    assert Removed([], b) == b;
  }

  lemma FirstOnExample(path: Bytes)
    requires path == [0x61, SLASH, DOT, DOT, SLASH, 0x62]
    ensures RemoveDotSegments(path, []) == RemoveDotSegments(path[1..], [0x61])
  {
    SegmentOf([0x61], [DOT, DOT, SLASH, 0x62]);
    assert path == [0x61] + ([SLASH] + [DOT, DOT, SLASH, 0x62]);
    assert FirstLength(path) == 1 && path[..1] == [0x61] == [] + [0x61];
    assert !Begins(path, [DOT, DOT, SLASH]) && !Begins(path, [DOT, SLASH]) && path[0] != SLASH;
  }

  lemma RfcOnExample()
    ensures RemoveDotSegments([0x61, SLASH, DOT, DOT, SLASH, 0x62], []) == [SLASH, 0x62]
  {
    var path, b: Bytes := [0x61, SLASH, DOT, DOT, SLASH, 0x62], [0x62];
    RuleAfter([0x61], [DOT, DOT], b);
    assert [SLASH] + ([DOT, DOT] + ([SLASH] + b)) == path[1..];
    FirstOnExample(path);
    assert [0x61 as byte][..0] == [] && LastSlash([0x61]) == 0 && WithoutLast([0x61]) == [];
    assert b[1..] == [] && SegmentLength(b) == 1 && b[..1] == b;
    RuleForOthers(b, []);
    assert [SLASH] + b == [SLASH, 0x62];
  }

  // ---------------------------------------------------------------------------
  // The loop itself, in place.

  // The inner loop that looks for the end of a segment.
  method FindSlash(a: array<byte>, pathpos: nat, pathlen: nat) returns (slashpos: nat)
    requires pathpos <= pathlen <= a.Length
    ensures slashpos == SegmentLength(a[pathpos..pathlen])
  {
    slashpos := 0;
    while pathpos + slashpos < pathlen
      invariant pathpos + slashpos <= pathlen
      invariant SegmentLength(a[pathpos..pathlen]) == slashpos + SegmentLength(a[pathpos + slashpos..pathlen])
    {
      if a[pathpos + slashpos] == SLASH { break; }
      assert a[pathpos + slashpos..pathlen][1..] == a[pathpos + slashpos + 1..pathlen];
      slashpos := slashpos + 1;
    }
  }

  // The inner loop that backs up to the slash before the last one.
  method BackUp(a: array<byte>, newpos: nat) returns (lastslashpos: nat)
    requires 1 < newpos <= a.Length
    ensures lastslashpos == LastSlash(a[..newpos - 1])
  {
    lastslashpos := newpos - 1;
    while lastslashpos > 0
      invariant lastslashpos <= newpos - 1
      invariant LastSlash(a[..newpos - 1]) == LastSlash(a[..lastslashpos])
    {
      if a[lastslashpos - 1] == SLASH { break; }
      assert a[..lastslashpos][..lastslashpos - 1] == a[..lastslashpos - 1];
      lastslashpos := lastslashpos - 1;
    }
  }

  // memmove to a place that is not behind.
  method MoveDown(a: array<byte>, to: nat, from: nat, count: nat)
    requires to <= from && from + count <= a.Length
    modifies a
    ensures a[..to + count] == old(a[..to]) + old(a[from..from + count])
    ensures a[from + count..] == old(a[from + count..])
  {
    var i := 0;
    while i < count
      invariant i <= count
      invariant a[..to + i] == old(a[..to]) + old(a[from..from + i])
      invariant a[from + i..] == old(a[from + i..])
    {
      assert a[from + i] == old(a[from + i..])[0];
      a[to + i] := a[from + i];
      i := i + 1;
    }
  }

  // A segment that is kept, and its slash.
  method KeepSegment(a: array<byte>, pathpos: nat, pathlen: nat, newpos: nat, slashpos: nat) returns (newpos': nat)
    requires newpos <= pathpos && pathpos + slashpos <= pathlen < a.Length
    modifies a
    ensures newpos' <= pathpos + slashpos + 1 && newpos' <= pathlen
    ensures a[..newpos'] == old(a[..newpos]) + old(a[pathpos..pathpos + slashpos])
                            + if pathpos + slashpos < pathlen then [SLASH] else []
    ensures pathpos + slashpos < pathlen ==> a[pathpos + slashpos + 1..] == old(a[pathpos + slashpos + 1..])
  {
    ghost var after := if pathpos + slashpos < pathlen then a[pathpos + slashpos + 1..] else [];
    MoveDown(a, newpos, pathpos, slashpos);
    newpos' := newpos + slashpos;
    if pathpos + slashpos < pathlen {
      assert a[pathpos + slashpos..][1..] == a[pathpos + slashpos + 1..];
      assert a[pathpos + slashpos + 1..] == after;
      a[newpos'] := SLASH;
      newpos' := newpos' + 1;
    }
  }

  // One segment, from pathpos on: what is written grows or shrinks, what is unread stays.
  method TakeSegment(a: array<byte>, pathpos: nat, pathlen: nat, newpos: nat) returns (newpos': nat, slashpos: nat)
    requires newpos <= pathpos < pathlen < a.Length
    modifies a
    ensures slashpos == SegmentLength(old(a[pathpos..pathlen])) && newpos' <= pathpos + slashpos + 1
    ensures newpos' <= pathlen && pathpos + slashpos <= pathlen
    ensures a[..newpos'] == NewPath(old(a[..newpos]), old(a[pathpos..pathpos + slashpos]),
                                    if pathpos + slashpos < pathlen then [SLASH] else [])
    ensures pathpos + slashpos < pathlen ==> a[pathpos + slashpos + 1..] == old(a[pathpos + slashpos + 1..])
  {
    slashpos := FindSlash(a, pathpos, pathlen);
    newpos' := newpos;
    ghost var segment := a[pathpos..pathpos + slashpos];
    assert slashpos == 1 ==> segment == [a[pathpos]];
    assert slashpos == 2 ==> segment == [a[pathpos], a[pathpos + 1]];
    if slashpos == 2 && a[pathpos] == DOT && a[pathpos + 1] == DOT {
      if newpos > 1 {
        newpos' := BackUp(a, newpos);
        assert a[..newpos][..newpos - 1] == a[..newpos - 1];
      }
    } else if slashpos == 1 && a[pathpos] == DOT {
    } else {
      assert !IsDotSegment(segment);
      newpos' := KeepSegment(a, pathpos, pathlen, newpos, slashpos);
    }
  }

  // What the loop comes to from here.
  ghost predicate LeadsTo(a: array<byte>, newpos: nat, pathpos: nat, pathlen: nat, whole: Bytes)
    reads a
  {
    && newpos <= pathpos && newpos <= pathlen < a.Length && pathpos <= pathlen + 1
    && (if pathpos > pathlen then a[..newpos] else Removed(a[..newpos], a[pathpos..pathlen])) == whole
  }

  lemma {:induction false} LastTurn(written: Bytes, r: Bytes)
    requires r != [] && SegmentLength(r) == |r|
    ensures Removed(written, r) == NewPath(written, r[..|r|], [])
  {
    assert r[..|r|] == r;
  }

  lemma {:induction false} NextTurn(written: Bytes, r: Bytes, written': Bytes, unread: Bytes, whole: Bytes)
    requires var n := SegmentLength(r);
             n < |r| && written' == NewPath(written, r[..n], [SLASH]) && unread == r[n + 1..]
    requires Removed(written, r) == whole
    ensures Removed(written', unread) == whole
  {
  }

  // What is left of a stretch behind its first n bytes.
  lemma Stretch(a: Bytes, from: nat, to: nat, n: nat)
    requires from + n <= to <= |a|
    ensures a[from..to][n..] == a[from + n..][..to - (from + n)] == a[from + n..to]
    ensures a[from..to][..n] == a[from..from + n]
  {
  }

  // One turn of the loop.
  method TakeTurn(a: array<byte>, pathpos: nat, pathlen: nat, newpos: nat, ghost whole: Bytes)
    returns (newpos': nat, pathpos': nat)
    requires pathpos < pathlen && LeadsTo(a, newpos, pathpos, pathlen, whole)
    modifies a
    ensures pathpos < pathpos' && LeadsTo(a, newpos', pathpos', pathlen, whole)
  {
    ghost var was, r, before := a[..], a[pathpos..pathlen], a[..newpos];
    var slashpos;
    newpos', slashpos := TakeSegment(a, pathpos, pathlen, newpos);
    pathpos' := pathpos + slashpos + 1;
    Stretch(was, pathpos, pathlen, slashpos);
    if slashpos == |r| {
      LastTurn(before, r);
    } else {
      Stretch(was, pathpos, pathlen, slashpos + 1);
      Stretch(a[..], pathpos', pathlen, 0);
      NextTurn(before, r, a[..newpos'], a[pathpos'..pathlen], whole);
    }
  }

  lemma LoopBegins(a: array<byte>, pathlen: nat)
    requires pathlen < a.Length
    ensures LeadsTo(a, 0, 0, pathlen, Removed([], a[..pathlen]))
  {
    assert a[0..pathlen] == a[..pathlen] && a[..0] == [];
  }

  lemma LoopEnds(a: array<byte>, newpos: nat, pathpos: nat, pathlen: nat, whole: Bytes)
    requires LeadsTo(a, newpos, pathpos, pathlen, whole) && pathpos >= pathlen
    ensures a[..newpos] == whole
  {
    if pathpos == pathlen { assert a[pathpos..pathlen] == []; }
  }

  // The loop over all segments.
  method RemoveLoop(a: array<byte>, pathlen: nat) returns (newpos: nat)
    requires pathlen < a.Length
    modifies a
    ensures newpos <= pathlen && a[..newpos] == Removed([], old(a[..pathlen]))
  {
    ghost var whole := Removed([], a[..pathlen]);
    var pathpos: nat := 0;
    newpos := 0;
    LoopBegins(a, pathlen);
    while pathpos < pathlen
      invariant LeadsTo(a, newpos, pathpos, pathlen, whole)
      decreases pathlen + 1 - pathpos
    {
      newpos, pathpos := TakeTurn(a, pathpos, pathlen, newpos, whole);
    }
    LoopEnds(a, newpos, pathpos, pathlen, whole);
  }

  /** RemoveDotSegments on the buffer: nothing unread is ever overwritten, and what is left in front
      of the terminator is, for a path that begins with a slash, the result of the RFC. */
  method RemoveInPlace(a: array<byte>, pathlen: nat) returns (newlen: nat)
    requires pathlen < a.Length
    modifies a
    ensures newlen <= pathlen && a[newlen] == 0
    ensures a[..newlen] == Removed([], old(a[..pathlen]))
    ensures pathlen > 0 && old(a[0]) == SLASH ==> a[..newlen] == RemoveDotSegments(old(a[..pathlen]), [])
  {
    ghost var path := a[..pathlen];
    newlen := RemoveLoop(a, pathlen);
    ghost var result := a[..newlen];
    a[newlen] := 0;
    assert a[..newlen] == result;
    if pathlen > 0 && path[0] == SLASH { AbsolutePaths(path); }
  }
}
