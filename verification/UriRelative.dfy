/** When the loop computes remove_dot_segments on a path that may begin without a slash. */
module UriRelative {
  import opened BigIntBytes
  import opened UriPath

  // How many segments are written in a path whose segments all have their slash.
  function Depth(path: Bytes): nat {
    if path == [] then 0 else (if path[|path| - 1] == SLASH then 1 else 0) + Depth(path[..|path| - 1])
  }

  function DepthAfter(segment: Bytes, depth: nat): nat {
    if segment == [DOT] then depth
    else if segment != [DOT, DOT] then depth + 1
    else if depth == 0 then 0 else depth - 1
  }

  // ---------------------------------------------------------------------------
  // The condition: it counts segments and looks at nothing that is written.

  // With nothing written, the loop and the RFC differ by a slash in front. They come together only at
  // a ".." that finds nothing but an empty segment: `empty` says that the lowest one written is empty.
  predicate Meets(r: Bytes, depth: nat, empty: bool)
    decreases |r|
  {
    r != [] &&
    var n := SegmentLength(r);
    if r[..n] == [DOT, DOT] && depth == 1 && empty then true
    else
      var after := DepthAfter(r[..n], depth);
      n < |r| && Meets(r[n + 1..], after, if depth == 0 then n == 0 && after == 1 else after > 0 && empty)
  }

  // Behind a first segment: as long as a segment is left they agree.
  predicate Grounded(r: Bytes, depth: nat)
    decreases |r|
  {
    if r == [] then true
    else
      var n := SegmentLength(r);
      var after := DepthAfter(r[..n], depth);
      if n == |r| then after > 0
      else if after == 0 then Meets(r[n + 1..], 0, false)
      else Grounded(r[n + 1..], after)
  }

  // Behind the dot segments at the front.
  function AfterDots(path: Bytes): (rest: Bytes)
    ensures |rest| <= |path|
    decreases |path|
  {
    var n := SegmentLength(path);
    if n < |path| && IsDotSegment(path[..n]) then AfterDots(path[n + 1..]) else path
  }

  // A slash there makes the path absolute, and a single segment is kept or dropped by both.
  predicate Agrees(path: Bytes) {
    var rest := AfterDots(path);
    var n := SegmentLength(rest);
    n == |rest| || n == 0 || Grounded(rest[n + 1..], 1)
  }

  // ---------------------------------------------------------------------------
  // Depth.

  lemma {:induction false} DepthOfSegment(path: Bytes, segment: Bytes)
    requires SLASH !in segment
    ensures Depth(path + segment) == Depth(path)
    ensures Depth(path + segment + [SLASH]) == Depth(path) + 1
  {
    var longer := path + segment;
    assert (longer + [SLASH])[..|longer|] == longer;
    if segment == [] {
      assert longer == path;
    } else {
      var before := segment[..|segment| - 1];
      DepthOfSegment(path, before);
      assert longer[..|longer| - 1] == path + before;
      assert longer[|longer| - 1] == segment[|segment| - 1];
    }
  }

  lemma {:induction false} DepthOfLastSlash(s: Bytes)
    ensures Depth(s) == Depth(s[..LastSlash(s)])
    ensures Depth(s) == 0 <==> LastSlash(s) == 0
  {
    if s != [] && s[|s| - 1] != SLASH {
      var before := s[..|s| - 1];
      DepthOfLastSlash(before);
      assert before[..LastSlash(before)] == s[..LastSlash(s)];
    } else if s != [] {
      assert s[..|s|] == s;
    }
  }

  // Backing up takes one segment away, and the lowest one last.
  lemma DepthBackedUp(path: Bytes)
    requires Whole(path) && path != [SLASH]
    ensures var up := NewPath(path, [DOT, DOT], []);
            && Whole(up) && up == NewPath(path, [DOT, DOT], [SLASH])
            && Depth(up) == DepthAfter([DOT, DOT], Depth(path))
            && (up != [] ==> up[0] == path[0])
            && (up == [] <==> Depth(path) <= 1)
            && (Depth(path) == 0 <==> path == [])
            && (Depth(path) == 1 ==> path[0] != SLASH)
  {
    if path != [] {
      assert |path| > 1;
      var before := path[..|path| - 1];
      var k := LastSlash(before);
      DepthOfLastSlash(before);
      assert path[..k] == before[..k];
      assert k > 0 ==> path[k - 1] == before[k - 1];
      if path[0] == SLASH { assert before[0] in before; }
    }
  }

  // ---------------------------------------------------------------------------
  // With and without a slash in front.

  predicate EmptyFirst(path: Bytes) {
    path != [] && path[0] == SLASH
  }

  // What is written after a segment, next to the same with a slash in front.
  lemma BesideSlash(path: Bytes, segment: Bytes, slash: Bytes)
    requires Whole(path) && SLASH !in segment && (path == [SLASH] ==> segment != [DOT, DOT])
    requires slash == [SLASH] || slash == []
    ensures NewPath([SLASH] + path, segment, slash) == [SLASH] + NewPath(path, segment, slash)
    ensures slash != [] ==>
              var next := NewPath(path, segment, slash);
              && Whole(next) && Depth(next) == DepthAfter(segment, Depth(path))
              && (EmptyFirst(next) <==>
                    if Depth(path) == 0 then segment == [] else Depth(next) > 0 && EmptyFirst(path))
  {
    if segment == [DOT, DOT] {
      NewPathBehind(path, segment, slash);
      DepthBackedUp(path);
    } else {
      assert segment != [DOT] ==> ([SLASH] + path) + segment + slash == [SLASH] + (path + segment + slash);
      DepthOfSegment(path, segment);
      if path != [SLASH] { DepthBackedUp(path); }
    }
  }

  // One step of the loop and of the condition.
  lemma OneStep(path: Bytes, r: Bytes, depth: nat, empty: bool)
    requires SegmentLength(r) < |r| && (r[..SegmentLength(r)] == [DOT, DOT] ==> !(depth == 1 && empty))
    ensures var n := SegmentLength(r);
            var after := DepthAfter(r[..n], depth);
            && Removed(path, r) == Removed(NewPath(path, r[..n], [SLASH]), r[n + 1..])
            && (Meets(r, depth, empty) <==>
                  Meets(r[n + 1..], after, if depth == 0 then r[..n] == [] else after > 0 && empty))
  {
    var n := SegmentLength(r);
    assert r[..n] == [] ==> n == 0;
  }

  lemma LastStep(path: Bytes, r: Bytes)
    requires Whole(path) && SegmentLength(r) == |r| && (path == [SLASH] ==> r != [DOT, DOT])
    ensures Removed(path, r) != Removed([SLASH] + path, r)
    ensures !Meets(r, Depth(path), EmptyFirst(path))
  {
    assert r[..|r|] == r;
    BesideSlash(path, r, []);
    assert r != [] ==> Removed(path, r) == NewPath(path, r, []);
    if path != [SLASH] { DepthBackedUp(path); }
  }

  lemma InnerStep(path: Bytes, r: Bytes)
    requires Whole(path) && SegmentLength(r) < |r|
    requires path == [SLASH] ==> r[..SegmentLength(r)] != [DOT, DOT]
    ensures var n := SegmentLength(r);
            var next := NewPath(path, r[..n], [SLASH]);
            && Whole(next)
            && Removed(path, r) == Removed(next, r[n + 1..])
            && Removed([SLASH] + path, r) == Removed([SLASH] + next, r[n + 1..])
            && (Meets(r, Depth(path), EmptyFirst(path)) <==> Meets(r[n + 1..], Depth(next), EmptyFirst(next)))
  {
    var n := SegmentLength(r);
    BesideSlash(path, r[..n], [SLASH]);
    if path != [SLASH] { DepthBackedUp(path); }
    OneStep(path, r, Depth(path), EmptyFirst(path));
    OneStep([SLASH] + path, r, Depth(path), EmptyFirst(path));
  }

  // The first of the two agreements is that of the second, for any values.
  lemma Carried(a: Bytes, b: Bytes, c: Bytes, d: Bytes, p: bool, q: bool)
    requires a == c && b == d && p == q && (c == d <==> q)
    ensures a == b <==> p
  {
  }

  lemma {:induction false} MeetsExact(path: Bytes, r: Bytes)
    requires Whole(path)
    ensures Removed(path, r) == Removed([SLASH] + path, r) <==> Meets(r, Depth(path), EmptyFirst(path))
    decreases |r|, 1
  {
    var n := SegmentLength(r);
    if path == [SLASH] && r[..n] == [DOT, DOT] {
      TogetherAgain(r);
    } else if n == |r| {
      assert r[..n] == r;
      LastStep(path, r);
    } else {
      MeetsInside(path, r);
    }
  }

  lemma {:induction false} MeetsInside(path: Bytes, r: Bytes)
    requires Whole(path) && SegmentLength(r) < |r|
    requires path == [SLASH] ==> r[..SegmentLength(r)] != [DOT, DOT]
    ensures Removed(path, r) == Removed([SLASH] + path, r) <==> Meets(r, Depth(path), EmptyFirst(path))
    decreases |r|, 0
  {
    var n := SegmentLength(r);
    var next, rest := NewPath(path, r[..n], [SLASH]), r[n + 1..];
    InnerStep(path, r);
    MeetsExact(next, rest);
    Carried(Removed(path, r), Removed([SLASH] + path, r), Removed(next, rest), Removed([SLASH] + next, rest),
            Meets(r, Depth(path), EmptyFirst(path)), Meets(rest, Depth(next), EmptyFirst(next)));
  }

  // An empty segment is not taken away, and two are one afterwards.
  lemma TogetherAgain(r: Bytes)
    requires r[..SegmentLength(r)] == [DOT, DOT]
    ensures Removed([SLASH], r) == Removed([SLASH] + [SLASH], r) && Meets(r, 1, true)
    ensures Depth([SLASH]) == 1
  {
    var two := [SLASH] + [SLASH];
    assert two[..1] == [SLASH] && LastSlash([SLASH]) == 1;
    assert NewPath(two, [DOT, DOT], []) == [SLASH] == NewPath(two, [DOT, DOT], [SLASH]);
    if SegmentLength(r) == |r| { assert r[..|r|] == r; }
    assert [SLASH][..0] == [];
  }

  // ---------------------------------------------------------------------------
  // Behind a first segment.

  // Something that does not begin with a slash.
  predicate Unrooted(output: Bytes) {
    output != [] && output[0] != SLASH
  }

  lemma BackedUpLower(output: Bytes)
    requires Unrooted(output) && LastSlash(output) > 0
    ensures var k := LastSlash(output);
            && (output + [SLASH])[..k] == WithoutLast(output) + [SLASH]
            && Unrooted(WithoutLast(output)) && Depth(WithoutLast(output) + [SLASH]) == Depth(output)
  {
    var k := LastSlash(output);
    assert output[..k] == output[..k - 1] + [SLASH] == (output + [SLASH])[..k];
    DepthOfLastSlash(output);
  }

  lemma BackedUpUnrooted(output: Bytes)
    requires Unrooted(output)
    ensures Depth(output + [SLASH]) == Depth(output) + 1
    ensures var up := NewPath(output + [SLASH], [DOT, DOT], []);
            && up == NewPath(output + [SLASH], [DOT, DOT], [SLASH])
            && if Depth(output) == 0 then up == [] && WithoutLast(output) == []
               else Unrooted(WithoutLast(output)) && up == WithoutLast(output) + [SLASH]
                    && Depth(up) == Depth(output)
  {
    var path := output + [SLASH];
    assert path[..|path| - 1] == output;
    DepthOfLastSlash(output);
    if LastSlash(output) > 0 {
      BackedUpLower(output);
    } else {
      assert path[..0] == [];
    }
  }

  lemma LastDotsUnrooted(output: Bytes, r: Bytes)
    requires Unrooted(output) && IsDotSegment(r)
    ensures NewPath(output + [SLASH], r, []) == RemoveDotSegments([SLASH] + r, output) <==>
            DepthAfter(r, Depth(output + [SLASH])) > 0
  {
    BackedUpUnrooted(output);
    RuleForLastDots(r, output);
    var left := if |r| == 1 then output else WithoutLast(output);
    OnlySlash(left);
    assert RemoveDotSegments([SLASH] + r, output) == left + [SLASH];
  }

  lemma LastKept(output: Bytes, r: Bytes)
    requires SLASH !in r && !IsDotSegment(r)
    ensures NewPath(output + [SLASH], r, []) == RemoveDotSegments([SLASH] + r, output)
  {
    var all := output + ([SLASH] + r);
    assert SegmentLength(r) == |r| && r[..|r|] == r && r[|r|..] == [];
    RuleForOthers(r, output);
    assert RemoveDotSegments([], all) == all;
    assert output + [SLASH] + r + [] == all;
  }

  lemma LastUnrooted(output: Bytes, r: Bytes)
    requires Unrooted(output) && SLASH !in r
    ensures NewPath(output + [SLASH], r, []) == RemoveDotSegments([SLASH] + r, output) <==>
            r == [] || DepthAfter(r, Depth(output + [SLASH])) > 0
  {
    if IsDotSegment(r) {
      LastDotsUnrooted(output, r);
    } else {
      LastKept(output, r);
    }
  }

  // One more segment with others behind it.
  lemma PathAfterUnrooted(output: Bytes, segment: Bytes)
    requires Unrooted(output) && SLASH !in segment
    ensures var path, after := output + [SLASH], OutputAfter(output, segment);
            var next := NewPath(path, segment, [SLASH]);
            && DepthAfter(segment, Depth(path)) == Depth(next)
            && if Depth(next) == 0 then next == [] && after == [] else Unrooted(after) && next == after + [SLASH]
  {
    BackedUpUnrooted(output);
    DepthOfSegment(output + [SLASH], segment);
    if !IsDotSegment(segment) {
      assert (output + [SLASH]) + segment + [SLASH] == (output + ([SLASH] + segment)) + [SLASH];
    }
  }

  lemma GroundedStep(r: Bytes, depth: nat)
    ensures var n := SegmentLength(r);
            var after := DepthAfter(r[..n], depth);
            Grounded(r, depth) <==>
            if n == |r| then r == [] || DepthAfter(r, depth) > 0
            else if after == 0 then Meets(r[n + 1..], 0, false)
            else Grounded(r[n + 1..], after)
  {
    assert r[..|r|] == r;
  }

  lemma {:induction false} GroundedExact(output: Bytes, r: Bytes)
    requires Unrooted(output)
    ensures Removed(output + [SLASH], r) == RemoveDotSegments([SLASH] + r, output) <==>
            Grounded(r, Depth(output + [SLASH]))
    decreases |r|, 1
  {
    var n, path := SegmentLength(r), output + [SLASH];
    if n == |r| {
      GroundedStep(r, Depth(path));
      assert r[..n] == r && path + r + [] == path + r;
      LastUnrooted(output, r);
    } else {
      GroundedInside(output, r);
    }
  }

  lemma InnerByRfc(output: Bytes, r: Bytes)
    requires SegmentLength(r) < |r|
    ensures var n := SegmentLength(r);
            RemoveDotSegments([SLASH] + r, output) ==
            RemoveDotSegments([SLASH] + r[n + 1..], OutputAfter(output, r[..n]))
  {
    var n := SegmentLength(r);
    assert r == r[..n] + ([SLASH] + r[n + 1..]);
    RuleAfter(output, r[..n], r[n + 1..]);
  }

  // One step of the loop, of the RFC and of the condition.
  lemma InnerUnrooted(output: Bytes, r: Bytes)
    requires Unrooted(output) && SegmentLength(r) < |r|
    ensures var n, path := SegmentLength(r), output + [SLASH];
            var next, after := NewPath(path, r[..n], [SLASH]), OutputAfter(output, r[..n]);
            && Removed(path, r) == Removed(next, r[n + 1..])
            && (Grounded(r, Depth(path)) <==>
                  if Depth(next) == 0 then Meets(r[n + 1..], 0, false) else Grounded(r[n + 1..], Depth(next)))
            && if Depth(next) == 0 then next == [] && after == [] else Unrooted(after) && next == after + [SLASH]
  {
    var n, path := SegmentLength(r), output + [SLASH];
    GroundedStep(r, Depth(path));
    PathAfterUnrooted(output, r[..n]);
  }

  lemma {:induction false} GroundedInside(output: Bytes, r: Bytes)
    requires Unrooted(output) && SegmentLength(r) < |r|
    ensures Removed(output + [SLASH], r) == RemoveDotSegments([SLASH] + r, output) <==>
            Grounded(r, Depth(output + [SLASH]))
    decreases |r|, 0
  {
    var n, path := SegmentLength(r), output + [SLASH];
    var rest, next, after := r[n + 1..], NewPath(path, r[..n], [SLASH]), OutputAfter(output, r[..n]);
    InnerUnrooted(output, r);
    InnerByRfc(output, r);
    if Depth(next) == 0 {
      NothingLeft(next, rest);
    } else {
      GroundedExact(after, rest);
    }
    Carried(Removed(path, r), RemoveDotSegments([SLASH] + r, output),
            Removed(next, rest), RemoveDotSegments([SLASH] + rest, after), Grounded(r, Depth(path)),
            if Depth(next) == 0 then Meets(rest, 0, false) else Grounded(rest, Depth(next)));
  }

  lemma NothingLeft(nothing: Bytes, rest: Bytes)
    requires nothing == []
    ensures Removed(nothing, rest) == RemoveDotSegments([SLASH] + rest, nothing) <==> Meets(rest, 0, false)
  {
    LoopFollowsRfc(nothing, rest);
    MeetsExact(nothing, rest);
    assert nothing + [SLASH] == [SLASH] + nothing;
  }

  // ---------------------------------------------------------------------------
  // The whole path.

  // The tests of the RFC at the front of a path that does not begin with a slash.
  lemma FrontTests(path: Bytes)
    requires path != [] && path[0] != SLASH
    ensures var n := SegmentLength(path);
            && (Begins(path, [DOT, SLASH]) <==> n < |path| && path[..n] == [DOT])
            && (Begins(path, [DOT, DOT, SLASH]) <==> n < |path| && path[..n] == [DOT, DOT])
  {
    var n := SegmentLength(path);
    ShortSegments(path);
    if Begins(path, [DOT, SLASH]) { assert path[..2][0] == path[0] && path[..2][1] == path[1]; }
    if Begins(path, [DOT, DOT, SLASH]) {
      assert path[..3][0] == path[0] && path[..3][1] == path[1] && path[..3][2] == path[2];
    }
    if n < |path| && path[..n] == [DOT] { assert path[..2] == [DOT, SLASH]; }
    if n < |path| && path[..n] == [DOT, DOT] { assert path[..3] == [DOT, DOT, SLASH]; }
  }

  lemma NoSlashInFront(path: Bytes)
    requires path != [] && path[0] != SLASH
    ensures !Begins(path, [SLASH, DOT, SLASH]) && !Begins(path, [SLASH, DOT, DOT, SLASH])
    ensures path != [SLASH, DOT] && path != [SLASH, DOT, DOT]
  {
    assert |path| >= 3 ==> path[..3][0] == path[0];
    assert |path| >= 4 ==> path[..4][0] == path[0];
  }

  lemma InnerFrontDots(path: Bytes, output: Bytes)
    requires SegmentLength(path) < |path| && IsDotSegment(path[..SegmentLength(path)])
    ensures RemoveDotSegments(path, output) == RemoveDotSegments(path[SegmentLength(path) + 1..], output)
  {
    var n := SegmentLength(path);
    assert path[0] == path[..n][0];
    FrontTests(path);
    if path[..n] == [DOT] {
      assert RemoveDotSegments(path, output) == RemoveDotSegments(path[2..], output);
    } else {
      assert RemoveDotSegments(path, output) == RemoveDotSegments(path[3..], output);
    }
  }

  lemma OnlyDots(path: Bytes, output: Bytes)
    requires IsDotSegment(path)
    ensures RemoveDotSegments(path, output) == output && SegmentLength(path) == |path|
  {
    assert SegmentLength(path) == |path|;
    FrontTests(path);
  }

  lemma FrontKept(path: Bytes)
    requires path != [] && path[0] != SLASH && !IsDotSegment(path[..SegmentLength(path)])
    ensures var n := SegmentLength(path); RemoveDotSegments(path, []) == RemoveDotSegments(path[n..], path[..n])
  {
    FrontTests(path);
    NoSlashInFront(path);
    var n := SegmentLength(path);
    if n == |path| { assert path[..n] == path; }
    assert FirstLength(path) == n && [] + path[..n] == path[..n];
  }

  // A path of one segment, which may be a dot segment.
  lemma SingleSegment(path: Bytes)
    requires path != [] && SegmentLength(path) == |path|
    ensures Removed([], path) == RemoveDotSegments(path, [])
  {
    assert path[..|path|] == path && path[|path|..] == [];
    assert [] + path + [] == path;
    if IsDotSegment(path) {
      OnlyDots(path, []);
    } else {
      FrontKept(path);
      assert RemoveDotSegments([], path) == path;
    }
  }

  // The first segment is written with its slash.
  lemma FirstWritten(path: Bytes)
    requires var n := SegmentLength(path); 0 < n < |path| && !IsDotSegment(path[..n])
    ensures var n := SegmentLength(path); Removed([], path) == Removed(path[..n] + [SLASH], path[n + 1..])
  {
    var n := SegmentLength(path);
    assert [] + path[..n] + [SLASH] == path[..n] + [SLASH];
  }

  lemma FirstByRfc(path: Bytes)
    requires var n := SegmentLength(path); 0 < n < |path| && !IsDotSegment(path[..n])
    ensures var n := SegmentLength(path);
            RemoveDotSegments(path, []) == RemoveDotSegments([SLASH] + path[n + 1..], path[..n])
  {
    var n := SegmentLength(path);
    assert path[..n][0] == path[0];
    FrontKept(path);
    assert path[n..] == [SLASH] + path[n + 1..];
  }

  lemma DepthOfFirst(first: Bytes)
    requires SLASH !in first
    ensures Depth(first + [SLASH]) == 1
  {
    DepthOfSegment([], first);
    assert [] + first == first;
  }

  lemma BehindFirst(path: Bytes)
    requires var n := SegmentLength(path); 0 < n < |path| && !IsDotSegment(path[..n])
    ensures Removed([], path) == RemoveDotSegments(path, []) <==> Grounded(path[SegmentLength(path) + 1..], 1)
  {
    var n := SegmentLength(path);
    var first, rest := path[..n], path[n + 1..];
    assert first[0] == path[0];
    FirstWritten(path);
    FirstByRfc(path);
    DepthOfFirst(first);
    GroundedExact(first, rest);
    Carried(Removed([], path), RemoveDotSegments(path, []), Removed(first + [SLASH], rest),
            RemoveDotSegments([SLASH] + rest, first), Grounded(rest, 1), Grounded(rest, Depth(first + [SLASH])));
  }

  // Dot segments at the front are dropped by both.
  lemma DotsDropped(path: Bytes)
    requires SegmentLength(path) < |path| && IsDotSegment(path[..SegmentLength(path)])
    ensures var rest := path[SegmentLength(path) + 1..];
            && Removed([], path) == Removed([], rest)
            && RemoveDotSegments(path, []) == RemoveDotSegments(rest, [])
  {
    InnerFrontDots(path, []);
  }

  lemma {:induction false} AllDotsDropped(path: Bytes)
    ensures var rest := AfterDots(path);
            && Removed([], path) == Removed([], rest)
            && RemoveDotSegments(path, []) == RemoveDotSegments(rest, [])
    decreases |path|
  {
    var n := SegmentLength(path);
    if n < |path| && IsDotSegment(path[..n]) {
      DotsDropped(path);
      AllDotsDropped(path[n + 1..]);
    }
  }

  lemma WithoutFrontDots(path: Bytes)
    requires AfterDots(path) == path
    ensures Removed([], path) == RemoveDotSegments(path, []) <==> Agrees(path)
  {
    var n := SegmentLength(path);
    if path != [] {
      if n == 0 {
        AbsolutePaths(path);
      } else if n == |path| {
        SingleSegment(path);
      } else {
        NoFrontDots(path);
        BehindFirst(path);
      }
    }
  }

  lemma NoFrontDots(path: Bytes)
    requires AfterDots(path) == path && SegmentLength(path) < |path|
    ensures !IsDotSegment(path[..SegmentLength(path)])
  {
  }

  lemma {:induction false} AfterDotsTwice(path: Bytes)
    ensures AfterDots(AfterDots(path)) == AfterDots(path)
    decreases |path|
  {
    var n := SegmentLength(path);
    if n < |path| && IsDotSegment(path[..n]) {
      AfterDotsTwice(path[n + 1..]);
    }
  }

  /** For every path the loop computes remove_dot_segments exactly if it agrees by that count. */
  lemma ExactlyIfAgrees(path: Bytes)
    ensures Removed([], path) == RemoveDotSegments(path, []) <==> Agrees(path)
  {
    var rest := AfterDots(path);
    AllDotsDropped(path);
    AfterDotsTwice(path);
    WithoutFrontDots(rest);
    Carried(Removed([], path), RemoveDotSegments(path, []), Removed([], rest), RemoveDotSegments(rest, []),
            Agrees(path), Agrees(rest));
  }
}
