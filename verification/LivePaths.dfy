/**
  Workspace paths: which paths a file route accepts, and the canonical form of an accepted path.
 */
module LivePaths {
  import opened Options
  import opened Utf16

  const SLASH: CodeUnit := 0x2F

  /** "workspace" */
  const WORKSPACE_NAME: JsString := [0x77, 0x6F, 0x72, 0x6B, 0x73, 0x70, 0x61, 0x63, 0x65]

  const LIVE_WORKSPACE_ROOT: JsString := [SLASH] + WORKSPACE_NAME

  const LIVE_FILE_PATH_MAX_CHARACTERS: nat := 1024

  datatype PathProblem = Empty | TooLong | Nul | NotAbsolute | DotDot | OutsideWorkspace

  /** The parts between slashes. */
  function Split(s: JsString): (r: seq<JsString>)
    ensures |r| >= 1
  {
    if s == [] then [[]]
    else if s[0] == SLASH then [[]] + Split(s[1..])
    else
      var rest := Split(s[1..]);
      [[s[0]] + rest[0]] + rest[1..]
  }

  function Join(segments: seq<JsString>): JsString {
    if segments == [] then []
    else if |segments| == 1 then segments[0]
    else segments[0] + ([SLASH] + Join(segments[1..]))
  }

  predicate Kept(segment: JsString) {
    segment != [] && segment != [DOT]
  }

  function Filter(segments: seq<JsString>): seq<JsString> {
    if segments == [] then []
    else if Kept(segments[0]) then [segments[0]] + Filter(segments[1..])
    else Filter(segments[1..])
  }

  function NormalizedSegments(raw: JsString): seq<JsString> {
    Filter(Split(raw))
  }

  function NormalizeLivePath(raw: JsString): JsString {
    [SLASH] + Join(NormalizedSegments(raw))
  }

  predicate StartsWith(s: JsString, prefix: JsString) {
    |prefix| <= |s| && s[..|prefix|] == prefix
  }

  function LivePathProblem(raw: JsString): Option<PathProblem> {
    if raw == [] then Some(Empty)
    else if |raw| > LIVE_FILE_PATH_MAX_CHARACTERS then Some(TooLong)
    else if 0 in raw then Some(Nul)
    else if raw[0] != SLASH then Some(NotAbsolute)
    else if [DOT, DOT] in Split(raw) then Some(DotDot)
    else
      var normalized := NormalizeLivePath(raw);
      if normalized != LIVE_WORKSPACE_ROOT && !StartsWith(normalized, LIVE_WORKSPACE_ROOT + [SLASH]) then
        Some(OutsideWorkspace)
      else None
  }

  // ----- Splitting and joining -----

  ghost predicate SlashFree(segments: seq<JsString>) {
    forall x | x in segments :: SLASH !in x
  }

  lemma {:induction false} SplitIsSlashFree(s: JsString)
    ensures SlashFree(Split(s))
  {
    if s == [] {
    } else {
      SplitIsSlashFree(s[1..]);
      var rest := Split(s[1..]);
      assert rest[0] in rest;
      assert forall x | x in rest[1..] :: x in rest;
    }
  }

  /** A segment in front of a slash is split off. */
  lemma {:induction false} SplitSegment(segment: JsString, rest: JsString)
    requires SLASH !in segment
    ensures Split(segment + ([SLASH] + rest)) == [segment] + Split(rest)
  {
    var s := segment + ([SLASH] + rest);
    if segment == [] {
      assert s[1..] == rest;
    } else {
      assert s[1..] == segment[1..] + ([SLASH] + rest);
      SplitSegment(segment[1..], rest);
      assert [segment[0]] + segment[1..] == segment;
    }
  }

  lemma {:induction false} SplitOnlySegment(segment: JsString)
    requires SLASH !in segment
    ensures Split(segment) == [segment]
  {
    if segment == [] {
    } else {
      SplitOnlySegment(segment[1..]);
      assert [segment[0]] + segment[1..] == segment;
    }
  }

  lemma {:induction false} SplitJoin(segments: seq<JsString>)
    requires segments != [] && SlashFree(segments)
    ensures Split(Join(segments)) == segments
  {
    assert segments[0] in segments;
    if |segments| == 1 {
      SplitOnlySegment(segments[0]);
    } else {
      assert forall x | x in segments[1..] :: x in segments;
      SplitJoin(segments[1..]);
      SplitSegment(segments[0], Join(segments[1..]));
      assert [segments[0]] + segments[1..] == segments;
    }
  }

  /** Joining the parts of a path gives the path back. */
  lemma {:induction false} JoinSplit(s: JsString)
    ensures Join(Split(s)) == s
  {
    if s == [] {
    } else {
      JoinSplit(s[1..]);
      var rest := Split(s[1..]);
      if s[0] == SLASH {
        assert ([[]] + rest)[1..] == rest;
      } else {
        JoinLonger(s[0], rest);
      }
    }
  }

  lemma JoinLonger(u: CodeUnit, segments: seq<JsString>)
    requires segments != []
    ensures Join([[u] + segments[0]] + segments[1..]) == [u] + Join(segments)
  {
    var longer := [[u] + segments[0]] + segments[1..];
    assert longer[1..] == segments[1..];
  }

  // ----- Filtering -----

  lemma {:induction false} FilterMembers(segments: seq<JsString>)
    ensures forall x :: x in Filter(segments) <==> x in segments && Kept(x)
  {
    if segments == [] {
    } else {
      FilterMembers(segments[1..]);
      assert segments == [segments[0]] + segments[1..];
    }
  }

  lemma {:induction false} FilterKept(segments: seq<JsString>)
    requires forall x | x in segments :: Kept(x)
    ensures Filter(segments) == segments
  {
    if segments == [] {
    } else {
      assert segments[0] in segments;
      FilterKept(segments[1..]);
    }
  }

  lemma AbsoluteSegments(s: JsString)
    ensures NormalizedSegments([SLASH] + s) == NormalizedSegments(s)
  {
    assert ([SLASH] + s)[1..] == s;
    assert ([[]] + Split(s))[1..] == Split(s);
  }

  lemma SegmentsAreClean(raw: JsString)
    ensures SlashFree(NormalizedSegments(raw))
    ensures forall x | x in NormalizedSegments(raw) :: Kept(x)
  {
    SplitIsSlashFree(raw);
    FilterMembers(Split(raw));
  }

  /** Normalising keeps the segments. */
  lemma NormalizeKeepsSegments(raw: JsString)
    ensures NormalizedSegments(NormalizeLivePath(raw)) == NormalizedSegments(raw)
    ensures Split(NormalizeLivePath(raw)) == [[]] + (if NormalizedSegments(raw) == []
              then [[]] else NormalizedSegments(raw))
  {
    var segments := NormalizedSegments(raw);
    SegmentsAreClean(raw);
    AbsoluteSegments(Join(segments));
    assert NormalizeLivePath(raw)[1..] == Join(segments);
    if segments != [] {
      SplitJoin(segments);
      FilterKept(segments);
    } else {
      assert Split([])[1..] == [];
    }
  }

  // ----- Lengths -----

  /** The length of the segments, each with one slash. */
  ghost function Weight(segments: seq<JsString>): nat {
    if segments == [] then 0 else |segments[0]| + 1 + Weight(segments[1..])
  }

  lemma {:induction false} SplitWeight(s: JsString)
    ensures Weight(Split(s)) == |s| + 1
  {
    if s == [] {
      assert Weight([[]]) == 1 + Weight([[]][1..]);
    } else {
      SplitWeight(s[1..]);
      if s[0] == SLASH {
        assert ([[]] + Split(s[1..]))[1..] == Split(s[1..]);
      } else {
        var rest := Split(s[1..]);
        assert ([[s[0]] + rest[0]] + rest[1..])[1..] == rest[1..];
      }
    }
  }

  lemma {:induction false} JoinWeight(segments: seq<JsString>)
    requires segments != []
    ensures |Join(segments)| + 1 == Weight(segments)
  {
    if |segments| == 1 {
      assert segments[1..] == [];
    } else {
      JoinWeight(segments[1..]);
    }
  }

  lemma {:induction false} FilterWeight(segments: seq<JsString>)
    ensures Weight(Filter(segments)) <= Weight(segments)
  {
    if segments == [] {
    } else {
      FilterWeight(segments[1..]);
      if Kept(segments[0]) {
        assert Filter(segments)[1..] == Filter(segments[1..]);
      }
    }
  }

  lemma NormalizeIsNotLonger(raw: JsString)
    requires raw != [] && raw[0] == SLASH
    ensures |NormalizeLivePath(raw)| <= |raw|
  {
    var s := raw[1..];
    assert raw == [SLASH] + s;
    AbsoluteSegments(s);
    SplitWeight(s);
    FilterWeight(Split(s));
    if NormalizedSegments(raw) != [] {
      JoinWeight(NormalizedSegments(raw));
    }
  }

  // ----- Characters -----

  lemma {:induction false} JoinCharacters(segments: seq<JsString>, u: CodeUnit)
    requires u != SLASH && forall x | x in segments :: u !in x
    ensures u !in Join(segments)
  {
    if segments == [] {
    } else {
      assert segments[0] in segments;
      if |segments| > 1 {
        assert forall x | x in segments[1..] :: x in segments;
        JoinCharacters(segments[1..], u);
      }
    }
  }

  lemma {:induction false} SplitCharacters(s: JsString, u: CodeUnit)
    requires u !in s
    ensures forall x | x in Split(s) :: u !in x
  {
    if s == [] {
    } else {
      SplitCharacters(s[1..], u);
      var rest := Split(s[1..]);
      assert rest[0] in rest;
      assert forall x | x in rest[1..] :: x in rest;
    }
  }

  lemma NormalizeKeepsNulOut(raw: JsString)
    requires 0 !in raw
    ensures 0 !in NormalizeLivePath(raw)
  {
    SplitCharacters(raw, 0);
    FilterMembers(Split(raw));
    JoinCharacters(NormalizedSegments(raw), 0);
  }

  // ----- The theorems -----

  /**
    Normalising twice is normalising once, and two paths normalise equally exactly when their kept segments are equal.
   */
  lemma NormalFormIsCanonical(a: JsString, b: JsString)
    ensures NormalizeLivePath(NormalizeLivePath(a)) == NormalizeLivePath(a)
    ensures NormalizeLivePath(a) == NormalizeLivePath(b) <==> NormalizedSegments(a) == NormalizedSegments(b)
  {
    NormalizeKeepsSegments(a);
    NormalizeKeepsSegments(b);
  }

  lemma WorkspaceSegments(rest: JsString)
    ensures NormalizedSegments(LIVE_WORKSPACE_ROOT + ([SLASH] + rest)) == [WORKSPACE_NAME] + NormalizedSegments(rest)
    ensures NormalizedSegments(LIVE_WORKSPACE_ROOT) == [WORKSPACE_NAME]
  {
    var s := WORKSPACE_NAME + ([SLASH] + rest);
    assert LIVE_WORKSPACE_ROOT + ([SLASH] + rest) == [SLASH] + s;
    AbsoluteSegments(s);
    SplitSegment(WORKSPACE_NAME, rest);
    assert ([WORKSPACE_NAME] + Split(rest))[1..] == Split(rest);
    AbsoluteSegments(WORKSPACE_NAME);
    SplitOnlySegment(WORKSPACE_NAME);
    assert [WORKSPACE_NAME][1..] == [];
  }

  predicate UnderWorkspace(path: JsString) {
    path == LIVE_WORKSPACE_ROOT || StartsWith(path, LIVE_WORKSPACE_ROOT + [SLASH])
  }

  /** A path at or under the workspace root has "workspace" as its first kept segment. */
  lemma UnderWorkspaceFirst(path: JsString)
    requires UnderWorkspace(path)
    ensures NormalizedSegments(path) != [] && NormalizedSegments(path)[0] == WORKSPACE_NAME
  {
    if path == LIVE_WORKSPACE_ROOT {
      WorkspaceSegments([]);
    } else {
      var front := LIVE_WORKSPACE_ROOT + [SLASH];
      var rest := path[|front|..];
      assert path == front + rest;
      assert front + rest == LIVE_WORKSPACE_ROOT + ([SLASH] + rest);
      WorkspaceSegments(rest);
    }
  }

  /** Segments that start with "workspace" join to a path at or under the workspace root. */
  lemma FirstUnderWorkspace(segments: seq<JsString>)
    requires segments != [] && segments[0] == WORKSPACE_NAME
    ensures UnderWorkspace([SLASH] + Join(segments))
  {
    if |segments| > 1 {
      var rest := Join(segments[1..]);
      var front := LIVE_WORKSPACE_ROOT + [SLASH];
      assert [SLASH] + (WORKSPACE_NAME + ([SLASH] + rest)) == front + rest;
      assert (front + rest)[..|front|] == front;
    }
  }

  /** The normal form lies at or under the workspace root exactly when the first kept segment is "workspace". */
  lemma UnderWorkspaceIffFirstSegment(raw: JsString)
    ensures UnderWorkspace(NormalizeLivePath(raw)) <==>
              NormalizedSegments(raw) != [] && NormalizedSegments(raw)[0] == WORKSPACE_NAME
  {
    NormalizeKeepsSegments(raw);
    if UnderWorkspace(NormalizeLivePath(raw)) {
      UnderWorkspaceFirst(NormalizeLivePath(raw));
    }
    if NormalizedSegments(raw) != [] && NormalizedSegments(raw)[0] == WORKSPACE_NAME {
      FirstUnderWorkspace(NormalizedSegments(raw));
    }
  }

  /**
    Which paths are accepted, in terms of the path itself: absolute, at most 1024 code units, no NUL, no ".." segment,
    and "workspace" as the first segment that is neither empty nor ".".
   */
  lemma AcceptedIff(raw: JsString)
    ensures LivePathProblem(raw) == None <==>
              && raw != [] && |raw| <= LIVE_FILE_PATH_MAX_CHARACTERS && 0 !in raw && raw[0] == SLASH
              && [DOT, DOT] !in Split(raw)
              && NormalizedSegments(raw) != [] && NormalizedSegments(raw)[0] == WORKSPACE_NAME
  {
    UnderWorkspaceIffFirstSegment(raw);
  }

  // ----- Where a path leads -----

  /** Following the parts of a path from a directory, given by the names down to it, without following links. */
  function Walk(at: seq<JsString>, segments: seq<JsString>): seq<JsString>
    decreases |segments|
  {
    if segments == [] then at
    else
      var x := segments[0];
      var next := if x == [] || x == [DOT] then at
                  else if x == [DOT, DOT] then (if at == [] then [] else at[..|at| - 1])
                  else at + [x];
      Walk(next, segments[1..])
  }

  /** The place that an absolute path names. */
  function Location(path: JsString): seq<JsString> {
    Walk([], Split(path))
  }

  lemma {:induction false} FilterKeepsWalk(at: seq<JsString>, segments: seq<JsString>)
    ensures Walk(at, Filter(segments)) == Walk(at, segments)
    decreases |segments|
  {
    if segments == [] {
    } else {
      var x := segments[0];
      if Kept(x) {
        assert Filter(segments)[1..] == Filter(segments[1..]);
        FilterKeepsWalk(if x == [DOT, DOT] then (if at == [] then [] else at[..|at| - 1]) else at + [x], segments[1..]);
      } else {
        FilterKeepsWalk(at, segments[1..]);
      }
    }
  }

  lemma {:induction false} WalkDown(at: seq<JsString>, segments: seq<JsString>)
    requires forall x | x in segments :: Kept(x) && x != [DOT, DOT]
    ensures Walk(at, segments) == at + segments
    decreases |segments|
  {
    if segments == [] {
    } else {
      assert segments[0] in segments;
      WalkDown(at + [segments[0]], segments[1..]);
    }
  }

  /** The normal form of every path, accepted or not, names the same place as the path. */
  lemma NormalizeKeepsLocation(raw: JsString)
    ensures Location(NormalizeLivePath(raw)) == Location(raw)
  {
    NormalizeKeepsSegments(raw);
    FilterKeepsWalk([], Split(raw));
    FilterKeepsWalk([], Split(NormalizeLivePath(raw)));
  }

  /** An accepted path names a place at or under the workspace root, and its normal form spells out that place. */
  lemma AcceptedStaysInWorkspace(raw: JsString)
    requires LivePathProblem(raw) == None
    ensures Location(raw) != [] && Location(raw)[0] == WORKSPACE_NAME
    ensures NormalizeLivePath(raw) == [SLASH] + Join(Location(raw))
  {
    AcceptedIff(raw);
    FilterKeepsWalk([], Split(raw));
    FilterMembers(Split(raw));
    WalkDown([], NormalizedSegments(raw));
    assert [] + NormalizedSegments(raw) == NormalizedSegments(raw);
  }

  lemma Constants()
    ensures Spells(LIVE_WORKSPACE_ROOT, "/workspace") && Spells(WORKSPACE_NAME, "workspace")
    ensures Spells([SLASH], "/") && Spells([DOT], ".")
  {
  }

  /** The path passes the checks that come before the one for "..". */
  predicate Plausible(raw: JsString) {
    0 < |raw| <= 1024 && 0 !in raw && raw[0] == SLASH
  }

  /** Where a path without ".." leads. */
  lemma LocationWithoutDotDot(raw: JsString)
    requires [DOT, DOT] !in Split(raw)
    ensures Location(raw) == NormalizedSegments(raw)
  {
    FilterKeepsWalk([], Split(raw));
    FilterMembers(Split(raw));
    WalkDown([], NormalizedSegments(raw));
    assert [] + NormalizedSegments(raw) == NormalizedSegments(raw);
  }

  /**
    Exactly when each answer is given: the first of the reasons that applies. A path is outside when, with no "..", it
    leads to a place that is not at or under the workspace.
   */
  lemma ProblemsExactly(raw: JsString)
    ensures LivePathProblem(raw) == Some(Empty) <==> raw == []
    ensures LivePathProblem(raw) == Some(TooLong) <==> |raw| > 1024
    ensures LivePathProblem(raw) == Some(Nul) <==> 0 < |raw| <= 1024 && 0 in raw
    ensures LivePathProblem(raw) == Some(NotAbsolute) <==> 0 < |raw| <= 1024 && 0 !in raw && raw[0] != SLASH
    ensures LivePathProblem(raw) == Some(DotDot) <==> Plausible(raw) && [DOT, DOT] in Split(raw)
    ensures LivePathProblem(raw) == Some(OutsideWorkspace) <==>
              && Plausible(raw) && [DOT, DOT] !in Split(raw)
              && (Location(raw) == [] || Location(raw)[0] != WORKSPACE_NAME)
    ensures LivePathProblem(raw) == None <==>
              && Plausible(raw) && [DOT, DOT] !in Split(raw)
              && Location(raw) != [] && Location(raw)[0] == WORKSPACE_NAME
  {
    UnderWorkspaceIffFirstSegment(raw);
    if [DOT, DOT] !in Split(raw) {
      LocationWithoutDotDot(raw);
    }
  }

  /** The ".." check is needed: for every name, a path whose normal form passes the prefix comparison leads outside. */
  lemma DotDotWouldLeave(name: JsString)
    requires Kept(name) && name != [DOT, DOT] && SLASH !in name && name != WORKSPACE_NAME
    ensures var raw := LIVE_WORKSPACE_ROOT + ([SLASH] + ([DOT, DOT] + ([SLASH] + name)));
            && StartsWith(NormalizeLivePath(raw), LIVE_WORKSPACE_ROOT + [SLASH])
            && Location(raw) == [name]
  {
    var raw := LIVE_WORKSPACE_ROOT + ([SLASH] + ([DOT, DOT] + ([SLASH] + name)));
    var segments := [WORKSPACE_NAME, [DOT, DOT], name];
    SplitOnlySegment(name);
    SplitSegment([DOT, DOT], name);
    WorkspaceSegments([DOT, DOT] + ([SLASH] + name));
    var tail := [[DOT, DOT]] + [name];
    FilterKept(tail);
    assert NormalizedSegments(raw) == [WORKSPACE_NAME] + tail == segments;
    UnderWorkspaceIffFirstSegment(raw);
    assert NormalizeLivePath(raw) != LIVE_WORKSPACE_ROOT by {
      WorkspaceSegments([]);
      NormalizeKeepsSegments(raw);
    }
    FilterKeepsWalk([], Split(raw));
    WalkUpAndDown(WORKSPACE_NAME, name);
  }

  lemma WalkUpAndDown(dir: JsString, name: JsString)
    requires Kept(dir) && dir != [DOT, DOT] && Kept(name) && name != [DOT, DOT]
    ensures Walk([], [dir, [DOT, DOT], name]) == [name]
  {
    var segments := [dir, [DOT, DOT], name];
    assert segments[1..] == [[DOT, DOT], name] && segments[1..][1..] == [name] && [name][1..] == [];
    assert Walk([], segments) == Walk([] + [dir], segments[1..]) == Walk([], [name]) == Walk([] + [name], []);
  }

  /**
    The normal form of an accepted path is accepted, is not longer, is its own normal form, lies at or under the
    workspace root, and between its slashes holds no empty, "." or ".." segment.
   */
  lemma NormalFormIsSound(raw: JsString)
    requires LivePathProblem(raw) == None
    ensures var normalized := NormalizeLivePath(raw);
            && LivePathProblem(normalized) == None
            && |normalized| <= |raw|
            && NormalizeLivePath(normalized) == normalized
            && UnderWorkspace(normalized)
            && Split(normalized) == [[]] + NormalizedSegments(raw)
            && NormalizedSegments(raw)[..1] == [WORKSPACE_NAME]
            && forall x | x in NormalizedSegments(raw) :: x != [] && x != [DOT] && x != [DOT, DOT] && SLASH !in x
  {
    AcceptedIff(raw);
    NormalizeKeepsSegments(raw);
    NormalizeIsNotLonger(raw);
    NormalizeKeepsNulOut(raw);
    SegmentsAreClean(raw);
    FilterMembers(Split(raw));
    AcceptedIff(NormalizeLivePath(raw));
  }
}
