/** Path globs: the translation to a regular expression in `tools/ci/select_suites.py`,
    and what a path glob means segment by segment. */
module Glob {
  import opened Text
  import opened Regex

  const NEWLINE := '\n'

  /** `.` without the DOTALL flag. */
  const DOT := Chr(NoneOf({NEWLINE}))

  /** `(?:.*` + `/)?` */
  const DIRECTORIES := Opt(Cat(Star(DOT), Lit('/')))

  /** `[^/]*` */
  const IN_SEGMENT := Star(Chr(NoneOf({'/'})))

  // ----- the compiler -----

  predicate AtDirectories(p: string) {
    |p| >= 3 && p[0] == '*' && p[1] == '*' && p[2] == '/'
  }

  predicate AtDoubleStar(p: string) {
    |p| >= 2 && p[0] == '*' && p[1] == '*'
  }

  /** What the translation loop appends for the rest `p` of the pattern. */
  function Compile(p: string): seq<Re> {
    if p == [] then []
    else if AtDirectories(p) then [DIRECTORIES] + Compile(p[3..])
    else if AtDoubleStar(p) then [Star(DOT)] + Compile(p[2..])
    else if p[0] == '*' then [IN_SEGMENT] + Compile(p[1..])
    else [Lit(p[0])] + Compile(p[1..])
  }

  lemma Emit(pattern: string, out: seq<Re>, index: nat, width: nat, fragment: Re)
    requires index + width <= |pattern|
    requires out + Compile(pattern[index..]) == Compile(pattern)
    requires Compile(pattern[index..]) == [fragment] + Compile(pattern[index..][width..])
    ensures out + [fragment] + Compile(pattern[index + width..]) == Compile(pattern)
  {
    assert pattern[index..][width..] == pattern[index + width..];
    assert out + ([fragment] + Compile(pattern[index + width..])) == out + [fragment] + Compile(pattern[index + width..]);
  }

  /** The translation loop: `index` walks over the pattern, `out` collects the fragments. */
  method CompilePattern(pattern: string) returns (re: Re)
    ensures re == CatAll(Compile(pattern))
  {
    var out: seq<Re> := [];
    var index := 0;
    assert pattern[0..] == pattern;
    while index < |pattern|
      invariant 0 <= index <= |pattern|
      invariant out + Compile(pattern[index..]) == Compile(pattern)
    {
      var rest := pattern[index..];
      if AtDirectories(rest) {
        Emit(pattern, out, index, 3, DIRECTORIES);
        out := out + [DIRECTORIES];
        index := index + 3;
      } else if AtDoubleStar(rest) {
        Emit(pattern, out, index, 2, Star(DOT));
        out := out + [Star(DOT)];
        index := index + 2;
      } else if rest[0] == '*' {
        Emit(pattern, out, index, 1, IN_SEGMENT);
        out := out + [IN_SEGMENT];
        index := index + 1;
      } else {
        Emit(pattern, out, index, 1, Lit(rest[0]));
        out := out + [Lit(rest[0])];
        index := index + 1;
      }
    }
    assert pattern[index..] == [];
    assert out + [] == out;
    re := CatAll(out);
  }

  /** `compile_pattern(pattern).match(path)`: the expression is closed by `\Z`. */
  predicate Accepts(pattern: string, path: string) {
    Matches(CatAll(Compile(pattern)), path)
  }

  // ----- the meaning of a glob, segment by segment -----

  predicate OneLine(s: string) {
    Free(s, NEWLINE)
  }

  predicate OneLines(segments: seq<string>) {
    forall i :: 0 <= i < |segments| ==> OneLine(segments[i])
  }

  /** A pattern segment without `**`: `*` stands for any run of characters of the segment. */
  predicate SegmentMatches(glob: string, segment: string) {
    if glob == [] then segment == []
    else if glob[0] == '*' then
      exists k :: 0 <= k <= |segment| && SegmentMatches(glob[1..], segment[k..])
    else segment != [] && segment[0] == glob[0] && SegmentMatches(glob[1..], segment[1..])
  }

  /** An inner `**` spans zero or more segments, a trailing `**` one or more. Spanned segments hold
      no newline; every other pattern segment matches exactly one path segment. */
  predicate SegmentsMatch(globs: seq<string>, segments: seq<string>) {
    if globs == [] then segments == []
    else if globs == ["**"] then
      segments != [] && OneLines(segments)
    else if globs[0] == "**" then
      exists j :: 0 <= j <= |segments| && OneLines(segments[..j]) && SegmentsMatch(globs[1..], segments[j..])
    else
      segments != [] && SegmentMatches(globs[0], segments[0]) && SegmentsMatch(globs[1..], segments[1..])
  }

  /** Some `**` starts at an index of `s`. */
  predicate HasDoubleStar(s: string) {
    exists i :: 0 <= i < |s| - 1 && s[i] == '*' && s[i + 1] == '*'
  }

  lemma DoubleStarItself()
    ensures HasDoubleStar("**")
  {
    var s := "**";
    assert s[0] == '*' && s[0 + 1] == '*';
  }

  /** Every `**` of the pattern is a whole segment. */
  predicate WholeSegments(pattern: string) {
    forall g :: g in Split(pattern, '/') ==> g == "**" || !HasDoubleStar(g)
  }

  // ----- the regular expression, fragment by fragment -----

  lemma AcceptsNil(s: string)
    ensures Accepts("", s) <==> s == []
  {
  }

  lemma AcceptsCons(p: string, re: Re, rest: string, s: string)
    requires Compile(p) == [re] + Compile(rest)
    ensures Accepts(p, s) <==> exists k :: 0 <= k <= |s| && Matches(re, s[..k]) && Accepts(rest, s[k..])
  {
    assert CatAll(Compile(p)) == Cat(re, CatAll(Compile(rest))) by {
      assert ([re] + Compile(rest))[1..] == Compile(rest);
    }
    if Accepts(p, s) {
      var k :| 0 <= k <= |s| && Matches(re, s[..k]) && Matches(CatAll(Compile(rest)), s[k..]);
      assert Matches(re, s[..k]) && Accepts(rest, s[k..]);
    }
    if k :| 0 <= k <= |s| && Matches(re, s[..k]) && Accepts(rest, s[k..]) {
      assert Matches(re, s[..k]) && Matches(CatAll(Compile(rest)), s[k..]);
    }
  }

  lemma AcceptsLiteral(c: char, rest: string, s: string)
    requires c != '*'
    ensures Accepts([c] + rest, s) <==> s != [] && s[0] == c && Accepts(rest, s[1..])
  {
    var p := [c] + rest;
    assert p[1..] == rest;
    AcceptsCons(p, Lit(c), rest, s);
    if s != [] && s[0] == c && Accepts(rest, s[1..]) {
      assert Matches(Lit(c), s[..1]) && Accepts(rest, s[1..]);
    }
  }

  lemma AcceptsStar(rest: string, s: string)
    requires rest == [] || rest[0] != '*'
    ensures Accepts("*" + rest, s) <==>
            exists k :: 0 <= k <= |s| && Free(s[..k], '/') && Accepts(rest, s[k..])
  {
    var p := "*" + rest;
    assert p[1..] == rest;
    assert p[0] == '*' && (|rest| > 0 ==> p[1] == rest[0]);
    AcceptsCons(p, IN_SEGMENT, rest, s);
    forall k | 0 <= k <= |s|
      ensures Matches(IN_SEGMENT, s[..k]) <==> Free(s[..k], '/')
    {
      StarClass(NoneOf({'/'}), s[..k]);
    }
  }

  lemma AcceptsAnything(s: string)
    ensures Accepts("**", s) <==> OneLine(s)
  {
    var p := "**";
    assert p[2..] == "";
    AcceptsCons(p, Star(DOT), "", s);
    StarClass(NoneOf({NEWLINE}), s);
    if Accepts(p, s) {
      var k :| 0 <= k <= |s| && Matches(Star(DOT), s[..k]) && Accepts("", s[k..]);
      assert k == |s| && s[..k] == s;
    }
    if OneLine(s) {
      assert s[..|s|] == s && s[|s|..] == [];
      assert Accepts("", s[|s|..]);
    }
  }

  /** `k` is the index right after a slash of `s`, and nothing before that slash is a newline. */
  predicate AfterLine(s: string, k: int) {
    0 < k <= |s| && s[k - 1] == '/' && OneLine(s[..k - 1])
  }

  lemma DirectoriesSpan(s: string)
    ensures Matches(DIRECTORIES, s) <==> s == [] || AfterLine(s, |s|)
  {
    var slash := Cat(Star(DOT), Lit('/'));
    if Matches(slash, s) {
      var k :| 0 <= k <= |s| && Matches(Star(DOT), s[..k]) && Matches(Lit('/'), s[k..]);
      assert k == |s| - 1 && s[k..][0] == '/';
      StarClass(NoneOf({NEWLINE}), s[..k]);
    }
    if AfterLine(s, |s|) {
      var k := |s| - 1;
      StarClass(NoneOf({NEWLINE}), s[..k]);
      assert Matches(Star(DOT), s[..k]) && Matches(Lit('/'), s[k..]);
    }
  }

  lemma AcceptsDirectories(rest: string, s: string)
    ensures Accepts("**/" + rest, s) <==>
            Accepts(rest, s) || exists k :: AfterLine(s, k) && Accepts(rest, s[k..])
  {
    var p := "**/" + rest;
    assert p[3..] == rest;
    AcceptsCons(p, DIRECTORIES, rest, s);
    forall k | 0 <= k <= |s|
      ensures Matches(DIRECTORIES, s[..k]) <==> k == 0 || AfterLine(s, k)
    {
      DirectoriesSpan(s[..k]);
      assert k > 0 ==> s[..k][..k - 1] == s[..k - 1];
    }
    assert s[0..] == s;
    if k :| 0 <= k <= |s| && Matches(DIRECTORIES, s[..k]) && Accepts(rest, s[k..]) {
      assert k == 0 || AfterLine(s, k);
    }
    if Accepts(rest, s) {
      assert Matches(DIRECTORIES, s[..0]) && Accepts(rest, s[0..]);
    }
    if k :| AfterLine(s, k) && Accepts(rest, s[k..]) {
      assert Matches(DIRECTORIES, s[..k]) && Accepts(rest, s[k..]);
    }
  }

  // ----- one segment -----

  /** `rest` is what follows a whole pattern segment. */
  predicate SegmentEnd(rest: string) {
    rest == [] || rest[0] == '/'
  }

  lemma {:induction false} SegmentThen(glob: string, rest: string, s: string)
    requires Free(glob, '/') && !HasDoubleStar(glob) && SegmentEnd(rest)
    ensures Accepts(glob + rest, s) <==>
            exists k :: 0 <= k <= |s| && Free(s[..k], '/') && SegmentMatches(glob, s[..k]) && Accepts(rest, s[k..])
    decreases |glob|, 1
  {
    if glob == [] {
      assert glob + rest == rest && s[0..] == s && s[..0] == [];
    } else {
      var g, tail := glob[0], glob[1..];
      assert glob + rest == [g] + (tail + rest);
      assert !HasDoubleStar(tail) by {
        if i :| 0 <= i < |tail| - 1 && tail[i] == '*' && tail[i + 1] == '*' {
          assert glob[i + 1] == '*' && glob[i + 1 + 1] == '*';
        }
      }
      if g == '*' {
        StarSegmentThen(tail, rest, s);
      } else {
        LiteralSegmentThen(g, tail, rest, s);
      }
      assert [g] + tail == glob;
    }
  }

  lemma {:induction false} LiteralSegmentThen(g: char, tail: string, rest: string, s: string)
    requires g != '*' && g != '/' && Free(tail, '/') && !HasDoubleStar(tail) && SegmentEnd(rest)
    ensures Accepts([g] + (tail + rest), s) <==>
            exists k :: 0 <= k <= |s| && Free(s[..k], '/') && SegmentMatches([g] + tail, s[..k]) && Accepts(rest, s[k..])
    decreases |tail| + 1, 0
  {
    hide Accepts, HasDoubleStar, SegmentEnd;
    AcceptsLiteral(g, tail + rest, s);
    if Accepts([g] + (tail + rest), s) {
      var t := s[1..];
      SegmentThen(tail, rest, t);
      var k :| 0 <= k <= |t| && Free(t[..k], '/') && SegmentMatches(tail, t[..k]) && Accepts(rest, t[k..]);
      LiteralFront(g, tail, s, k + 1);
      assert t[k..] == s[k + 1..];
      assert SegmentMatches([g] + tail, s[..k + 1]) && Accepts(rest, s[k + 1..]);
    }
    if k :| 0 <= k <= |s| && Free(s[..k], '/') && SegmentMatches([g] + tail, s[..k]) && Accepts(rest, s[k..]) {
      assert k > 0 && s[..k][0] == s[0] == g;
      var t := s[1..];
      LiteralFront(g, tail, s, k);
      SegmentThen(tail, rest, t);
      assert t[k - 1..] == s[k..];
      assert Accepts(tail + rest, t);
    }
  }

  lemma LiteralFront(g: char, tail: string, s: string, k: nat)
    requires 0 < k <= |s| && s[0] == g && g != '/' && g != '*'
    ensures Free(s[1..][..k - 1], '/') <==> Free(s[..k], '/')
    ensures SegmentMatches([g] + tail, s[..k]) <==> SegmentMatches(tail, s[1..][..k - 1])
  {
    var t := s[1..][..k - 1];
    assert s[..k] == [g] + t;
    FreeCat([g], t, '/');
    assert s[..k][1..] == t && ([g] + tail)[1..] == tail;
  }

  lemma {:induction false} StarSegmentThen(tail: string, rest: string, s: string)
    requires Free(tail, '/') && !HasDoubleStar("*" + tail) && !HasDoubleStar(tail) && SegmentEnd(rest)
    ensures Accepts("*" + (tail + rest), s) <==>
            exists k :: 0 <= k <= |s| && Free(s[..k], '/') && SegmentMatches("*" + tail, s[..k]) && Accepts(rest, s[k..])
    decreases |tail| + 1, 0
  {
    hide Accepts, SegmentMatches, SegmentEnd;
    NoStarAhead(tail, rest);
    AcceptsStar(tail + rest, s);
    if Accepts("*" + (tail + rest), s) {
      var a :| 0 <= a <= |s| && Free(s[..a], '/') && Accepts(tail + rest, s[a..]);
      SegmentThen(tail, rest, s[a..]);
      var b :| 0 <= b <= |s[a..]| && Free(s[a..][..b], '/') && SegmentMatches(tail, s[a..][..b]) && Accepts(rest, s[a..][b..]);
      StarSplit(tail, s, a, b);
      assert s[a..][b..] == s[a + b..];
      assert Free(s[..a + b], '/') && SegmentMatches("*" + tail, s[..a + b]) && Accepts(rest, s[a + b..]);
    }
    if k :| 0 <= k <= |s| && Free(s[..k], '/') && SegmentMatches("*" + tail, s[..k]) && Accepts(rest, s[k..]) {
      var a := StarUnsplit(tail, s, k);
      SegmentThen(tail, rest, s[a..]);
      assert s[a..][k - a..] == s[k..];
      assert Accepts(tail + rest, s[a..]);
    }
  }

  lemma NoStarAhead(tail: string, rest: string)
    requires !HasDoubleStar("*" + tail) && SegmentEnd(rest)
    ensures tail + rest == [] || (tail + rest)[0] != '*'
  {
    assert tail != [] ==> ("*" + tail)[0] == '*' && ("*" + tail)[0 + 1] == tail[0];
  }

  lemma StarSplit(tail: string, s: string, a: nat, b: nat)
    requires a + b <= |s| && Free(s[..a], '/') && Free(s[a..][..b], '/') && SegmentMatches(tail, s[a..][..b])
    ensures Free(s[..a + b], '/') && SegmentMatches("*" + tail, s[..a + b])
  {
    var t := s[..a + b];
    assert t == s[..a] + s[a..][..b];
    FreeCat(s[..a], s[a..][..b], '/');
    assert t[a..] == s[a..][..b] && ("*" + tail)[1..] == tail;
    assert SegmentMatches(tail, t[a..]);
  }

  lemma StarUnsplit(tail: string, s: string, k: nat) returns (a: nat)
    requires k <= |s| && Free(s[..k], '/') && SegmentMatches("*" + tail, s[..k])
    ensures a <= k && Free(s[..a], '/') && Free(s[a..][..k - a], '/') && SegmentMatches(tail, s[a..][..k - a])
  {
    var t := s[..k];
    assert ("*" + tail)[1..] == tail;
    a :| 0 <= a <= |t| && SegmentMatches(tail, t[a..]);
    assert t == s[..a] + s[a..][..k - a] && t[a..] == s[a..][..k - a];
    FreeCat(s[..a], s[a..][..k - a], '/');
  }

  // ----- slashes and segments -----

  lemma {:induction false} AllSegmentsOneLine(s: string)
    ensures OneLine(s) <==> OneLines(Split(s, '/'))
    decreases |s|
  {
    hide Free, OneLines;
    var i := FirstIndex(s, '/');
    if i == |s| {
      OneLinesSingle(s);
    } else {
      var head, tail := s[..i], s[i + 1..];
      AllSegmentsOneLine(tail);
      CutAtSlash(s, i, |s|, NEWLINE);
      assert s[..|s|] == s && tail[..|s| - i - 1] == tail;
      OneLinesCons(head, Split(tail, '/'));
    }
  }

  lemma OneLinesSingle(s: string)
    ensures OneLines([s]) <==> OneLine(s)
  {
    if OneLines([s]) {
      assert [s][0] == s;
    }
  }

  lemma OneLinesCons(head: string, tail: seq<string>)
    ensures OneLines([head] + tail) <==> OneLine(head) && OneLines(tail)
  {
    var all := [head] + tail;
    if OneLines(all) {
      assert OneLine(all[0]);
      forall x | 0 <= x < |tail| ensures OneLine(tail[x]) { assert OneLine(all[x + 1]); }
    }
  }

  /** Going past the first slash. */
  lemma AfterLineStep(s: string, i: nat, k: nat)
    requires i < |s| && i == FirstIndex(s, '/') && i + 1 < k <= |s|
    ensures s[i + 1..][k - i - 1..] == s[k..]
    ensures AfterLine(s, k) <==> OneLine(s[..i]) && AfterLine(s[i + 1..], k - i - 1)
  {
    hide Free, FirstIndex;
    CutAtSlash(s, i, k - 1, NEWLINE);
    SliceOfSlice(s, i, k);
  }

  lemma SliceOfSlice(s: string, i: nat, k: nat)
    requires i + 1 < k <= |s|
    ensures s[i + 1..][k - i - 1..] == s[k..] && s[i + 1..][k - i - 2] == s[k - 1]
  {
  }

  lemma CutAtSlash(s: string, i: nat, j: nat, c: char)
    requires i < j <= |s| && s[i] == '/' != c
    ensures Free(s[..j], c) <==> Free(s[..i], c) && Free(s[i + 1..][..j - i - 1], c)
  {
    var middle := s[i + 1..][..j - i - 1];
    assert s[..j] == s[..i + 1] + middle;
    assert s[..i + 1] == s[..i] + ['/'];
    FreeCat(s[..i + 1], middle, c);
    FreeCat(s[..i], ['/'], c);
  }

  /** `**` followed by more segments, on the side of the expression: span nothing or the first segment. */
  lemma DirectoriesStep(rest: string, s: string, i: nat)
    requires i == FirstIndex(s, '/')
    ensures Accepts("**/" + rest, s) <==>
            Accepts(rest, s) || (i < |s| && OneLine(s[..i]) && Accepts("**/" + rest, s[i + 1..]))
  {
    hide Accepts, Free;
    AcceptsDirectories(rest, s);
    if k :| AfterLine(s, k) && Accepts(rest, s[k..]) {
      DirectoriesSkip(rest, s, i, k);
    }
    if i < |s| && OneLine(s[..i]) && Accepts("**/" + rest, s[i + 1..]) {
      var k := DirectoriesBack(rest, s, i);
    }
  }

  lemma DirectoriesSkip(rest: string, s: string, i: nat, k: nat)
    requires i == FirstIndex(s, '/') && AfterLine(s, k) && Accepts(rest, s[k..])
    ensures i < |s| && OneLine(s[..i]) && Accepts("**/" + rest, s[i + 1..])
  {
    hide Accepts;
    SlashNotBefore(s, k);
    AcceptsDirectories(rest, s[i + 1..]);
    if k == i + 1 {
      assert s[..k - 1] == s[..i];
    } else {
      AfterLineStep(s, i, k);
    }
  }

  lemma DirectoriesBack(rest: string, s: string, i: nat) returns (k: nat)
    requires i == FirstIndex(s, '/') && i < |s| && OneLine(s[..i]) && Accepts("**/" + rest, s[i + 1..])
    ensures AfterLine(s, k) && Accepts(rest, s[k..])
  {
    hide Accepts, Free;
    var t := s[i + 1..];
    AcceptsDirectories(rest, t);
    if j :| AfterLine(t, j) && Accepts(rest, t[j..]) {
      k := j + i + 1;
      AfterLineStep(s, i, k);
    } else {
      k := i + 1;
    }
  }

  lemma SlashNotBefore(s: string, k: int)
    requires 0 < k <= |s| && s[k - 1] == '/'
    ensures FirstIndex(s, '/') < k
  {
    var i := FirstIndex(s, '/');
  }

  /** The same on the side of the segments. */
  lemma SegmentsStep(globs: seq<string>, segments: seq<string>)
    requires globs != []
    ensures SegmentsMatch(["**"] + globs, segments) <==>
            SegmentsMatch(globs, segments) ||
            (segments != [] && OneLine(segments[0]) && SegmentsMatch(["**"] + globs, segments[1..]))
  {
    hide Free, OneLines, SegmentsMatch;
    DoubleStarMatch(globs, segments);
    if j :| 0 <= j <= |segments| && OneLines(segments[..j]) && SegmentsMatch(globs, segments[j..]) {
      if j == 0 {
        assert segments[j..] == segments;
      } else {
        var tail := segments[1..];
        assert segments[..j] == [segments[0]] + tail[..j - 1] && segments[j..] == tail[j - 1..];
        OneLinesCons(segments[0], tail[..j - 1]);
        DoubleStarMatch(globs, tail);
      }
    }
    if SegmentsMatch(globs, segments) {
      assert segments[0..] == segments && segments[..0] == [];
      OneLinesNone();
    } else if segments != [] && OneLine(segments[0]) && SegmentsMatch(["**"] + globs, segments[1..]) {
      var tail := segments[1..];
      DoubleStarMatch(globs, tail);
      var j :| 0 <= j <= |tail| && OneLines(tail[..j]) && SegmentsMatch(globs, tail[j..]);
      assert segments[..j + 1] == [segments[0]] + tail[..j] && segments[j + 1..] == tail[j..];
      OneLinesCons(segments[0], tail[..j]);
      assert OneLines(segments[..j + 1]) && SegmentsMatch(globs, segments[j + 1..]);
    }
  }

  lemma OneLinesNone()
    ensures OneLines([])
  {
  }

  lemma DoubleStarMatch(globs: seq<string>, segments: seq<string>)
    requires globs != []
    ensures SegmentsMatch(["**"] + globs, segments) <==>
            exists j :: 0 <= j <= |segments| && OneLines(segments[..j]) && SegmentsMatch(globs, segments[j..])
  {
    var all := ["**"] + globs;
    assert all[1..] == globs && all != ["**"];
  }

  lemma SegmentMatch(g: string, globs: seq<string>, segments: seq<string>)
    requires g != "**"
    ensures SegmentsMatch([g] + globs, segments) <==>
            segments != [] && SegmentMatches(g, segments[0]) && SegmentsMatch(globs, segments[1..])
  {
    assert ([g] + globs)[1..] == globs;
  }

  lemma {:induction false} NoSegments(globs: seq<string>)
    requires globs != []
    ensures !SegmentsMatch(globs, [])
  {
    if |globs| > 1 {
      NoSegments(globs[1..]);
      assert globs == [globs[0]] + globs[1..];
      if globs[0] == "**" {
        DoubleStarMatch(globs[1..], []);
      }
    }
  }

  // ----- the translation preserves the meaning -----

  /** Main theorem: for every pattern whose `**` are whole segments, the translated expression
      accepts exactly the paths that the pattern matches segment by segment. */
  lemma {:induction false} CompilePreservesMeaning(pattern: string, path: string)
    requires WholeSegments(pattern)
    ensures Accepts(pattern, path) <==> SegmentsMatch(Split(pattern, '/'), Split(path, '/'))
    decreases |pattern|
  {
    hide Accepts, SegmentMatches, SegmentsMatch, HasDoubleStar, Free;
    var globs := Split(pattern, '/');
    var i := FirstIndex(pattern, '/');
    var g := pattern[..i];
    assert globs[0] == g && g in globs;
    if i == |pattern| {
      assert g == pattern && globs == [g];
      if g == "**" {
        LastDoubleStar(path);
      } else {
        LastSegment(g, path);
      }
    } else {
      var rest := pattern[i + 1..];
      assert globs == [g] + Split(rest, '/') && globs[1..] == Split(rest, '/');
      assert WholeSegments(rest) by {
        assert forall h :: h in Split(rest, '/') ==> h in globs;
      }
      assert pattern == g + ("/" + rest);
      if g == "**" {
        assert pattern == "**/" + rest;
        DirectorySegments(rest, path);
      } else {
        InnerSegment(g, rest, path);
      }
    }
  }

  lemma LastDoubleStar(path: string)
    ensures Accepts("**", path) <==> SegmentsMatch(["**"], Split(path, '/'))
  {
    hide Accepts, Free;
    AcceptsAnything(path);
    AllSegmentsOneLine(path);
  }

  lemma LastSegment(g: string, path: string)
    requires Free(g, '/') && !HasDoubleStar(g)
    ensures Accepts(g, path) <==> SegmentsMatch([g], Split(path, '/'))
  {
    hide SegmentMatches, Accepts;
    SegmentThen(g, "", path);
    assert g + "" == g && [g] + [] == [g];
    DoubleStarItself();
    SegmentMatch(g, [], Split(path, '/'));
    forall k | 0 <= k <= |path| ensures Accepts("", path[k..]) <==> k == |path| { AcceptsNil(path[k..]); }
    assert path[..|path|] == path;
    if Free(path, '/') {
      SplitSingle(path, '/');
    }
  }

  lemma {:induction false} InnerSegment(g: string, rest: string, path: string)
    requires Free(g, '/') && !HasDoubleStar(g) && WholeSegments(rest)
    ensures Accepts(g + ("/" + rest), path) <==> SegmentsMatch([g] + Split(rest, '/'), Split(path, '/'))
    decreases |rest| + 1, 0
  {
    hide Accepts, SegmentMatches, SegmentsMatch, WholeSegments;
    DoubleStarItself();
    SegmentMatch(g, Split(rest, '/'), Split(path, '/'));
    SegmentThen(g, "/" + rest, path);
    var i := FirstIndex(path, '/');
    if i < |path| {
      CompilePreservesMeaning(rest, path[i + 1..]);
      AcceptsLiteral('/', rest, path[i..]);
      assert path[i..][1..] == path[i + 1..];
      assert Split(path, '/')[0] == path[..i] && Split(path, '/')[1..] == Split(path[i + 1..], '/');
      assert path[i..][0] == '/';
    } else {
      NoSegments(Split(rest, '/'));
      assert Split(path, '/')[1..] == [];
    }
    if k :| 0 <= k <= |path| && Free(path[..k], '/') && SegmentMatches(g, path[..k]) && Accepts("/" + rest, path[k..]) {
      AcceptsLiteral('/', rest, path[k..]);
      assert path[k] == path[k..][0] == '/';
      FirstIndexUnique(path, '/', k);
    }
    if SegmentsMatch([g] + Split(rest, '/'), Split(path, '/')) {
      assert SegmentMatches(g, path[..i]) && Accepts("/" + rest, path[i..]);
    }
  }

  lemma {:induction false} DirectorySegments(rest: string, path: string)
    requires WholeSegments(rest)
    ensures Accepts("**/" + rest, path) <==> SegmentsMatch(["**"] + Split(rest, '/'), Split(path, '/'))
    decreases |rest| + 1, |path|
  {
    hide Accepts, SegmentMatches, SegmentsMatch, WholeSegments;
    var i := FirstIndex(path, '/');
    var segments := Split(path, '/');
    DirectoriesStep(rest, path, i);
    SegmentsStep(Split(rest, '/'), segments);
    CompilePreservesMeaning(rest, path);
    if i < |path| {
      DirectorySegments(rest, path[i + 1..]);
      assert segments[0] == path[..i] && segments[1..] == Split(path[i + 1..], '/');
    } else {
      assert segments[1..] == [];
      NoSegments(["**"] + Split(rest, '/'));
    }
  }
}
