/** What the width features and conditions of `apps/pwa/column-queries.ts` look like: reading a written
    condition gives its bounds, and nothing else is read as one. */
module WidthFeatures {
  import opened Text
  import opened MediaList

  // ----- parts of a feature -----

  predicate Spaces(s: string) { forall i :: 0 <= i < |s| ==> ScriptSpace(s[i]) }

  /** `x` is the lower-case word `w`, in any case. */
  predicate Same(x: string, w: string) {
    |x| == |w| && forall i :: 0 <= i < |w| ==> LowerCase(x[i]) == w[i]
  }

  predicate NumberChar(c: char) { '0' <= c <= '9' || c == '.' }

  /** Digits and points, then px, rem or em in any case. */
  ghost predicate IsLength(l: string) { exists n, u :: LengthParts(l, n, u) }

  predicate LengthParts(l: string, n: string, u: string) {
    l == n + u && n != "" && (forall i :: 0 <= i < |n| ==> NumberChar(n[i])) &&
    (Same(u, "px") || Same(u, "rem") || Same(u, "em"))
  }

  function Sign(c: char, strict: bool): string { if strict then [c] else [c, '='] }

  lemma SkipParts(s: string)
    ensures s == s[..|s| - |SkipSpace(s)|] + SkipSpace(s) && Spaces(s[..|s| - |SkipSpace(s)|])
    ensures SkipSpace(s) == "" || !ScriptSpace(SkipSpace(s)[0])
  {
    SkippedSpaces(s);
  }

  lemma {:induction false} SkippedSpaces(s: string)
    ensures Spaces(s[..|s| - |SkipSpace(s)|])
  {
    hide ScriptSpace;
    if s != [] && ScriptSpace(s[0]) {
      SkippedSpaces(s[1..]);
      assert s[..|s| - |SkipSpace(s)|] == [s[0]] + s[1..][..|s| - 1 - |SkipSpace(s[1..])|];
    } else {
      assert s[..|s| - |s|] == "";
    }
  }

  lemma {:induction false} SkipOver(a: string, s: string)
    requires Spaces(a) && (s == "" || !ScriptSpace(s[0]))
    ensures SkipSpace(a + s) == s
  {
    hide ScriptSpace;
    if a == "" {
      assert a + s == s;
    } else {
      assert (a + s)[1..] == a[1..] + s && (a + s)[0] == a[0];
      SkipOver(a[1..], s);
    }
  }

  lemma {:induction false} WordRead(s: string, w: string) returns (x: string)
    requires AfterWord(s, w).Some?
    ensures Same(x, w) && s == x + AfterWord(s, w).value
  {
    hide LowerCase;
    if w == "" {
      x := "";
    } else {
      var rest := WordRead(s[1..], w[1..]);
      x := [s[0]] + rest;
      assert s == [s[0]] + s[1..];
      assert forall i :: 0 < i < |w| ==> x[i] == rest[i - 1] && w[i] == w[1..][i - 1];
    }
  }

  lemma {:induction false} WordWritten(x: string, w: string, r: string)
    requires Same(x, w)
    ensures AfterWord(x + r, w) == Some(r)
  {
    hide LowerCase;
    if w == "" {
      assert x + r == r;
    } else {
      assert (x + r)[1..] == x[1..] + r;
      assert forall i :: 0 <= i < |w| - 1 ==> x[1..][i] == x[i + 1] && w[1..][i] == w[i + 1];
      WordWritten(x[1..], w[1..], r);
    }
  }

  lemma OtherFirst(s: string, w: string)
    requires w != "" && (s == "" || LowerCase(s[0]) != w[0])
    ensures AfterWord(s, w) == None
  {
  }

  // ----- lengths -----

  lemma {:induction false} NumberRead(s: string)
    ensures forall i :: 0 <= i < NumberLength(s) ==> NumberChar(s[i])
    ensures NumberLength(s) < |s| ==> !NumberChar(s[NumberLength(s)])
  {
    if s != [] && NumberChar(s[0]) {
      NumberRead(s[1..]);
      assert forall i :: 0 < i < NumberLength(s) ==> s[i] == s[1..][i - 1];
    }
  }

  lemma NumberUnique(s: string, n: nat)
    requires n <= |s| && (forall i :: 0 <= i < n ==> NumberChar(s[i])) && (n < |s| ==> !NumberChar(s[n]))
    ensures NumberLength(s) == n
  {
    NumberRead(s);
  }

  lemma UnitFirst(u: string)
    requires Same(u, "px") || Same(u, "rem") || Same(u, "em")
    ensures u != "" && !NumberChar(u[0]) && LowerCase(u[0]) in {'p', 'r', 'e'}
    ensures LowerCase(u[0]) == 'p' ==> Same(u, "px")
    ensures LowerCase(u[0]) == 'r' ==> Same(u, "rem")
    ensures LowerCase(u[0]) == 'e' ==> Same(u, "em")
  {
  }

  /** A unit and what follows it, as they are read. */
  lemma UnitRead(u: string, r: string)
    requires Same(u, "px") || Same(u, "rem") || Same(u, "em")
    ensures var s := u + r;
            if AfterWord(s, "px").Some? || AfterWord(s, "em").Some? then |u| == 2
            else AfterWord(s, "rem").Some? && |u| == 3
  {
    UnitFirst(u);
    var s := u + r;
    assert s[0] == u[0];
    if Same(u, "px") {
      WordWritten(u, "px", r);
    } else if Same(u, "em") {
      WordWritten(u, "em", r);
    } else {
      WordWritten(u, "rem", r);
      OtherFirst(s, "px");
      OtherFirst(s, "em");
    }
  }

  lemma LengthWritten(l: string, r: string)
    requires IsLength(l)
    ensures LengthAt(l + r) == Some((l, r))
  {
    hide Same, AfterWord, LowerCase;
    var n, u :| LengthParts(l, n, u);
    UnitFirst(u);
    var s := l + r;
    assert forall i :: 0 <= i < |n| ==> s[i] == n[i];
    assert s[|n|] == u[0];
    NumberUnique(s, |n|);
    UnitRead(u, r);
    CutLength(s, n, u, r);
  }

  lemma CutLength(s: string, n: string, u: string, r: string)
    requires s == n + u + r
    ensures s[|n|..] == u + r && s[..|n| + |u|] == n + u && (u + r)[|u|..] == r && |u + r| >= |u|
  {
  }

  lemma LengthRead(s: string)
    requires LengthAt(s).Some?
    ensures IsLength(LengthAt(s).value.0) && s == LengthAt(s).value.0 + LengthAt(s).value.1
  {
    hide LowerCase;
    var n := NumberLength(s);
    NumberRead(s);
    var tail := s[n..];
    var unit := if AfterWord(tail, "px").Some? then "px" else if AfterWord(tail, "em").Some? then "em" else "rem";
    var u := WordRead(tail, unit);
    LengthPieces(s, n, u, unit);
  }

  lemma LengthPieces(s: string, n: nat, u: string, unit: string)
    requires 0 < n <= |s| && (forall i :: 0 <= i < n ==> NumberChar(s[i])) && u <= s[n..] && Same(u, unit)
    requires unit == "px" || unit == "rem" || unit == "em"
    ensures IsLength(s[..n + |unit|]) && s == s[..n + |unit|] + s[n..][|unit|..]
  {
    assert s[..n + |unit|] == s[..n] + u by { PrefixPieces(s, n, u); }
    LengthOf(s[..n], u, unit);
  }

  lemma PrefixPieces(s: string, n: nat, u: string)
    requires n <= |s| && u <= s[n..]
    ensures s[..n + |u|] == s[..n] + u
  {
  }

  lemma LengthOf(n: string, u: string, unit: string)
    requires n != "" && (forall i :: 0 <= i < |n| ==> NumberChar(n[i])) && Same(u, unit)
    requires unit == "px" || unit == "rem" || unit == "em"
    ensures IsLength(n + u)
  {
    hide Same, NumberChar;
    assert LengthParts(n + u, n, u);
  }

  /** A length starts with a digit or a point, which is neither space nor sign nor letter. */
  lemma LengthStart(l: string)
    requires IsLength(l)
    ensures l != "" && NumberChar(l[0]) && !ScriptSpace(l[0]) && l[0] != '=' && LowerCase(l[0]) != 'm' && LowerCase(l[0]) != 'w'
    ensures LowerCase(l[0]) != 'a' && l[0] != '<' && l[0] != '>' && l[0] != ':'
  {
    hide Same;
    var n, u :| LengthParts(l, n, u);
    assert l[0] == n[0];
  }

  // ----- the seven written forms -----

  /** A feature as it is written; `a` to `e` are spaces and the words stand in any case. */
  datatype Written =
    | MaxWidth(a: string, word: string, b: string, c: string, length: string, d: string)
    | MinWidth(a: string, word: string, b: string, c: string, length: string, d: string)
    | WidthBelow(a: string, word: string, b: string, strict: bool, c: string, length: string, d: string)
    | LengthAbove(a: string, length: string, b: string, strict: bool, c: string, word: string, d: string)
    | WidthAbove(a: string, word: string, b: string, strict: bool, c: string, length: string, d: string)
    | LengthBelow(a: string, length: string, b: string, strict: bool, c: string, word: string, d: string)
    | Range(a: string, low: string, b: string, lowStrict: bool, c: string, word: string, d: string,
            highStrict: bool, e: string, high: string, f: string)

  function Spelled(w: Written): string {
    match w
    case MaxWidth(a, x, b, c, l, d) => "(" + (a + (x + (b + (":" + (c + (l + (d + ")")))))))
    case MinWidth(a, x, b, c, l, d) => "(" + (a + (x + (b + (":" + (c + (l + (d + ")")))))))
    case WidthBelow(a, x, b, strict, c, l, d) => "(" + (a + (x + (b + (Sign('<', strict) + (c + (l + (d + ")")))))))
    case LengthAbove(a, l, b, strict, c, x, d) => "(" + (a + (l + (b + (Sign('>', strict) + (c + (x + (d + ")")))))))
    case WidthAbove(a, x, b, strict, c, l, d) => "(" + (a + (x + (b + (Sign('>', strict) + (c + (l + (d + ")")))))))
    case LengthBelow(a, l, b, strict, c, x, d) => "(" + (a + (l + (b + (Sign('<', strict) + (c + (x + (d + ")")))))))
    case Range(a, low, b, lowStrict, c, x, d, highStrict, e, high, f) =>
      "(" + (a + (low + (b + (Sign('<', lowStrict) + (c + (x + (d + (Sign('<', highStrict) + (e + (high + (f + ")")))))))))))
  }

  ghost predicate WellWritten(w: Written) {
    match w
    case MaxWidth(a, x, b, c, l, d) => Spaces(a) && Same(x, "max-width") && Spaces(b) && Spaces(c) && IsLength(l) && Spaces(d)
    case MinWidth(a, x, b, c, l, d) => Spaces(a) && Same(x, "min-width") && Spaces(b) && Spaces(c) && IsLength(l) && Spaces(d)
    case WidthBelow(a, x, b, _, c, l, d) => Spaces(a) && Same(x, "width") && Spaces(b) && Spaces(c) && IsLength(l) && Spaces(d)
    case LengthAbove(a, l, b, _, c, x, d) => Spaces(a) && IsLength(l) && Spaces(b) && Spaces(c) && Same(x, "width") && Spaces(d)
    case WidthAbove(a, x, b, _, c, l, d) => Spaces(a) && Same(x, "width") && Spaces(b) && Spaces(c) && IsLength(l) && Spaces(d)
    case LengthBelow(a, l, b, _, c, x, d) => Spaces(a) && IsLength(l) && Spaces(b) && Spaces(c) && Same(x, "width") && Spaces(d)
    case Range(a, low, b, _, c, x, d, _, e, high, f) =>
      Spaces(a) && IsLength(low) && Spaces(b) && Spaces(c) && Same(x, "width") && Spaces(d) && Spaces(e) && IsLength(high) && Spaces(f)
  }

  /** What a written feature means for the width. */
  function Meaning(w: Written): Bound {
    match w
    case MaxWidth(_, _, _, _, l, _) => Upper(l, false)
    case MinWidth(_, _, _, _, l, _) => Lower(l, false)
    case WidthBelow(_, _, _, strict, _, l, _) => Upper(l, strict)
    case LengthAbove(_, l, _, strict, _, _, _) => Upper(l, strict)
    case WidthAbove(_, _, _, strict, _, l, _) => Lower(l, strict)
    case LengthBelow(_, l, _, strict, _, _, _) => Lower(l, strict)
    case Range(_, low, _, lowStrict, _, _, _, highStrict, _, high, _) => Between(low, lowStrict, high, highStrict)
  }

  // ----- reading what is written -----

  lemma ClosesWritten(d: string)
    requires Spaces(d)
    ensures Closes(d + ")")
  {
    SkipOver(d, ")");
  }

  lemma LastLengthWritten(c: string, l: string, d: string)
    requires Spaces(c) && IsLength(l) && Spaces(d)
    ensures LastLength(c + (l + (d + ")"))) == Some(l)
  {
    hide IsLength, ScriptSpace, LengthAt, SkipSpace, NumberChar;
    LengthStart(l);
    assert (l + (d + ")"))[0] == l[0];
    SkipOver(c, l + (d + ")"));
    LengthWritten(l, d + ")");
    ClosesWritten(d);
  }

  lemma AfterColonWritten(b: string, c: string, l: string, d: string)
    requires Spaces(b) && Spaces(c) && IsLength(l) && Spaces(d)
    ensures AfterColon(b + (":" + (c + (l + (d + ")"))))) == Some(l)
  {
    hide IsLength, LastLength, SkipSpace;
    var t := ":" + (c + (l + (d + ")")));
    assert t[0] == ':' && t[1..] == c + (l + (d + ")"));
    SkipOver(b, t);
    LastLengthWritten(c, l, d);
  }

  lemma CompareWritten(sign: char, strict: bool, r: string)
    requires r == "" || r[0] != '='
    ensures CompareAt(Sign(sign, strict) + r, sign) == Some((strict, r))
    ensures forall other :: other != sign ==> CompareAt(Sign(sign, strict) + r, other) == None
  {
    var s := Sign(sign, strict) + r;
    assert s[0] == sign;
    assert s[|Sign(sign, strict)|..] == r;
  }

  /** Spaces and what follows them do not start with `=` unless what follows does. */
  lemma SpacesFirst(c: string, r: string)
    requires Spaces(c) && (r != "" ==> r[0] != '=')
    ensures c + r == "" || (c + r)[0] != '='
  {
    if c != "" {
      assert ScriptSpace(c[0]);
    }
  }

  lemma WordStart(x: string, w: string)
    requires Same(x, w) && (w == "max-width" || w == "min-width" || w == "width")
    ensures x != "" && !ScriptSpace(x[0]) && LowerCase(x[0]) == w[0] && x[0] != '=' && !NumberChar(x[0])
  {
  }

  lemma MaxMinDiffer(x: string, w: string, r: string)
    requires Same(x, w) && (w == "max-width" || w == "min-width" || w == "width")
    ensures w != "max-width" ==> AfterWord(x + r, "max-width") == None
    ensures w != "min-width" ==> AfterWord(x + r, "min-width") == None
    ensures w != "width" ==> AfterWord(x + r, "width") == None
  {
    var s := x + r;
    assert s[0] == x[0] && s[1] == x[1];
    assert LowerCase(x[1]) == w[1];
    if w != "max-width" { SecondDiffers(s, "max-width"); }
    if w != "min-width" { SecondDiffers(s, "min-width"); }
    if w != "width" { SecondDiffers(s, "width"); }
  }

  lemma SecondDiffers(s: string, w: string)
    requires |s| >= 2 && |w| >= 2 && (LowerCase(s[0]) != w[0] || LowerCase(s[1]) != w[1])
    ensures AfterWord(s, w) == None
  {
    hide LowerCase;
    if LowerCase(s[0]) == w[0] {
      OtherFirst(s[1..], w[1..]);
    }
  }

  /** After the opening parenthesis and its spaces. */
  lemma Opened(a: string, s: string)
    requires Spaces(a) && s != "" && !ScriptSpace(s[0])
    ensures var part := "(" + (a + s); part[0] == '(' && SkipSpace(part[1..]) == s
  {
    var part := "(" + (a + s);
    assert part[1..] == a + s;
    SkipOver(a, s);
  }

  lemma WordFeature(a: string, x: string, w: string, rest: string)
    requires Spaces(a) && Same(x, w) && (w == "max-width" || w == "min-width" || w == "width")
    ensures Feature("(" + (a + (x + rest))) ==
            if w == "width" then WidthFirst(SkipSpace(rest))
            else if AfterColon(rest).None? then None
            else if w == "max-width" then Some(Upper(AfterColon(rest).value, false))
            else Some(Lower(AfterColon(rest).value, false))
  {
    hide Same, AfterWord, AfterColon, WidthFirst, LengthFirst, LengthAt, ScriptSpace, SkipSpace, Spaces;
    WordStart(x, w);
    assert (x + rest)[0] == x[0];
    Opened(a, x + rest);
    WordWritten(x, w, rest);
    MaxMinDiffer(x, w, rest);
    assert "max-width" != "min-width" && "max-width" != "width" && "min-width" != "width" by { WordsDiffer(); }
  }

  lemma WordsDiffer()
    ensures "max-width" != "min-width" && "max-width" != "width" && "min-width" != "width"
  {
    assert "max-width"[1] == 'a' && "min-width"[1] == 'i' && |"width"| == 5;
  }

  lemma LengthFeature(a: string, l: string, rest: string)
    requires Spaces(a) && IsLength(l)
    ensures Feature("(" + (a + (l + rest))) == LengthFirst(l, SkipSpace(rest))
  {
    hide AfterColon, WidthFirst, LengthFirst, LengthAt, ScriptSpace, SkipSpace, Spaces, IsLength, LowerCase, NumberChar;
    LengthStart(l);
    var s := l + rest;
    assert s[0] == l[0];
    Opened(a, s);
    LengthWritten(l, rest);
    OtherFirst(s, "max-width");
    OtherFirst(s, "min-width");
    OtherFirst(s, "width");
  }

  lemma SignSkipped(b: string, sign: char, strict: bool, r: string)
    requires Spaces(b) && (sign == '<' || sign == '>')
    ensures SkipSpace(b + (Sign(sign, strict) + r)) == Sign(sign, strict) + r
  {
    var s := Sign(sign, strict) + r;
    assert s[0] == sign;
    SkipOver(b, s);
  }

  lemma WidthFirstWritten(sign: char, strict: bool, c: string, l: string, d: string)
    requires (sign == '<' || sign == '>') && Spaces(c) && IsLength(l) && Spaces(d)
    ensures WidthFirst(Sign(sign, strict) + (c + (l + (d + ")")))) ==
            Some(if sign == '<' then Upper(l, strict) else Lower(l, strict))
  {
    hide LastLength, CompareAt, Sign, IsLength, Spaces, NumberChar;
    LengthStart(l);
    var r := l + (d + ")");
    assert r[0] == l[0];
    SpacesFirst(c, r);
    CompareWritten(sign, strict, c + r);
    LastLengthWritten(c, l, d);
  }

  lemma WordAfterSign(c: string, x: string, rest: string)
    requires Spaces(c) && Same(x, "width")
    ensures AfterWord(SkipSpace(c + (x + rest)), "width") == Some(rest) && (c + (x + rest))[0] != '='
  {
    hide Same, AfterWord, SkipSpace;
    WordStart(x, "width");
    assert (x + rest)[0] == x[0];
    SkipOver(c, x + rest);
    WordWritten(x, "width", rest);
    SpacesFirst(c, x + rest);
  }

  lemma LengthFirstWritten(l: string, sign: char, strict: bool, c: string, x: string, d: string)
    requires (sign == '<' || sign == '>') && Spaces(c) && Same(x, "width") && Spaces(d)
    ensures LengthFirst(l, Sign(sign, strict) + (c + (x + (d + ")")))) ==
            Some(if sign == '>' then Upper(l, strict) else Lower(l, strict))
  {
    hide CompareAt, Sign, Same, AfterWord, SkipSpace, Closes, Spaces;
    WordAfterSign(c, x, d + ")");
    CompareWritten(sign, strict, c + (x + (d + ")")));
    ClosesWritten(d);
  }

  lemma RangeNotClosed(d: string, strict: bool, rest: string)
    requires Spaces(d)
    ensures !Closes(d + (Sign('<', strict) + rest))
  {
    SignSkipped(d, '<', strict, rest);
    assert (Sign('<', strict) + rest)[0] == '<';
  }

  lemma RangeWritten(low: string, lowStrict: bool, c: string, x: string, d: string, highStrict: bool, e: string, high: string, f: string)
    requires Spaces(c) && Same(x, "width") && Spaces(d) && Spaces(e) && IsLength(high) && Spaces(f)
    ensures LengthFirst(low, Sign('<', lowStrict) + (c + (x + (d + (Sign('<', highStrict) + (e + (high + (f + ")")))))))) ==
            Some(Between(low, lowStrict, high, highStrict))
  {
    hide CompareAt, Sign, Same, AfterWord, SkipSpace, Closes, Spaces, IsLength, LastLength, NumberChar;
    var tail := e + (high + (f + ")"));
    var after := d + (Sign('<', highStrict) + tail);
    WordAfterSign(c, x, after);
    CompareWritten('<', lowStrict, c + (x + after));
    RangeNotClosed(d, highStrict, tail);
    SignSkipped(d, '<', highStrict, tail);
    LengthStart(high);
    assert (high + (f + ")"))[0] == high[0];
    SpacesFirst(e, high + (f + ")"));
    CompareWritten('<', highStrict, tail);
    LastLengthWritten(e, high, f);
  }

  /** Reading undoes writing: each of the seven forms is read as what it means. */
  lemma FeatureRead(w: Written)
    requires WellWritten(w)
    ensures Feature(Spelled(w)) == Some(Meaning(w))
  {
    hide Feature, Same, Spaces, IsLength, AfterColon, WidthFirst, LengthFirst, SkipSpace, Sign;
    WordsDiffer();
    match w
    case MaxWidth(a, x, b, c, l, d) =>
      WordFeature(a, x, "max-width", b + (":" + (c + (l + (d + ")")))));
      AfterColonWritten(b, c, l, d);
    case MinWidth(a, x, b, c, l, d) =>
      WordFeature(a, x, "min-width", b + (":" + (c + (l + (d + ")")))));
      AfterColonWritten(b, c, l, d);
    case WidthBelow(a, x, b, strict, c, l, d) =>
      WordFeature(a, x, "width", b + (Sign('<', strict) + (c + (l + (d + ")")))));
      SignSkipped(b, '<', strict, c + (l + (d + ")")));
      WidthFirstWritten('<', strict, c, l, d);
    case WidthAbove(a, x, b, strict, c, l, d) =>
      WordFeature(a, x, "width", b + (Sign('>', strict) + (c + (l + (d + ")")))));
      SignSkipped(b, '>', strict, c + (l + (d + ")")));
      WidthFirstWritten('>', strict, c, l, d);
    case LengthAbove(a, l, b, strict, c, x, d) =>
      LengthFeature(a, l, b + (Sign('>', strict) + (c + (x + (d + ")")))));
      SignSkipped(b, '>', strict, c + (x + (d + ")")));
      LengthFirstWritten(l, '>', strict, c, x, d);
    case LengthBelow(a, l, b, strict, c, x, d) =>
      LengthFeature(a, l, b + (Sign('<', strict) + (c + (x + (d + ")")))));
      SignSkipped(b, '<', strict, c + (x + (d + ")")));
      LengthFirstWritten(l, '<', strict, c, x, d);
    case Range(a, low, b, lowStrict, c, x, d, highStrict, e, high, f) =>
      var rest := c + (x + (d + (Sign('<', highStrict) + (e + (high + (f + ")"))))));
      LengthFeature(a, low, b + (Sign('<', lowStrict) + rest));
      SignSkipped(b, '<', lowStrict, rest);
      RangeWritten(low, lowStrict, c, x, d, highStrict, e, high, f);
  }

  // ----- nothing else is read as a feature -----

  lemma ClosesRead(s: string) returns (d: string)
    requires Closes(s)
    ensures Spaces(d) && s == d + ")"
  {
    SkipParts(s);
    d := s[..|s| - |SkipSpace(s)|];
  }

  lemma LastLengthRead(s: string) returns (c: string, d: string)
    requires LastLength(s).Some?
    ensures Spaces(c) && IsLength(LastLength(s).value) && Spaces(d) && s == c + (LastLength(s).value + (d + ")"))
  {
    hide Closes, LengthAt, SkipSpace, IsLength, Spaces;
    var t := SkipSpace(s);
    SkipParts(s);
    c := s[..|s| - |t|];
    LengthRead(t);
    d := ClosesRead(LengthAt(t).value.1);
  }

  lemma AfterColonRead(s: string) returns (b: string, c: string, d: string)
    requires AfterColon(s).Some?
    ensures Spaces(b) && Spaces(c) && IsLength(AfterColon(s).value) && Spaces(d)
    ensures s == b + (":" + (c + (AfterColon(s).value + (d + ")"))))
  {
    hide LastLength, SkipSpace, IsLength, Spaces;
    var t := SkipSpace(s);
    SkipParts(s);
    b := s[..|s| - |t|];
    c, d := LastLengthRead(t[1..]);
    assert t == ":" + t[1..];
  }

  lemma CompareRead(s: string, sign: char)
    requires CompareAt(s, sign).Some?
    ensures s == Sign(sign, CompareAt(s, sign).value.0) + CompareAt(s, sign).value.1
  {
  }

  lemma WidthFirstRead(s: string) returns (strict: bool, c: string, d: string, l: string)
    requires WidthFirst(s).Some?
    ensures Spaces(c) && IsLength(l) && Spaces(d)
    ensures (WidthFirst(s) == Some(Upper(l, strict)) && s == Sign('<', strict) + (c + (l + (d + ")")))) ||
            (WidthFirst(s) == Some(Lower(l, strict)) && s == Sign('>', strict) + (c + (l + (d + ")"))))
  {
    hide LastLength, CompareAt, Sign, IsLength, Spaces;
    var sign := if CompareAt(s, '<').Some? then '<' else '>';
    CompareRead(s, sign);
    strict := CompareAt(s, sign).value.0;
    var r := CompareAt(s, sign).value.1;
    l := LastLength(r).value;
    c, d := LastLengthRead(r);
  }

  /** The word `width` after spaces. */
  lemma SpacedWordRead(s: string, w: string) returns (c: string, x: string)
    requires AfterWord(SkipSpace(s), w).Some?
    ensures Spaces(c) && Same(x, w) && s == c + (x + AfterWord(SkipSpace(s), w).value)
  {
    hide SkipSpace, AfterWord, Same, Spaces;
    var t := SkipSpace(s);
    SkipParts(s);
    c := s[..|s| - |t|];
    x := WordRead(t, w);
  }

  lemma MoreLengthRead(length: string, s: string) returns (strict: bool, c: string, x: string, d: string)
    requires CompareAt(s, '>').Some? && LengthFirst(length, s).Some?
    ensures Spaces(c) && Same(x, "width") && Spaces(d)
    ensures LengthFirst(length, s) == Some(Upper(length, strict)) && s == Sign('>', strict) + (c + (x + (d + ")")))
  {
    hide CompareAt, Sign, Same, AfterWord, SkipSpace, Closes, Spaces;
    CompareRead(s, '>');
    strict := CompareAt(s, '>').value.0;
    var r := CompareAt(s, '>').value.1;
    c, x := SpacedWordRead(r, "width");
    d := ClosesRead(AfterWord(SkipSpace(r), "width").value);
  }

  lemma LessLengthRead(length: string, s: string) returns (strict: bool, c: string, x: string, d: string)
    requires CompareAt(s, '>').None? && LengthFirst(length, s).Some? && LengthFirst(length, s).value.Lower?
    ensures Spaces(c) && Same(x, "width") && Spaces(d)
    ensures LengthFirst(length, s) == Some(Lower(length, strict)) && s == Sign('<', strict) + (c + (x + (d + ")")))
  {
    hide CompareAt, Sign, Same, AfterWord, SkipSpace, Closes, Spaces, LastLength;
    CompareRead(s, '<');
    strict := CompareAt(s, '<').value.0;
    var r := CompareAt(s, '<').value.1;
    c, x := SpacedWordRead(r, "width");
    d := ClosesRead(AfterWord(SkipSpace(r), "width").value);
  }

  lemma RangeRead(low: string, s: string)
    returns (lowStrict: bool, c: string, x: string, d: string, highStrict: bool, e: string, high: string, f: string)
    requires CompareAt(s, '>').None? && LengthFirst(low, s).Some? && !LengthFirst(low, s).value.Lower?
    ensures Spaces(c) && Same(x, "width") && Spaces(d) && Spaces(e) && IsLength(high) && Spaces(f)
    ensures LengthFirst(low, s) == Some(Between(low, lowStrict, high, highStrict))
    ensures s == Sign('<', lowStrict) + (c + (x + (d + (Sign('<', highStrict) + (e + (high + (f + ")")))))))
  {
    hide CompareAt, Sign, Same, AfterWord, SkipSpace, Closes, Spaces, LastLength, IsLength;
    CompareRead(s, '<');
    lowStrict := CompareAt(s, '<').value.0;
    var r := CompareAt(s, '<').value.1;
    c, x := SpacedWordRead(r, "width");
    var after := AfterWord(SkipSpace(r), "width").value;
    var t := SkipSpace(after);
    SkipParts(after);
    d := after[..|after| - |t|];
    CompareRead(t, '<');
    highStrict := CompareAt(t, '<').value.0;
    var u := CompareAt(t, '<').value.1;
    high := LastLength(u).value;
    e, f := LastLengthRead(u);
  }

  lemma ColonFeatureRead(part: string, a: string, w: string) returns (written: Written)
    requires part != "" && part[0] == '(' && Spaces(a) && part[1..] == a + SkipSpace(part[1..])
    requires w == "max-width" || w == "min-width"
    requires var s := SkipSpace(part[1..]); AfterWord(s, w).Some? && AfterColon(AfterWord(s, w).value).Some?
    ensures WellWritten(written) && Spelled(written) == part
    ensures var l := AfterColon(AfterWord(SkipSpace(part[1..]), w).value).value;
            Meaning(written) == if w == "max-width" then Upper(l, false) else Lower(l, false)
  {
    hide SkipSpace, AfterWord, AfterColon, Same, Spaces, IsLength, Sign;
    var s := SkipSpace(part[1..]);
    var x := WordRead(s, w);
    var rest := AfterWord(s, w).value;
    var b, c, d := AfterColonRead(rest);
    var l := AfterColon(rest).value;
    written := if w == "max-width" then MaxWidth(a, x, b, c, l, d) else MinWidth(a, x, b, c, l, d);
    assert part == "(" + part[1..];
  }

  lemma WidthFeatureRead(part: string, a: string) returns (written: Written)
    requires part != "" && part[0] == '(' && Spaces(a) && part[1..] == a + SkipSpace(part[1..])
    requires var s := SkipSpace(part[1..]);
             AfterWord(s, "width").Some? && WidthFirst(SkipSpace(AfterWord(s, "width").value)).Some?
    ensures WellWritten(written) && Spelled(written) == part
    ensures Some(Meaning(written)) == WidthFirst(SkipSpace(AfterWord(SkipSpace(part[1..]), "width").value))
  {
    hide SkipSpace, AfterWord, WidthFirst, Same, Spaces, IsLength, Sign;
    var s := SkipSpace(part[1..]);
    var x := WordRead(s, "width");
    var rest := AfterWord(s, "width").value;
    var t := SkipSpace(rest);
    SkipParts(rest);
    var b := rest[..|rest| - |t|];
    var strict, c, d, l := WidthFirstRead(t);
    written := if WidthFirst(t) == Some(Upper(l, strict)) then WidthBelow(a, x, b, strict, c, l, d)
               else WidthAbove(a, x, b, strict, c, l, d);
    assert part == "(" + part[1..];
  }

  lemma LengthFeatureRead(part: string, a: string) returns (written: Written)
    requires part != "" && part[0] == '(' && Spaces(a) && part[1..] == a + SkipSpace(part[1..])
    requires var s := SkipSpace(part[1..]);
             LengthAt(s).Some? && LengthFirst(LengthAt(s).value.0, SkipSpace(LengthAt(s).value.1)).Some?
    ensures WellWritten(written) && Spelled(written) == part
    ensures var at := LengthAt(SkipSpace(part[1..])).value; Some(Meaning(written)) == LengthFirst(at.0, SkipSpace(at.1))
  {
    hide SkipSpace, LengthAt, LengthFirst, Same, Spaces, IsLength, Sign, CompareAt;
    var s := SkipSpace(part[1..]);
    LengthRead(s);
    var l, rest := LengthAt(s).value.0, LengthAt(s).value.1;
    var t := SkipSpace(rest);
    SkipParts(rest);
    var b := rest[..|rest| - |t|];
    assert part == "(" + part[1..];
    if CompareAt(t, '>').Some? {
      var strict, c, x, d := MoreLengthRead(l, t);
      written := LengthAbove(a, l, b, strict, c, x, d);
    } else if LengthFirst(l, t).value.Lower? {
      var strict, c, x, d := LessLengthRead(l, t);
      written := LengthBelow(a, l, b, strict, c, x, d);
    } else {
      var lowStrict, c, x, d, highStrict, e, high, f := RangeRead(l, t);
      written := Range(a, l, b, lowStrict, c, x, d, highStrict, e, high, f);
    }
  }

  /** What is read as a feature is written in one of the seven forms, with that meaning. */
  lemma FeatureWritten(part: string) returns (w: Written)
    requires Feature(part).Some?
    ensures WellWritten(w) && Spelled(w) == part && Feature(part) == Some(Meaning(w))
  {
    hide SkipSpace, AfterWord, AfterColon, WidthFirst, LengthFirst, LengthAt, WellWritten, Spelled, Meaning;
    var s := SkipSpace(part[1..]);
    SkipParts(part[1..]);
    var a := part[1..][..|part[1..]| - |s|];
    if AfterWord(s, "max-width").Some? {
      w := ColonFeatureRead(part, a, "max-width");
    } else if AfterWord(s, "min-width").Some? {
      WordsDiffer();
      w := ColonFeatureRead(part, a, "min-width");
    } else if AfterWord(s, "width").Some? {
      w := WidthFeatureRead(part, a);
    } else {
      w := LengthFeatureRead(part, a);
    }
  }

  /** The seven patterns, exactly: a part is a feature with a bound when it is written in one of the seven
      forms, in any case and with any spaces, that mean this bound. */
  lemma FeatureExactly(part: string, bound: Bound)
    ensures Feature(part) == Some(bound) <==> exists w :: WellWritten(w) && Spelled(w) == part && Meaning(w) == bound
  {
    hide Feature, WellWritten, Spelled, Meaning;
    if Feature(part) == Some(bound) {
      var w := FeatureWritten(part);
    }
    if w :| WellWritten(w) && Spelled(w) == part && Meaning(w) == bound {
      FeatureRead(w);
    }
  }

  // ----- features joined by `and` -----

  /** White space, `and` in any case, white space. */
  ghost predicate IsSeparator(s: string) {
    exists a, x, b :: SeparatorParts(s, a, x, b)
  }

  predicate SeparatorParts(s: string, a: string, x: string, b: string) {
    s == a + (x + b) && a != "" && Spaces(a) && Same(x, "and") && b != "" && Spaces(b)
  }

  function Joined(texts: seq<string>, seps: seq<string>): string
    requires |texts| == |seps| + 1
  {
    if |texts| == 1 then texts[0] else texts[0] + (seps[0] + Joined(texts[1..], seps[1..]))
  }

  function SpelledAll(ws: seq<Written>): (r: seq<string>)
    ensures |r| == |ws| && forall i :: 0 <= i < |ws| ==> r[i] == Spelled(ws[i])
  {
    if ws == [] then [] else [Spelled(ws[0])] + SpelledAll(ws[1..])
  }

  function Meanings(ws: seq<Written>): (r: seq<Bound>)
    ensures |r| == |ws| && forall i :: 0 <= i < |ws| ==> r[i] == Meaning(ws[i])
  {
    if ws == [] then [] else [Meaning(ws[0])] + Meanings(ws[1..])
  }

  ghost predicate AllWritten(ws: seq<Written>) { forall i :: 0 <= i < |ws| ==> WellWritten(ws[i]) }

  ghost predicate AllSeparators(seps: seq<string>) { forall i :: 0 <= i < |seps| ==> IsSeparator(seps[i]) }

  /** The condition is these features, joined by `and`, with spaces around. */
  ghost predicate Composed(condition: string, lead: string, ws: seq<Written>, seps: seq<string>, trail: string) {
    && Spaces(lead) && Spaces(trail) && AllWritten(ws) && AllSeparators(seps) && |ws| == |seps| + 1
    && condition == lead + Joined(SpelledAll(ws), seps) + trail
  }

  /** The condition is written with these bounds. */
  ghost predicate Writes(condition: string, bounds: seq<Bound>) {
    exists lead, ws, seps, trail :: Composed(condition, lead, ws, seps, trail) && Meanings(ws) == bounds
  }

  // No feature holds a separator: what follows white space inside it is no `a`.

  predicate Calm(s: string) {
    forall i :: 0 <= i < |s| && ScriptSpace(s[i]) ==> i + 1 < |s| && LowerCase(s[i + 1]) != 'a'
  }

  predicate Start(s: string) { s != "" && LowerCase(s[0]) != 'a' }

  predicate Solid(s: string) { forall i :: 0 <= i < |s| ==> !ScriptSpace(s[i]) }

  lemma SpaceNoLetter(c: char)
    requires ScriptSpace(c)
    ensures LowerCase(c) != 'a'
  {
  }

  lemma CalmSpaces(a: string, s: string)
    requires Spaces(a) && Calm(s) && Start(s)
    ensures Calm(a + s) && Start(a + s)
  {
    hide ScriptSpace, LowerCase;
    var t := a + s;
    forall i | 0 <= i < |t| && ScriptSpace(t[i]) ensures i + 1 < |t| && LowerCase(t[i + 1]) != 'a' {
      if i + 1 < |a| {
        SpaceNoLetter(a[i + 1]);
      } else if i >= |a| {
        assert t[i] == s[i - |a|];
      }
    }
    if a != "" { SpaceNoLetter(a[0]); }
  }

  lemma CalmSolid(x: string, s: string)
    requires Solid(x) && Calm(s)
    ensures Calm(x + s)
    ensures x != "" && Start(x) ==> Start(x + s)
  {
    hide ScriptSpace, LowerCase;
    var t := x + s;
    forall i | 0 <= i < |t| && ScriptSpace(t[i]) ensures i + 1 < |t| && LowerCase(t[i + 1]) != 'a' {
      assert i >= |x| ==> t[i] == s[i - |x|];
    }
  }

  lemma WordSolid(x: string, w: string)
    requires Same(x, w) && (w == "max-width" || w == "min-width" || w == "width")
    ensures Solid(x) && Start(x)
  {
    forall i | 0 <= i < |x| ensures !ScriptSpace(x[i]) {
      assert LowerCase(x[i]) == w[i];
      LettersOnly(w, i);
    }
    WordStart(x, w);
  }

  lemma LettersOnly(w: string, i: nat)
    requires (w == "max-width" || w == "min-width" || w == "width") && i < |w|
    ensures 'a' <= w[i] <= 'z' || w[i] == '-'
  {
  }

  lemma UnitSolid(u: string)
    requires Same(u, "px") || Same(u, "rem") || Same(u, "em")
    ensures Solid(u)
  {
    forall i | 0 <= i < |u| ensures !ScriptSpace(u[i]) {
      assert 'a' <= LowerCase(u[i]) <= 'z';
    }
  }

  lemma LengthSolid(l: string)
    requires IsLength(l)
    ensures Solid(l) && Start(l)
  {
    hide Same;
    var n, u :| LengthParts(l, n, u);
    UnitSolid(u);
    forall i | 0 <= i < |l| ensures !ScriptSpace(l[i]) {
      assert if i < |n| then l[i] == n[i] && NumberChar(n[i]) else l[i] == u[i - |n|];
    }
    LengthStart(l);
  }

  lemma SignSolid(sign: char, strict: bool)
    requires sign == '<' || sign == '>'
    ensures Solid(Sign(sign, strict)) && Start(Sign(sign, strict))
  {
  }

  lemma CalmEnd(d: string)
    requires Spaces(d)
    ensures Calm(d + ")") && Start(d + ")")
  {
    CalmSpaces(d, ")");
  }

  /** Spaces, then a solid piece. */
  lemma CalmPiece(a: string, x: string, s: string)
    requires Spaces(a) && Solid(x) && Start(x) && Calm(s)
    ensures Calm(a + (x + s)) && Start(a + (x + s))
  {
    hide Calm, Solid, Spaces, Start;
    CalmSolid(x, s);
    assert Start(x + s) by { StartCat(x, s); }
    CalmSpaces(a, x + s);
  }

  lemma StartCat(x: string, s: string)
    requires Start(x)
    ensures Start(x + s)
  {
    assert (x + s)[0] == x[0];
  }

  lemma SpelledCalm(w: Written)
    requires WellWritten(w)
    ensures Calm(Spelled(w))
  {
    hide Calm, Solid, Start, Spaces, Same, IsLength, Sign;
    PunctuationSolid();
    match w
    case MaxWidth(a, x, b, c, l, d) => ColonCalm(a, x, "max-width", b, c, l, d);
    case MinWidth(a, x, b, c, l, d) => ColonCalm(a, x, "min-width", b, c, l, d);
    case WidthBelow(a, x, b, strict, c, l, d) =>
      WordSolid(x, "width");
      LengthSolid(l);
      PiecesCalm(a, x, b, '<', strict, c, l, d);
    case LengthAbove(a, l, b, strict, c, x, d) =>
      WordSolid(x, "width");
      LengthSolid(l);
      PiecesCalm(a, l, b, '>', strict, c, x, d);
    case WidthAbove(a, x, b, strict, c, l, d) =>
      WordSolid(x, "width");
      LengthSolid(l);
      PiecesCalm(a, x, b, '>', strict, c, l, d);
    case LengthBelow(a, l, b, strict, c, x, d) =>
      WordSolid(x, "width");
      LengthSolid(l);
      PiecesCalm(a, l, b, '<', strict, c, x, d);
    case Range(a, low, b, lowStrict, c, x, d, highStrict, e, high, f) =>
      LengthSolid(low);
      LengthSolid(high);
      WordSolid(x, "width");
      SignSolid('<', lowStrict);
      SignSolid('<', highStrict);
      CalmEnd(f);
      CalmPiece(e, high, f + ")");
      var one := e + (high + (f + ")"));
      CalmPiece(d, Sign('<', highStrict), one);
      var two := d + (Sign('<', highStrict) + one);
      CalmPiece(c, x, two);
      var three := c + (x + two);
      CalmPiece(b, Sign('<', lowStrict), three);
      var four := b + (Sign('<', lowStrict) + three);
      CalmPiece(a, low, four);
      CalmSolid("(", a + (low + four));
  }

  lemma PunctuationSolid()
    ensures Solid("(") && Solid(":") && Start(":")
  {
  }

  lemma ColonCalm(a: string, x: string, w: string, b: string, c: string, l: string, d: string)
    requires Spaces(a) && Same(x, w) && (w == "max-width" || w == "min-width") && Spaces(b) && Spaces(c) && IsLength(l) && Spaces(d)
    ensures Calm("(" + (a + (x + (b + (":" + (c + (l + (d + ")"))))))))
  {
    hide Calm, Solid, Start, Spaces, Same, IsLength;
    PunctuationSolid();
    WordSolid(x, w);
    LengthSolid(l);
    CalmEnd(d);
    CalmPiece(c, l, d + ")");
    var one := c + (l + (d + ")"));
    CalmPiece(b, ":", one);
    var two := b + (":" + one);
    CalmPiece(a, x, two);
    CalmSolid("(", a + (x + two));
  }

  lemma PiecesCalm(a: string, x: string, b: string, sign: char, strict: bool, c: string, y: string, d: string)
    requires Spaces(a) && Solid(x) && Start(x) && Spaces(b) && (sign == '<' || sign == '>')
    requires Spaces(c) && Solid(y) && Start(y) && Spaces(d)
    ensures Calm("(" + (a + (x + (b + (Sign(sign, strict) + (c + (y + (d + ")"))))))))
  {
    hide Calm, Solid, Start, Spaces, Sign;
    PunctuationSolid();
    SignSolid(sign, strict);
    CalmEnd(d);
    CalmPiece(c, y, d + ")");
    var one := c + (y + (d + ")"));
    CalmPiece(b, Sign(sign, strict), one);
    var two := b + (Sign(sign, strict) + one);
    CalmPiece(a, x, two);
    CalmSolid("(", a + (x + two));
  }

  // ----- splitting at the separators -----

  lemma {:induction false} CalmSkip(s: string, tail: string)
    requires Calm(s) && s != ""
    ensures var t := SkipSpace(s + tail);
            t != "" && (ScriptSpace(s[0]) ==> LowerCase(t[0]) != 'a') && (!ScriptSpace(s[0]) ==> t == s + tail)
    decreases |s|
  {
    hide ScriptSpace, LowerCase;
    var whole := s + tail;
    assert whole[0] == s[0];
    if ScriptSpace(s[0]) {
      assert whole[1..] == s[1..] + tail;
      assert |s| > 1 && LowerCase(s[1]) != 'a';
      CalmRest(s);
      CalmSkip(s[1..], tail);
      assert s[1..][0] == s[1] && (s[1..] + tail)[0] == s[1];
    }
  }

  lemma CalmRest(s: string)
    requires Calm(s) && s != ""
    ensures Calm(s[1..])
  {
    hide ScriptSpace, LowerCase;
    forall i | 0 <= i < |s| - 1 && ScriptSpace(s[1..][i]) ensures i + 1 < |s| - 1 && LowerCase(s[1..][i + 1]) != 'a' {
      assert s[1..][i] == s[i + 1];
    }
  }

  lemma NoSeparatorHere(s: string, tail: string)
    requires Calm(s) && s != ""
    ensures Separator(s + tail) == 0
  {
    hide ScriptSpace, LowerCase, SkipSpace, Calm;
    CalmSkip(s, tail);
    var t := SkipSpace(s + tail);
    if ScriptSpace(s[0]) {
      OtherFirst(t, "and");
    }
  }

  /** A calm text is collected as it is. */
  lemma {:induction false} Collected(s: string, tail: string, current: string)
    requires Calm(s)
    ensures ConjunctsFrom(s + tail, current) == ConjunctsFrom(tail, current + s)
    decreases |s|
  {
    hide Calm, Separator;
    if s == "" {
      assert s + tail == tail && current + s == current;
    } else {
      NoSeparatorHere(s, tail);
      CalmRest(s);
      assert (s + tail)[0] == s[0] && (s + tail)[1..] == s[1..] + tail;
      Collected(s[1..], tail, current + [s[0]]);
      assert current + [s[0]] + s[1..] == current + s;
    }
  }

  lemma SeparatorLength(sep: string, r: string)
    requires IsSeparator(sep) && r != "" && !ScriptSpace(r[0])
    ensures Separator(sep + r) == |sep| && sep != "" && (sep + r)[|sep|..] == r
  {
    hide Same, AfterWord, ScriptSpace, LowerCase, SkipSpace;
    var a, x, b :| SeparatorParts(sep, a, x, b);
    var u := b + r;
    AndStart(x);
    assert sep + r == a + (x + u) && (x + u)[0] == x[0];
    SkipOver(a, x + u);
    WordWritten(x, "and", u);
    assert (x + u)[3..] == u;
    SkipOver(b, r);
  }

  lemma AndStart(x: string)
    requires Same(x, "and")
    ensures |x| == 3 && !ScriptSpace(x[0])
  {
    assert LowerCase(x[0]) == 'a';
  }

  predicate Shut(s: string) { s != "" && s[0] == '(' && s[|s| - 1] == ')' }

  predicate EndsShut(s: string) { s != "" && s[|s| - 1] == ')' }

  lemma EndsLater(x: string, s: string)
    requires EndsShut(s)
    ensures EndsShut(x + s)
  {
  }

  lemma OpensShut(s: string)
    requires EndsShut(s)
    ensures Shut("(" + s)
  {
  }

  lemma SixPieces(a: string, x: string, b: string, m: string, c: string, y: string, s: string)
    requires EndsShut(s)
    ensures EndsShut(a + (x + (b + (m + (c + (y + s))))))
  {
    hide EndsShut;
    EndsLater(y, s);
    EndsLater(c, y + s);
    EndsLater(m, c + (y + s));
    EndsLater(b, m + (c + (y + s)));
    EndsLater(x, b + (m + (c + (y + s))));
    EndsLater(a, x + (b + (m + (c + (y + s)))));
  }

  lemma SpelledShut(w: Written)
    ensures Shut(Spelled(w))
  {
    hide EndsShut, Shut, Sign;
    match w
    case MaxWidth(a, x, b, c, l, d) => OneShut(a, x, b, ":", c, l, d);
    case MinWidth(a, x, b, c, l, d) => OneShut(a, x, b, ":", c, l, d);
    case WidthBelow(a, x, b, strict, c, l, d) => OneShut(a, x, b, Sign('<', strict), c, l, d);
    case LengthAbove(a, l, b, strict, c, x, d) => OneShut(a, l, b, Sign('>', strict), c, x, d);
    case WidthAbove(a, x, b, strict, c, l, d) => OneShut(a, x, b, Sign('>', strict), c, l, d);
    case LengthBelow(a, l, b, strict, c, x, d) => OneShut(a, l, b, Sign('<', strict), c, x, d);
    case Range(a, low, b, lowStrict, c, x, d, highStrict, e, high, f) =>
      ClosedEnd(f);
      EndsLater(high, f + ")");
      EndsLater(e, high + (f + ")"));
      var s := e + (high + (f + ")"));
      EndsLater(Sign('<', highStrict), s);
      EndsLater(d, Sign('<', highStrict) + s);
      var t := d + (Sign('<', highStrict) + s);
      SixPieces(a, low, b, Sign('<', lowStrict), c, x, t);
      OpensShut(a + (low + (b + (Sign('<', lowStrict) + (c + (x + t))))));
  }

  lemma ClosedEnd(d: string)
    ensures EndsShut(d + ")")
  {
  }

  lemma OneShut(a: string, x: string, b: string, m: string, c: string, y: string, d: string)
    ensures Shut("(" + (a + (x + (b + (m + (c + (y + (d + ")"))))))))
  {
    hide EndsShut, Shut;
    ClosedEnd(d);
    SixPieces(a, x, b, m, c, y, d + ")");
    OpensShut(a + (x + (b + (m + (c + (y + (d + ")")))))));
  }

  lemma {:induction false} JoinedShut(texts: seq<string>, seps: seq<string>)
    requires |texts| == |seps| + 1 && forall i :: 0 <= i < |texts| ==> Shut(texts[i])
    ensures Shut(Joined(texts, seps))
  {
    if |texts| > 1 {
      JoinedShut(texts[1..], seps[1..]);
    }
  }

  lemma {:induction false} ConjunctsWritten(texts: seq<string>, seps: seq<string>)
    requires |texts| == |seps| + 1 && AllSeparators(seps)
    requires forall i :: 0 <= i < |texts| ==> Calm(texts[i]) && Shut(texts[i])
    ensures ConjunctsFrom(Joined(texts, seps), "") == texts
  {
    hide Calm, Separator, IsSeparator, ScriptSpace;
    assert "" + texts[0] == texts[0];
    if |texts| == 1 {
      Collected(texts[0], "", "");
      assert texts[0] + "" == texts[0];
      assert texts == [texts[0]];
    } else {
      var more := Joined(texts[1..], seps[1..]);
      ConjunctsWritten(texts[1..], seps[1..]);
      JoinedShut(texts[1..], seps[1..]);
      assert !ScriptSpace(more[0]) by { ParenthesisSolid(); }
      SeparatorLength(seps[0], more);
      Collected(texts[0], seps[0] + more, "");
      assert texts == [texts[0]] + texts[1..];
    }
  }

  lemma ParenthesisSolid()
    ensures !ScriptSpace('(') && !ScriptSpace(')')
  {
  }

  lemma ShutTrimmed(s: string)
    requires Shut(s)
    ensures Trimmed(s, ScriptSpace) && Trim(s) == s
  {
    ParenthesisSolid();
  }

  lemma {:induction false} BoundsOf(parts: seq<string>, bounds: seq<Bound>)
    requires |parts| == |bounds| && forall i :: 0 <= i < |parts| ==> Feature(Trim(parts[i])) == Some(bounds[i])
    ensures Bounds(parts) == Some(bounds)
  {
    hide Feature, Trim;
    if parts != [] {
      var n := |parts| - 1;
      BoundsOf(parts[..n], bounds[..n]);
      assert bounds == bounds[..n] + [bounds[n]];
    } else {
      assert bounds == [];
    }
  }

  lemma BoundsWritten(ws: seq<Written>)
    requires AllWritten(ws)
    ensures Bounds(SpelledAll(ws)) == Some(Meanings(ws))
  {
    hide WellWritten, Feature, Trim, Spelled, Meaning, Shut, Bounds;
    var parts, bounds := SpelledAll(ws), Meanings(ws);
    forall i | 0 <= i < |ws| ensures Feature(Trim(parts[i])) == Some(bounds[i]) {
      FeatureRead(ws[i]);
      SpelledShut(ws[i]);
      ShutTrimmed(Spelled(ws[i]));
    }
    BoundsOf(parts, bounds);
  }

  lemma ComposedRead(condition: string, lead: string, ws: seq<Written>, seps: seq<string>, trail: string)
    requires Composed(condition, lead, ws, seps, trail)
    ensures Bounds(Conjuncts(condition)) == Some(Meanings(ws))
  {
    hide Spelled, WellWritten, IsSeparator, Joined, Bounds, ConjunctsFrom, Meaning, ScriptSpace, Calm;
    var texts := SpelledAll(ws);
    forall i | 0 <= i < |texts| ensures Calm(texts[i]) && Shut(texts[i]) {
      SpelledCalm(ws[i]);
      SpelledShut(ws[i]);
    }
    JoinedShut(texts, seps);
    ShutTrimmed(Joined(texts, seps));
    StripAround(lead, Joined(texts, seps), trail, ScriptSpace);
    ConjunctsWritten(texts, seps);
    BoundsWritten(ws);
  }

  // ----- what a condition with bounds looks like -----

  lemma SeparatorWritten(s: string)
    requires Separator(s) > 0
    ensures IsSeparator(s[..Separator(s)])
  {
    hide ScriptSpace, LowerCase, SkipSpace, AfterWord;
    var t := SkipSpace(s);
    SkipParts(s);
    var x := WordRead(t, "and");
    assert t[3..] == AfterWord(t, "and").value by { AndRest(t, x); }
    var u := SkipSpace(t[3..]);
    SkipParts(t[3..]);
    var a, b := s[..|s| - |t|], t[3..][..|t| - 3 - |u|];
    SeparatorPieces(s, t, x, a, b);
    assert SeparatorParts(s[..Separator(s)], a, x, b);
  }

  lemma AndRest(t: string, x: string)
    requires Same(x, "and") && AfterWord(t, "and").Some? && t == x + AfterWord(t, "and").value
    ensures t[3..] == AfterWord(t, "and").value
  {
  }

  lemma SeparatorPieces(s: string, t: string, x: string, a: string, b: string)
    requires |t| >= 3 && |x| == 3 && x <= t && s == a + t && b <= t[3..]
    ensures s[..|a| + 3 + |b|] == a + (x + b)
  {
    assert t[..3] == x && t == x + t[3..];
  }

  lemma {:induction false} ConjunctsRead(s: string, current: string) returns (seps: seq<string>)
    ensures AllSeparators(seps) && |ConjunctsFrom(s, current)| == |seps| + 1
    ensures current + s == Joined(ConjunctsFrom(s, current), seps)
    decreases |s|
  {
    hide Separator, IsSeparator;
    if s == "" {
      seps := [];
      assert current + s == current;
    } else if Separator(s) > 0 {
      var n := Separator(s);
      SeparatorWritten(s);
      var rest := ConjunctsRead(s[n..], "");
      seps := [s[..n]] + rest;
      assert "" + s[n..] == s[n..] && s == s[..n] + s[n..];
      var parts := ConjunctsFrom(s, current);
      assert parts[1..] == ConjunctsFrom(s[n..], "") && seps[1..] == rest;
    } else {
      seps := ConjunctsRead(s[1..], current + [s[0]]);
      assert current + [s[0]] + s[1..] == current + s;
    }
  }

  lemma {:induction false} BoundsAll(parts: seq<string>, i: nat)
    requires Bounds(parts).Some? && i < |parts|
    ensures |Bounds(parts).value| == |parts| && Feature(Trim(parts[i])) == Some(Bounds(parts).value[i])
  {
    hide Feature, Trim;
    var n := |parts| - 1;
    if i < n {
      BoundsAll(parts[..n], i);
    } else if n > 0 {
      BoundsAll(parts[..n], 0);
    }
  }

  lemma WiderSeparator(r: string, sep: string, l: string)
    requires Spaces(r) && IsSeparator(sep) && Spaces(l)
    ensures IsSeparator(r + (sep + l))
  {
    hide ScriptSpace, Same;
    var a, x, b :| SeparatorParts(sep, a, x, b);
    assert SeparatorParts(r + (sep + l), r + a, x, b + l);
  }

  lemma SpacesCat(a: string, b: string)
    requires Spaces(a) && Spaces(b)
    ensures Spaces(a + b)
  {
  }

  /** Parts that are features up to surrounding spaces: the spaces go to the separators. */
  lemma {:induction false} FoldParts(parts: seq<string>, seps: seq<string>)
    returns (lead: string, ws: seq<Written>, more: seq<string>, trail: string)
    requires |parts| == |seps| + 1 && AllSeparators(seps)
    requires forall i :: 0 <= i < |parts| ==> Feature(Trim(parts[i])).Some?
    ensures Composed(Joined(parts, seps), lead, ws, more, trail) && |ws| == |parts|
    ensures forall i :: 0 <= i < |parts| ==> Feature(Trim(parts[i])) == Some(Meaning(ws[i]))
  {
    hide Feature, Spelled, Meaning, WellWritten, IsSeparator, ScriptSpace, Composed, Strip, SpelledAll;
    var w := FeatureWritten(Trim(parts[0]));
    var l, r := StripParts(parts[0], ScriptSpace);
    if |parts| == 1 {
      lead, ws, more, trail := l, [w], [], r;
      FoldOne(l, w, r);
    } else {
      forall i | 0 <= i < |parts| - 1 ensures Feature(Trim(parts[1..][i])).Some? {
        assert parts[1..][i] == parts[i + 1];
      }
      assert AllSeparators(seps[1..]);
      var lead1, ws1, more1, trail1 := FoldParts(parts[1..], seps[1..]);
      lead, trail := l, trail1;
      ws, more := [w] + ws1, [r + (seps[0] + lead1)] + more1;
      FoldStep(l, w, r, seps[0], Joined(parts[1..], seps[1..]), lead1, ws1, more1, trail1);
      forall i | 0 <= i < |parts| ensures Feature(Trim(parts[i])) == Some(Meaning(ws[i])) {
        if i > 0 { assert parts[i] == parts[1..][i - 1] && ws[i] == ws1[i - 1]; }
      }
    }
  }

  lemma FoldOne(l: string, w: Written, r: string)
    requires Spaces(l) && WellWritten(w) && Spaces(r)
    ensures Composed(l + Spelled(w) + r, l, [w], [], r)
  {
    hide Spelled, WellWritten, Spaces;
    assert SpelledAll([w]) == [Spelled(w)];
  }

  lemma FoldStep(l: string, w: Written, r: string, sep: string, rest: string,
    lead: string, ws: seq<Written>, more: seq<string>, trail: string)
    requires Spaces(l) && WellWritten(w) && Spaces(r) && IsSeparator(sep) && Composed(rest, lead, ws, more, trail)
    ensures Composed((l + Spelled(w) + r) + (sep + rest), l, [w] + ws, [r + (sep + lead)] + more, trail)
  {
    hide Spelled, WellWritten, IsSeparator, Spaces;
    var all, seps := [w] + ws, [r + (sep + lead)] + more;
    WiderSeparator(r, sep, lead);
    FoldText(l, Spelled(w), r, sep, lead, Joined(SpelledAll(ws), more), trail);
    assert all[1..] == ws && seps[1..] == more;
    assert SpelledAll(all)[1..] == SpelledAll(ws);
    assert forall i :: 0 < i < |all| ==> all[i] == ws[i - 1];
    assert forall i :: 0 < i < |seps| ==> seps[i] == more[i - 1];
  }

  lemma FoldText(l: string, t: string, r: string, sep: string, lead: string, body: string, trail: string)
    ensures (l + t + r) + (sep + (lead + body + trail)) == l + (t + ((r + (sep + lead)) + body)) + trail
  {
  }

  lemma WidenComposed(a: string, text: string, b: string, lead: string, ws: seq<Written>, seps: seq<string>, trail: string)
    requires Spaces(a) && Spaces(b) && Composed(text, lead, ws, seps, trail)
    ensures Composed(a + text + b, a + lead, ws, seps, trail + b)
  {
    hide AllWritten, AllSeparators, Joined, Spaces;
    SpacesCat(a, lead);
    SpacesCat(trail, b);
    var body := Joined(SpelledAll(ws), seps);
    assert a + (lead + body + trail) + b == (a + lead) + body + (trail + b);
  }

  lemma MeaningsAre(ws: seq<Written>, bounds: seq<Bound>)
    requires |ws| == |bounds| && forall i :: 0 <= i < |ws| ==> Meaning(ws[i]) == bounds[i]
    ensures Meanings(ws) == bounds
  {
    hide Meaning;
  }

  lemma ConjunctsFeatures(parts: seq<string>, seps: seq<string>, bounds: seq<Bound>)
    returns (lead: string, ws: seq<Written>, more: seq<string>, trail: string)
    requires Bounds(parts) == Some(bounds) && |parts| == |seps| + 1 && AllSeparators(seps)
    ensures Composed(Joined(parts, seps), lead, ws, more, trail) && Meanings(ws) == bounds
  {
    hide Feature, Bounds, Trim, Composed, Joined, AllSeparators, Meaning, Meanings;
    forall i | 0 <= i < |parts| ensures |bounds| == |parts| && Feature(Trim(parts[i])) == Some(bounds[i]) {
      BoundsAll(parts, i);
    }
    lead, ws, more, trail := FoldParts(parts, seps);
    assert parts[0] == parts[0];
    MeaningsAre(ws, bounds);
  }

  lemma ConditionWritten(condition: string)
    requires Bounds(Conjuncts(condition)).Some?
    ensures Writes(condition, Bounds(Conjuncts(condition)).value)
  {
    hide Bounds, ConjunctsFrom, Composed, ScriptSpace, AllSeparators, Joined, Meanings, Strip;
    var text := Trim(condition);
    var parts, bounds := Conjuncts(condition), Bounds(Conjuncts(condition)).value;
    var a, b := StripParts(condition, ScriptSpace);
    var seps := ConjunctsRead(text, "");
    assert "" + text == text;
    var lead, ws, more, trail := ConjunctsFeatures(parts, seps, bounds);
    WidenComposed(a, text, b, lead, ws, more, trail);
  }

  /** A condition has these bounds exactly when it is written with them. */
  lemma ConditionExactly(condition: string, bounds: seq<Bound>)
    ensures Bounds(Conjuncts(condition)) == Some(bounds) <==> Writes(condition, bounds)
  {
    hide Bounds, Conjuncts, Composed, Meanings;
    if Bounds(Conjuncts(condition)).Some? {
      ConditionWritten(condition);
    }
    if Writes(condition, bounds) {
      var lead, ws, seps, trail :| Composed(condition, lead, ws, seps, trail) && Meanings(ws) == bounds;
      ComposedRead(condition, lead, ws, seps, trail);
    }
  }

  predicate UpperForm(w: Written) { w.MaxWidth? || w.WidthBelow? || w.LengthAbove? }

  /** The condition is written in features, `upper` says whether in upper bounds only. */
  ghost predicate WrittenAs(condition: string, upper: bool) {
    exists lead, ws, seps, trail :: Composed(condition, lead, ws, seps, trail) && (upper <==> forall w :: w in ws ==> UpperForm(w))
  }

  lemma UpperForms(ws: seq<Written>)
    ensures AllUpper(Meanings(ws)) <==> forall w :: w in ws ==> UpperForm(w)
  {
    if AllUpper(Meanings(ws)) {
      forall w | w in ws ensures UpperForm(w) {
        var i :| 0 <= i < |ws| && ws[i] == w;
        assert Meanings(ws)[i].Upper?;
      }
    }
    if forall w :: w in ws ==> UpperForm(w) {
      forall i | 0 <= i < |ws| ensures Meanings(ws)[i].Upper? {
        assert ws[i] in ws;
      }
    }
  }

  lemma WrittenAsBounds(condition: string, upper: bool)
    ensures WrittenAs(condition, upper) <==> exists bounds :: Writes(condition, bounds) && (upper <==> AllUpper(bounds))
  {
    hide Composed, Meanings, AllUpper, UpperForm;
    forall ws: seq<Written> ensures AllUpper(Meanings(ws)) <==> forall w :: w in ws ==> UpperForm(w) {
      UpperForms(ws);
    }
    if WrittenAs(condition, upper) {
      var lead, ws, seps, trail :|
        Composed(condition, lead, ws, seps, trail) && (upper <==> forall w :: w in ws ==> UpperForm(w));
      assert Writes(condition, Meanings(ws));
    }
  }

  /** The classification, exactly: "max" for conditions written in upper bounds only, "other" for those
      written in features that are not all upper bounds, and null for everything else. */
  lemma KindExactly(condition: string)
    ensures KindOf(condition) == Max <==> WrittenAs(condition, true)
    ensures KindOf(condition) == Other <==> WrittenAs(condition, false)
    ensures KindOf(condition) == NotWidth <==> !WrittenAs(condition, true) && !WrittenAs(condition, false)
  {
    hide Bounds, Conjuncts, Writes, AllUpper, WrittenAs;
    forall bounds ensures Bounds(Conjuncts(condition)) == Some(bounds) <==> Writes(condition, bounds) {
      ConditionExactly(condition, bounds);
    }
    WrittenAsBounds(condition, true);
    WrittenAsBounds(condition, false);
  }
}
