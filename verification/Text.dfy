/** Strings as sequences of characters: separators, splitting and joining. */
module Text {

  datatype Option<+T> = None | Some(value: T)

  /** No character of `s` is `c`. */
  predicate Free(s: string, c: char) {
    forall i :: 0 <= i < |s| ==> s[i] != c
  }

  predicate StartsWith(s: string, prefix: string) {
    prefix <= s
  }

  lemma FreeCat(a: string, b: string, c: char)
    ensures Free(a + b, c) <==> Free(a, c) && Free(b, c)
  {
    var s := a + b;
    if Free(s, c) {
      assert forall i :: 0 <= i < |a| ==> a[i] == s[i];
      assert forall i :: 0 <= i < |b| ==> b[i] == s[|a| + i];
    }
  }

  /** Index of the first `c` in `s`, or |s|. */
  function FirstIndex(s: string, c: char): (i: nat)
    ensures i <= |s|
    ensures Free(s[..i], c) && forall j :: 0 <= j < i ==> s[j] != c
    ensures i < |s| ==> s[i] == c
  {
    if s == [] || s[0] == c then 0 else
      var j := FirstIndex(s[1..], c);
      assert s[..j + 1] == [s[0]] + s[1..][..j];
      j + 1
  }

  lemma FirstIndexUnique(s: string, c: char, i: nat)
    requires i < |s| && s[i] == c && Free(s[..i], c)
    ensures FirstIndex(s, c) == i
  {
    var j := FirstIndex(s, c);
  }

  /** Splits on every occurrence of `c`: "a/b" gives ["a", "b"], "" gives [""]. */
  function Split(s: string, c: char): (parts: seq<string>)
    ensures |parts| >= 1
    decreases |s|
  {
    var i := FirstIndex(s, c);
    if i == |s| then [s] else [s[..i]] + Split(s[i + 1..], c)
  }

  predicate StandsAt(s: string, c: char, a: string, p: string, b: string) {
    s == a + (p + b) && (a == "" || a[|a| - 1] == c) && (b == "" || b[0] == c)
  }

  /** `p` stands between two separators or ends of `s`. */
  ghost predicate IsPart(s: string, c: char, p: string) { exists a, b :: StandsAt(s, c, a, p, b) }

  /** The parts of a split text are exactly the separator-free texts between separators or ends. */
  lemma PartExactly(s: string, c: char, p: string)
    ensures p in Split(s, c) <==> Free(p, c) && IsPart(s, c, p)
  {
    hide StandsAt, Split;
    if p in Split(s, c) {
      PartBetween(s, c, p);
    }
    if Free(p, c) && IsPart(s, c, p) {
      var a, b :| StandsAt(s, c, a, p, b);
      BetweenPart(s, c, a, p, b);
    }
  }

  lemma {:induction false} PartBetween(s: string, c: char, p: string)
    requires p in Split(s, c)
    ensures Free(p, c) && IsPart(s, c, p)
    decreases |s|
  {
    hide StandsAt;
    var i := FirstIndex(s, c);
    if p == s[..i] {
      FirstPart(s, c, i);
    } else {
      PartBetween(s[i + 1..], c, p);
      var a, b :| StandsAt(s[i + 1..], c, a, p, b);
      LaterPart(s, c, i, a, p, b);
    }
  }

  lemma FirstPart(s: string, c: char, i: nat)
    requires i <= |s| && (i < |s| ==> s[i] == c)
    ensures StandsAt(s, c, "", s[..i], s[i..])
  {
    assert s == "" + (s[..i] + s[i..]);
  }

  lemma LaterPart(s: string, c: char, i: nat, a: string, p: string, b: string)
    requires i < |s| && s[i] == c && StandsAt(s[i + 1..], c, a, p, b)
    ensures StandsAt(s, c, s[..i + 1] + a, p, b)
  {
    assert s == s[..i + 1] + s[i + 1..];
  }

  lemma {:induction false} BetweenPart(s: string, c: char, a: string, p: string, b: string)
    requires StandsAt(s, c, a, p, b) && Free(p, c)
    ensures p in Split(s, c)
    decreases |s|
  {
    if a == "" {
      assert s == p + b;
      if b == "" {
        assert s == p;
        SplitSingle(s, c);
      } else {
        assert s == p + [c] + b[1..];
        SplitHead(p, c, b[1..]);
      }
    } else {
      var i := FirstIndex(s, c);
      assert s[|a| - 1] == c;
      CutPart(s, a, p + b, i + 1);
      BetweenPart(s[i + 1..], c, a[i + 1..], p, b);
    }
  }

  lemma CutPart(s: string, a: string, r: string, i: nat)
    requires s == a + r && i <= |a|
    ensures s[i..] == a[i..] + r
  {
  }

  /** Joins with the separator `sep`. */
  function Join(parts: seq<string>, sep: string): string {
    if parts == [] then "" else if |parts| == 1 then parts[0] else parts[0] + sep + Join(parts[1..], sep)
  }

  lemma SplitHead(head: string, c: char, rest: string)
    requires Free(head, c)
    ensures Split(head + [c] + rest, c) == [head] + Split(rest, c)
  {
    var s := head + [c] + rest;
    assert s[..|head|] == head && s[|head| + 1..] == rest;
    FirstIndexUnique(s, c, |head|);
  }

  lemma SplitSingle(s: string, c: char)
    requires Free(s, c)
    ensures Split(s, c) == [s]
  {
    var i := FirstIndex(s, c);
  }

  /** Splitting undoes joining when no part contains the separator. */
  lemma {:induction false} SplitJoin(parts: seq<string>, c: char)
    requires parts != []
    requires forall i :: 0 <= i < |parts| ==> Free(parts[i], c)
    ensures Split(Join(parts, [c]), c) == parts
  {
    hide *;
    if |parts| == 1 {
      JoinOne(parts, [c]);
      SplitSingle(parts[0], c);
      assert parts == [parts[0]];
    } else {
      JoinCons(parts, [c]);
      assert forall i :: 0 <= i < |parts| - 1 ==> parts[1..][i] == parts[i + 1];
      SplitJoin(parts[1..], c);
      SplitHead(parts[0], c, Join(parts[1..], [c]));
      assert parts == [parts[0]] + parts[1..];
    }
  }

  lemma JoinOne(parts: seq<string>, sep: string)
    requires |parts| == 1
    ensures Join(parts, sep) == parts[0]
  {
  }

  lemma JoinCons(parts: seq<string>, sep: string)
    requires |parts| > 1
    ensures Join(parts, sep) == parts[0] + sep + Join(parts[1..], sep)
  {
  }

  /** `str.find`. */
  function Find(s: string, pattern: string): (i: Option<nat>)
    ensures i.Some? ==> i.value + |pattern| <= |s| && pattern <= s[i.value..]
  {
    if StartsWith(s, pattern) then Some(0)
    else if s == [] then None
    else
      var rest := Find(s[1..], pattern);
      if rest.Some? then Some(rest.value + 1) else None
  }

  predicate Contains(s: string, pattern: string) { Find(s, pattern).Some? }

  /** `p` stands somewhere in `s`. */
  ghost predicate Within(s: string, p: string) { exists a, b :: s == a + (p + b) }

  lemma ContainsExactly(s: string, p: string)
    ensures Contains(s, p) <==> Within(s, p)
  {
    if Contains(s, p) {
      var i := Find(s, p).value;
      assert s == s[..i] + (p + s[i + |p|..]) by { AroundAt(s, p, i); }
    }
    if a, b :| s == a + (p + b) {
      Findable(s, a, p, b);
    }
  }

  lemma AroundAt(s: string, p: string, i: nat)
    requires i + |p| <= |s| && p <= s[i..]
    ensures s == s[..i] + (p + s[i + |p|..])
  {
    assert s[i..][|p|..] == s[i + |p|..];
  }

  lemma {:induction false} Findable(s: string, a: string, p: string, b: string)
    requires s == a + (p + b)
    ensures Find(s, p).Some?
  {
    if a == "" {
      assert s == p + b;
    } else if !StartsWith(s, p) {
      assert s[1..] == a[1..] + (p + b);
      Findable(s[1..], a[1..], p, b);
    }
  }

  lemma PrefixLocal(s: string, q: string, pattern: string)
    requires |pattern| <= |s|
    ensures StartsWith(s + q, pattern) <==> StartsWith(s, pattern)
  {
    assert forall k :: 0 <= k < |pattern| ==> s[k] == (s + q)[k];
  }

  // ----- hexadecimal text -----

  predicate LowerHex(c: char) { '0' <= c <= '9' || 'a' <= c <= 'f' }

  predicate HexText(s: string) {
    forall i :: 0 <= i < |s| ==> LowerHex(s[i])
  }

  /** `[0-9a-f]{64}`: a SHA-256 digest, or 32 bytes. */
  predicate Hex64(s: string) { |s| == 64 && HexText(s) }

  // ----- white space -----

  /** White space of Python's `str.strip()`. */
  predicate PythonSpace(c: char) {
    '\t' <= c <= '\r' || '\U{1C}' <= c <= ' ' || c == '\U{85}' || c == '\U{A0}' || c == '\U{1680}' ||
    '\U{2000}' <= c <= '\U{200A}' || c == '\U{2028}' || c == '\U{2029}' || c == '\U{202F}' ||
    c == '\U{205F}' || c == '\U{3000}'
  }

  /** White space of ECMAScript's `trim()` and of `\s`. */
  predicate ScriptSpace(c: char) {
    '\t' <= c <= '\r' || c == ' ' || c == '\U{A0}' || c == '\U{1680}' || '\U{2000}' <= c <= '\U{200A}' ||
    c == '\U{2028}' || c == '\U{2029}' || c == '\U{202F}' || c == '\U{205F}' || c == '\U{3000}' || c == '\U{FEFF}'
  }

  function StripLeft(s: string, space: char -> bool): (t: string)
    ensures t == [] || !space(t[0])
    ensures |t| <= |s| && t == s[|s| - |t|..]
  {
    if s != [] && space(s[0]) then StripLeft(s[1..], space) else s
  }

  function StripRight(s: string, space: char -> bool): (t: string)
    ensures t == [] || !space(t[|t| - 1])
    ensures |t| <= |s| && t == s[..|t|]
  {
    if s != [] && space(s[|s| - 1]) then StripRight(s[..|s| - 1], space) else s
  }

  predicate Trimmed(s: string, space: char -> bool) {
    s == [] || (!space(s[0]) && !space(s[|s| - 1]))
  }

  function Strip(s: string, space: char -> bool): (t: string)
    ensures Trimmed(t, space)
    ensures Trimmed(s, space) ==> t == s
  {
    StripRight(StripLeft(s, space), space)
  }

  predicate AllSpace(s: string, space: char -> bool) { forall i :: 0 <= i < |s| ==> space(s[i]) }

  lemma {:induction false} StripLeftOver(a: string, s: string, space: char -> bool)
    requires AllSpace(a, space) && (s == "" || !space(s[0]))
    ensures StripLeft(a + s, space) == s
  {
    if a == "" {
      assert a + s == s;
    } else {
      assert (a + s)[1..] == a[1..] + s && (a + s)[0] == a[0];
      StripLeftOver(a[1..], s, space);
    }
  }

  lemma {:induction false} StripRightOver(s: string, b: string, space: char -> bool)
    requires AllSpace(b, space) && (s == "" || !space(s[|s| - 1]))
    ensures StripRight(s + b, space) == s
  {
    if b == "" {
      assert s + b == s;
    } else {
      var n := |b| - 1;
      assert (s + b)[..|s + b| - 1] == s + b[..n] && (s + b)[|s + b| - 1] == b[n];
      StripRightOver(s, b[..n], space);
    }
  }

  /** Stripping takes away exactly the white space around a text. */
  lemma StripAround(a: string, s: string, b: string, space: char -> bool)
    requires AllSpace(a, space) && AllSpace(b, space) && Trimmed(s, space) && s != ""
    ensures Strip(a + s + b, space) == s
  {
    assert a + s + b == a + (s + b) && (s + b)[0] == s[0];
    StripLeftOver(a, s + b, space);
    StripRightOver(s, b, space);
  }

  lemma {:induction false} StripLeftSpaces(s: string, space: char -> bool)
    ensures AllSpace(s[..|s| - |StripLeft(s, space)|], space)
  {
    if s != [] && space(s[0]) {
      StripLeftSpaces(s[1..], space);
      assert s[..|s| - |StripLeft(s, space)|] == [s[0]] + s[1..][..|s| - 1 - |StripLeft(s[1..], space)|];
    }
  }

  lemma {:induction false} StripRightSpaces(s: string, space: char -> bool)
    ensures AllSpace(s[|StripRight(s, space)|..], space)
  {
    if s != [] && space(s[|s| - 1]) {
      var init := s[..|s| - 1];
      StripRightSpaces(init, space);
      assert s[|StripRight(s, space)|..] == init[|StripRight(s, space)|..] + [s[|s| - 1]];
    }
  }

  /** What stripping takes away is white space. */
  lemma StripParts(s: string, space: char -> bool) returns (a: string, b: string)
    ensures s == a + Strip(s, space) + b && AllSpace(a, space) && AllSpace(b, space)
  {
    hide AllSpace;
    var t := StripLeft(s, space);
    StripLeftSpaces(s, space);
    StripRightSpaces(t, space);
    a, b := s[..|s| - |t|], t[|StripRight(t, space)|..];
    ThreeCut(s, |s| - |t|, |StripRight(t, space)|);
  }

  lemma ThreeCut(s: string, n: nat, m: nat)
    requires n <= |s| && m <= |s| - n
    ensures s == s[..n] + s[n..][..m] + s[n..][m..]
  {
  }
}
