/** How `tools/dx/generate_secrets.py` reads an env file: its lines, and the keys and values in them. */
module EnvLines {
  import opened Text
  import opened EnvFile

  // ----- lines -----

  /** One line boundary: a single character, or a carriage return with a newline. */
  predicate Boundary(b: string) { b == "\r\n" || (|b| == 1 && Break(b[0])) }

  /** The text is these lines, each closed by its boundary; the last one may end with the text, but is
      then not empty. A carriage return is no boundary of its own before a newline. */
  predicate Woven(s: string, lines: seq<string>, boundaries: seq<string>) {
    if lines == [] then s == "" && boundaries == []
    else if boundaries == [] then |lines| == 1 && s == lines[0] && s != "" && OneLine(s)
    else
      && OneLine(lines[0]) && Boundary(boundaries[0]) && lines[0] + boundaries[0] <= s
      && var rest := s[|lines[0]| + |boundaries[0]|..];
         (boundaries[0] == "\r" ==> rest == "" || rest[0] != '\n') && Woven(rest, lines[1..], boundaries[1..])
  }

  /** `splitlines`, exactly. */
  lemma LinesExactly(s: string, lines: seq<string>)
    ensures Lines(s) == lines <==> exists boundaries :: Woven(s, lines, boundaries)
  {
    hide Woven;
    if Lines(s) == lines {
      var boundaries := ReadWoven(s, "");
      assert "" + s == s;
    }
    if boundaries :| Woven(s, lines, boundaries) {
      WovenRead(s, lines, boundaries);
    }
  }

  lemma {:induction false} CollectUntil(line: string, boundary: string, rest: string, current: string)
    requires OneLine(line) && Boundary(boundary) && (boundary == "\r" ==> rest == "" || rest[0] != '\n')
    ensures LinesFrom(line + (boundary + rest), current) == [current + line] + LinesFrom(rest, "")
  {
    var s := line + (boundary + rest);
    if line == "" {
      assert s == boundary + rest && current + line == current;
      AtBoundary(boundary, rest, current);
    } else {
      assert !Break(line[0]) && s[1..] == line[1..] + (boundary + rest);
      CollectUntil(line[1..], boundary, rest, current + [line[0]]);
      assert current + [line[0]] + line[1..] == current + line;
    }
  }

  lemma AtBoundary(boundary: string, rest: string, current: string)
    requires Boundary(boundary) && (boundary == "\r" ==> rest == "" || rest[0] != '\n')
    ensures LinesFrom(boundary + rest, current) == [current] + LinesFrom(rest, "")
  {
    var s := boundary + rest;
    assert s[|boundary|..] == rest;
    if |boundary| == 1 {
      assert boundary[0] == '\r' ==> boundary == "\r";
      assert |s| >= 2 ==> s[1] == rest[0];
    }
  }

  lemma {:induction false} CollectLast(line: string, current: string)
    requires OneLine(line) && current + line != ""
    ensures LinesFrom(line, current) == [current + line]
  {
    if line == "" {
      assert current + line == current;
    } else {
      CollectLast(line[1..], current + [line[0]]);
      assert current + [line[0]] + line[1..] == current + line;
    }
  }

  lemma {:induction false} WovenRead(s: string, lines: seq<string>, boundaries: seq<string>)
    requires Woven(s, lines, boundaries)
    ensures Lines(s) == lines
    decreases |lines|
  {
    hide OneLine, Boundary;
    if lines != [] {
      assert "" + lines[0] == lines[0];
      if boundaries == [] {
        CollectLast(s, "");
        assert lines == [lines[0]];
      } else {
        var rest := s[|lines[0]| + |boundaries[0]|..];
        CutWoven(s, lines[0], boundaries[0]);
        WovenRead(rest, lines[1..], boundaries[1..]);
        CollectUntil(lines[0], boundaries[0], rest, "");
        assert lines == [lines[0]] + lines[1..];
      }
    }
  }

  lemma CutWoven(s: string, line: string, boundary: string)
    requires line + boundary <= s
    ensures s == line + (boundary + s[|line| + |boundary|..])
  {
  }

  lemma {:induction false} ReadWoven(s: string, current: string) returns (boundaries: seq<string>)
    requires OneLine(current)
    ensures Woven(current + s, LinesFrom(s, current), boundaries)
    decreases |s|
  {
    hide OneLine, Woven;
    if s == "" {
      assert current + s == current;
      boundaries := [];
      LastWoven(current);
    } else if |s| >= 2 && s[0] == '\r' && s[1] == '\n' {
      EmptyOneLine();
      var rest := ReadWoven(s[2..], "");
      boundaries := ["\r\n"] + rest;
      assert "" + s[2..] == s[2..] && s == "\r\n" + s[2..];
      OneMoreLine(current, "\r\n", s[2..], LinesFrom(s[2..], ""), rest);
    } else if Break(s[0]) {
      EmptyOneLine();
      var rest := ReadWoven(s[1..], "");
      boundaries := [[s[0]]] + rest;
      assert "" + s[1..] == s[1..] && s == [s[0]] + s[1..];
      OneMoreLine(current, [s[0]], s[1..], LinesFrom(s[1..], ""), rest);
    } else {
      OneMoreCharacter(current, s[0]);
      boundaries := ReadWoven(s[1..], current + [s[0]]);
      assert current + [s[0]] + s[1..] == current + s;
    }
  }

  lemma EmptyOneLine()
    ensures OneLine("")
  {
  }

  lemma OneMoreCharacter(current: string, c: char)
    requires OneLine(current) && !Break(c)
    ensures OneLine(current + [c])
  {
  }

  lemma LastWoven(current: string)
    requires OneLine(current)
    ensures Woven(current, if current == "" then [] else [current], [])
  {
  }

  lemma OneMoreLine(line: string, boundary: string, rest: string, lines: seq<string>, boundaries: seq<string>)
    requires OneLine(line) && Boundary(boundary) && (boundary == "\r" ==> rest == "" || rest[0] != '\n')
    requires Woven(rest, lines, boundaries)
    ensures Woven(line + (boundary + rest), [line] + lines, [boundary] + boundaries)
  {
    hide OneLine, Boundary;
    var s := line + (boundary + rest);
    assert line + boundary <= s && s[|line| + |boundary|..] == rest;
    assert ([line] + lines)[1..] == lines && ([boundary] + boundaries)[1..] == boundaries;
  }

  // ----- one line -----

  predicate Blank(s: string) { AllSpace(s, PythonSpace) }

  predicate CommentAt(raw: string, a: string, b: string) { Blank(a) && raw == a + ("#" + b) }

  /** A line is skipped exactly when it is blank or its first character that is no white space is a `#`. */
  lemma SkippedExactly(raw: string)
    ensures !Significant(raw) <==> Blank(raw) || exists a, b :: CommentAt(raw, a, b)
  {
    hide PythonSpace, Significant, CommentAt, Blank;
    if !Significant(raw) {
      SkippedParts(raw);
    }
    if Blank(raw) {
      BlankSkipped(raw);
    }
    if a, b :| CommentAt(raw, a, b) {
      CommentTrimmed(raw, a, b);
    }
  }

  lemma SkippedParts(raw: string)
    requires !Significant(raw)
    ensures Blank(raw) || exists a, b :: CommentAt(raw, a, b)
  {
    hide PythonSpace, Strip, CommentAt;
    var a, b := StripParts(raw, PythonSpace);
    var t := Trim(raw);
    if t == "" {
      BlankCat(raw, a, t, b);
    } else {
      CommentParts(raw, a, t, b);
    }
  }

  lemma BlankCat(raw: string, a: string, t: string, b: string)
    requires raw == a + t + b && t == "" && Blank(a) && Blank(b)
    ensures Blank(raw)
  {
    hide PythonSpace;
  }

  lemma BlankSkipped(raw: string)
    requires Blank(raw)
    ensures !Significant(raw)
  {
    hide PythonSpace;
    StripLeftOver(raw, "", PythonSpace);
    assert raw + "" == raw;
  }

  lemma CommentParts(raw: string, a: string, t: string, b: string)
    requires raw == a + t + b && t != "" && t[0] == '#' && Blank(a)
    ensures CommentAt(raw, a, t[1..] + b)
  {
    assert t == "#" + t[1..];
    assert a + t + b == a + (t + b) && t + b == "#" + (t[1..] + b);
  }

  lemma SolidStart(t: string, n: nat)
    requires n <= |t| && t != "" && !PythonSpace(t[0]) && AllSpace(t[n..], PythonSpace)
    ensures n > 0
  {
    hide PythonSpace;
    if n < |t| {
      assert t[n..][0] == t[n];
    }
  }

  lemma CommentTrimmed(raw: string, a: string, b: string)
    requires CommentAt(raw, a, b)
    ensures Trim(raw) != "" && Trim(raw)[0] == '#' && !Significant(raw)
  {
    var t := "#" + b;
    assert t[0] == '#' && !PythonSpace('#');
    StripLeftOver(a, t, PythonSpace);
    StripRightSpaces(t, PythonSpace);
    var r := StripRight(t, PythonSpace);
    SolidStart(t, |r|);
  }

  /** White space, the key, an equals sign, the value, white space; neither has white space at its outer end. */
  predicate KeyLine(raw: string, a: string, k: string, v: string, b: string) {
    && Blank(a) && Blank(b) && Free(k, '=') && raw == a + (k + "=" + v) + b
    && Trimmed(k + "=" + v, PythonSpace) && (k == "" || k[0] != '#')
  }

  /** The key and the value of a line, exactly: split at the first equals sign. */
  lemma LineExactly(raw: string, k: string, v: string)
    ensures HasKey(raw) && KeyOf(raw) == k && ValueText(raw) == v <==> exists a, b :: KeyLine(raw, a, k, v, b)
  {
    hide KeyLine;
    if HasKey(raw) && KeyOf(raw) == k && ValueText(raw) == v {
      KeyLineParts(raw);
    }
    if a, b :| KeyLine(raw, a, k, v, b) {
      KeyLineFound(raw, a, k, v, b);
    }
  }

  lemma KeyLineParts(raw: string)
    requires HasKey(raw)
    ensures exists a, b :: KeyLine(raw, a, KeyOf(raw), ValueText(raw), b)
  {
    hide PythonSpace, Strip;
    var a, b := StripParts(raw, PythonSpace);
    var t := Trim(raw);
    TrimmedLine(raw, a, t, FirstIndex(t, '='), b);
    hide KeyLine;
    assert KeyLine(raw, a, KeyOf(raw), ValueText(raw), b);
  }

  lemma TrimmedLine(raw: string, a: string, t: string, i: nat, b: string)
    requires Blank(a) && Blank(b) && raw == a + t + b && Trimmed(t, PythonSpace)
    requires i < |t| && t[i] == '=' && Free(t[..i], '=') && t[0] != '#'
    ensures KeyLine(raw, a, t[..i], t[i + 1..], b)
  {
    hide PythonSpace, Blank;
    SplitText(t, i);
  }

  lemma SplitText(t: string, i: nat)
    requires i < |t| && t[i] == '='
    ensures t == t[..i] + "=" + t[i + 1..] && (t[..i] != "" ==> t[..i][0] == t[0])
  {
  }

  lemma KeyLineFound(raw: string, a: string, k: string, v: string, b: string)
    requires KeyLine(raw, a, k, v, b)
    ensures HasKey(raw) && KeyOf(raw) == k && ValueText(raw) == v
  {
    hide PythonSpace;
    var t := k + "=" + v;
    StripAround(a, t, b, PythonSpace);
    assert Trim(raw) == t;
    assert t[..|k|] == k && t[|k|] == '=' && t[|k| + 1..] == v;
    FirstIndexUnique(t, '=', |k|);
    assert k != "" ==> t[0] == k[0];
  }

  // ----- the whole file -----

  /** Every line that is not skipped has a key, and no key comes twice. */
  predicate Readable(lines: seq<string>) {
    && (forall i :: 0 <= i < |lines| && Significant(lines[i]) ==> HasKey(lines[i]))
    && forall i, j :: 0 <= i < j < |lines| && HasKey(lines[i]) && HasKey(lines[j]) ==> KeyOf(lines[i]) != KeyOf(lines[j])
  }

  /** The values are those of the lines with a key, and nothing else. */
  predicate Reads(lines: seq<string>, m: map<string, string>) {
    && (forall i :: 0 <= i < |lines| && HasKey(lines[i]) ==> KeyOf(lines[i]) in m && m[KeyOf(lines[i])] == ValueText(lines[i]))
    && forall k :: k in m ==> KeyIn(lines, k)
  }

  predicate KeyIn(lines: seq<string>, k: string) {
    exists i :: 0 <= i < |lines| && HasKey(lines[i]) && KeyOf(lines[i]) == k
  }

  /** A file is read exactly when every line that is not skipped has a key of its own, and it then gives
      each key the value of its line. */
  lemma {:induction false} ParseExactly(lines: seq<string>)
    ensures ParseLines(lines).Some? <==> Readable(lines)
    ensures ParseLines(lines).Some? ==> Reads(lines, ParseLines(lines).value)
  {
    hide Significant, HasKey, KeyOf, ValueText;
    if lines != [] {
      var init, raw := lines[..|lines| - 1], lines[|lines| - 1];
      ParseExactly(init);
      assert lines == init + [raw];
      SignificantHasKey(raw);
      ReadableSnoc(init, raw);
      hide Readable, Reads;
      if ParseLines(lines).Some? {
        ReadsSnoc(init, raw, ParseLines(init).value);
      }
      if ParseLines(init).Some? && Significant(raw) && HasKey(raw) {
        KnownKey(init, ParseLines(init).value, KeyOf(raw));
      }
    }
  }

  lemma KnownKey(lines: seq<string>, m: map<string, string>, k: string)
    requires Reads(lines, m)
    ensures k in m <==> KeyIn(lines, k)
  {
    hide HasKey, KeyOf, ValueText;
  }

  lemma ReadableSnoc(init: seq<string>, raw: string)
    requires HasKey(raw) ==> Significant(raw)
    ensures Readable(init + [raw]) <==>
            Readable(init) && (Significant(raw) ==> HasKey(raw) && !KeyIn(init, KeyOf(raw)))
  {
    hide Significant, HasKey, KeyOf;
    var lines := init + [raw];
    assert lines[|init|] == raw && forall i :: 0 <= i < |init| ==> lines[i] == init[i];
    if Readable(lines) {
      assert forall i :: 0 <= i < |init| && HasKey(init[i]) && HasKey(raw) ==> KeyOf(lines[i]) != KeyOf(lines[|init|]);
    }
  }

  lemma ReadsSnoc(init: seq<string>, raw: string, m: map<string, string>)
    requires Reads(init, m) && (HasKey(raw) ==> KeyOf(raw) !in m)
    ensures HasKey(raw) ==> Reads(init + [raw], m[KeyOf(raw) := ValueText(raw)])
    ensures !HasKey(raw) ==> Reads(init + [raw], m)
  {
    hide HasKey, KeyOf, ValueText;
    var lines := init + [raw];
    assert lines[|init|] == raw && forall i :: 0 <= i < |init| ==> lines[i] == init[i];
    forall k | k in m ensures KeyIn(lines, k) {
      var i :| 0 <= i < |init| && HasKey(init[i]) && KeyOf(init[i]) == k;
      assert HasKey(lines[i]) && KeyOf(lines[i]) == k;
    }
    assert HasKey(raw) ==> KeyIn(lines, KeyOf(raw)) by {
      if HasKey(raw) { assert HasKey(lines[|init|]) && KeyOf(lines[|init|]) == KeyOf(raw); }
    }
  }
}
