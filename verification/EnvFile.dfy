/** The local env file generator of `tools/dx/generate_secrets.py`: parse, merge, render. The host
    environment and the random generators are parameters. */
module EnvFile {
  import opened Text
  import opened KeyFormat

  // ----- lines -----

  /** Line boundaries of `str.splitlines`. */
  predicate Break(c: char) {
    '\n' <= c <= '\r' || '\U{1C}' <= c <= '\U{1E}' || c == '\U{85}' || c == '\U{2028}' || c == '\U{2029}'
  }

  predicate OneLine(s: string) {
    forall i :: 0 <= i < |s| ==> !Break(s[i])
  }

  /** `splitlines`: no empty line after the last boundary, and a carriage return with a newline is one. */
  function LinesFrom(s: string, current: string): seq<string>
    decreases |s|
  {
    if s == [] then if current == [] then [] else [current]
    else if |s| >= 2 && s[0] == '\r' && s[1] == '\n' then [current] + LinesFrom(s[2..], "")
    else if Break(s[0]) then [current] + LinesFrom(s[1..], "")
    else LinesFrom(s[1..], current + [s[0]])
  }

  function Lines(content: string): seq<string> { LinesFrom(content, "") }

  function Trim(s: string): string { Strip(s, PythonSpace) }

  // ----- parsing -----

  /** A line that is neither blank nor a comment. */
  predicate Significant(raw: string) {
    Trim(raw) != "" && Trim(raw)[0] != '#'
  }

  predicate HasKey(raw: string) {
    Significant(raw) && FirstIndex(Trim(raw), '=') < |Trim(raw)|
  }

  function KeyOf(raw: string): string
    requires HasKey(raw)
  {
    Trim(raw)[..FirstIndex(Trim(raw), '=')]
  }

  function ValueText(raw: string): string
    requires HasKey(raw)
  {
    Trim(raw)[FirstIndex(Trim(raw), '=') + 1..]
  }

  /** `parse_env` on the lines; None for a line without `=` or a key given twice. */
  function ParseLines(lines: seq<string>): Option<map<string, string>> {
    if lines == [] then Some(map[])
    else
      var raw, before := lines[|lines| - 1], ParseLines(lines[..|lines| - 1]);
      if before.None? || !Significant(raw) then before
      else if !HasKey(raw) || KeyOf(raw) in before.value then None
      else Some(before.value[KeyOf(raw) := ValueText(raw)])
  }

  method ParseEnv(content: string) returns (values: Option<map<string, string>>)
    ensures values == ParseLines(Lines(content))
  {
    hide Lines, KeyOf, ValueText, Significant, HasKey;
    var lines := Lines(content);
    var m: map<string, string> := map[];
    for i := 0 to |lines|
      invariant ParseLines(lines[..i]) == Some(m)
    {
      var raw := lines[i];
      assert lines[..i + 1][..i] == lines[..i] && lines[..i + 1][i] == raw;
      if Significant(raw) {
        if !HasKey(raw) || KeyOf(raw) in m {
          StaysBad(lines, i + 1);
          return None;
        }
        m := m[KeyOf(raw) := ValueText(raw)];
      }
    }
    assert lines[..|lines|] == lines;
    return Some(m);
  }

  lemma {:induction false} StaysBad(lines: seq<string>, n: nat)
    requires n <= |lines| && ParseLines(lines[..n]).None?
    ensures ParseLines(lines).None?
    decreases |lines| - n
  {
    hide Significant, HasKey;
    if n == |lines| {
      assert lines[..n] == lines;
    } else {
      assert lines[..n + 1][..n] == lines[..n];
      StaysBad(lines, n + 1);
    }
  }

  // ----- tokens -----

  const TOKENS := [
    "__GENERATE_HEX_32__", "__GENERATE_URLSAFE_32__", "__GENERATE_PASSWORD_24__", "__GENERATE_PASSWORD_32__",
    "__GENERATE_IDENTIFIER_20__", "__GENERATE_EMAIL__"]
  const HOST_PORT := "__HOST_PORT__"

  /** The environment of one run: host variables ("" when missing), what counts as a digit, and the
      values drawn for the k-th occurrence of token t on line l. */
  datatype Host = Host(env: string -> string, digit: char -> bool, draw: (nat, nat, nat) -> string)

  /** Every generator writes letters, digits and `-_@.` and never nothing. */
  predicate DrawChar(c: char) { InAlphabet(c) || c == '@' || c == '.' }

  ghost predicate ValidHost(h: Host) {
    && (forall l, t, k :: h.draw(l, t, k) != "" && forall i :: 0 <= i < |h.draw(l, t, k)| ==> DrawChar(h.draw(l, t, k)[i]))
    && forall c :: h.digit(c) ==> !PythonSpace(c)
  }

  /** `re.sub` of one token, every occurrence by its own drawn value. */
  function Substitute(s: string, token: string, draw: nat -> string, k: nat): string
    requires token != []
    decreases |s|
  {
    if s == [] then []
    else if token <= s then draw(k) + Substitute(s[|token|..], token, draw, k + 1)
    else [s[0]] + Substitute(s[1..], token, draw, k)
  }

  /** All tokens from number `t` on, one after the other. */
  function Fill(s: string, h: Host, line: nat, t: nat): string
    requires t <= |TOKENS|
    decreases |TOKENS| - t
  {
    if t == |TOKENS| then s
    else if TOKENS[t] == [] then s
    else Fill(Substitute(s, TOKENS[t], (k: nat) => h.draw(line, t, k), 0), h, line, t + 1)
  }

  // ----- rendering -----

  function Digits(s: string, h: Host): bool {
    s != "" && forall i :: 0 <= i < |s| ==> h.digit(s[i])
  }

  /** The value of a key that the local file does not have yet. */
  function NewValue(raw: string, h: Host, line: nat): Option<string>
    requires HasKey(raw)
  {
    if ValueText(raw) == HOST_PORT then
      if Digits(h.env(KeyOf(raw)), h) then Some(Fill(h.env(KeyOf(raw)), h, line, 0)) else None
    else Some(Fill(ValueText(raw), h, line, 0))
  }

  function RenderLine(raw: string, existing: map<string, string>, h: Host, line: nat): Option<string> {
    if !HasKey(raw) then Some(raw)
    else if KeyOf(raw) in existing then Some(KeyOf(raw) + "=" + Upgrade(KeyOf(raw), existing[KeyOf(raw)]))
    else
      var value := NewValue(raw, h, line);
      if value.None? then None else Some(KeyOf(raw) + "=" + value.value)
  }

  function RenderLines(lines: seq<string>, existing: map<string, string>, h: Host): Option<seq<string>> {
    if lines == [] then Some([])
    else
      var n := |lines| - 1;
      var before, last := RenderLines(lines[..n], existing, h), RenderLine(lines[n], existing, h, n);
      if before.None? || last.None? then None else Some(before.value + [last.value])
  }

  /** `"\n".join(rendered_lines) + "\n"` */
  function Document(lines: seq<string>): string { Join(lines, "\n") + "\n" }

  predicate TokenChar(c: char) { 'A' <= c <= 'Z' || '0' <= c <= '9' || c == '_' }

  /** `__GENERATE_[A-Z0-9_]+__` occurs. */
  predicate Unresolved(s: string) {
    exists i, j :: 0 <= i < j <= |s| && UnresolvedAt(s, i, j)
  }

  predicate UnresolvedAt(s: string, i: nat, j: nat)
    requires i < j <= |s|
  {
    i + 11 < j - 2 && s[i..i + 11] == "__GENERATE_" && s[j - 2..j] == "__" &&
    forall k :: i + 11 <= k < j - 2 ==> TokenChar(s[k])
  }

  datatype Outcome = Failed | Current | Written(text: string)

  /** One run on a template and the local file, if there is one. */
  function Run(template: string, file: Option<string>, h: Host): Outcome {
    var wanted := ParseLines(Lines(template));
    var existing := if file.Some? then ParseLines(Lines(file.value)) else Some(map[]);
    if wanted.None? || existing.None? || !(existing.value.Keys <= wanted.value.Keys) then Failed
    else
      var rendered := RenderLines(Lines(template), existing.value, h);
      if rendered.None? || Unresolved(Document(rendered.value)) then Failed
      else if file == Some(Document(rendered.value)) then Current
      else Written(Document(rendered.value))
  }

  method GenerateSecrets(template: string, file: Option<string>, h: Host) returns (o: Outcome)
    ensures o == Run(template, file, h)
  {
    hide Lines, ParseLines, RenderLine, Unresolved;
    var wanted := ParseEnv(template);
    var existing: Option<map<string, string>> := Some(map[]);
    if file.Some? {
      existing := ParseEnv(file.value);
    }
    if wanted.None? || existing.None? || !(existing.value.Keys <= wanted.value.Keys) {
      return Failed;
    }
    var rendered: seq<string> := [];
    var lines := Lines(template);
    for i := 0 to |lines|
      invariant RenderLines(lines[..i], existing.value, h) == Some(rendered)
    {
      assert lines[..i + 1][..i] == lines[..i] && lines[..i + 1][i] == lines[i];
      var line := RenderLine(lines[i], existing.value, h, i);
      if line.None? {
        StaysUnrendered(lines, i + 1, existing.value, h);
        return Failed;
      }
      rendered := rendered + [line.value];
    }
    assert lines[..|lines|] == lines;
    if Unresolved(Document(rendered)) {
      return Failed;
    }
    if file == Some(Document(rendered)) {
      return Current;
    }
    return Written(Document(rendered));
  }

  lemma {:induction false} StaysUnrendered(lines: seq<string>, n: nat, existing: map<string, string>, h: Host)
    requires n <= |lines| && RenderLines(lines[..n], existing, h).None?
    ensures RenderLines(lines, existing, h).None?
    decreases |lines| - n
  {
    hide RenderLine;
    if n == |lines| {
      assert lines[..n] == lines;
    } else {
      assert lines[..n + 1][..n] == lines[..n];
      StaysUnrendered(lines, n + 1, existing, h);
    }
  }

  // ----- values that survive writing and reading -----

  /** On one line and without trailing white space. */
  predicate Clean(v: string) {
    OneLine(v) && (v == "" || !PythonSpace(v[|v| - 1]))
  }

  predicate CleanValues(m: map<string, string>) {
    forall k :: k in m ==> Clean(m[k])
  }

  lemma BreakIsSpace(c: char)
    ensures Break(c) ==> PythonSpace(c)
  {
  }

  lemma OneLinePart(s: string, i: nat, j: nat)
    requires i <= j <= |s| && OneLine(s)
    ensures OneLine(s[i..j])
  {
  }

  lemma OneLineCat(a: string, b: string)
    ensures OneLine(a + b) <==> OneLine(a) && OneLine(b)
  {
    var s := a + b;
    if OneLine(s) {
      assert forall i :: 0 <= i < |a| ==> a[i] == s[i];
      assert forall i :: 0 <= i < |b| ==> b[i] == s[|a| + i];
    }
  }

  lemma SuffixPrefix(s: string, i: nat, n: nat)
    requires i + n <= |s|
    ensures s[i..][..n] == s[i..i + n]
  {
  }

  lemma TrimPart(s: string)
    ensures exists i, j :: 0 <= i <= j <= |s| && Trim(s) == s[i..j]
  {
    var l := StripLeft(s, PythonSpace);
    var t := StripRight(l, PythonSpace);
    hide PythonSpace;
    var i := |s| - |l|;
    SuffixPrefix(s, i, |t|);
    assert t == s[i..i + |t|];
  }

  lemma ValueClean(raw: string)
    requires HasKey(raw) && OneLine(raw)
    ensures Clean(ValueText(raw)) && OneLine(KeyOf(raw))
  {
    TrimOneLine(raw);
    var line := Trim(raw);
    var e := FirstIndex(line, '=');
    hide Strip, StripLeft, StripRight;
    OneLinePart(line, e + 1, |line|);
    OneLinePart(line, 0, e);
    assert line[e + 1..|line|] == ValueText(raw) && line[0..e] == KeyOf(raw);
  }

  lemma TrimOneLine(raw: string)
    requires OneLine(raw)
    ensures OneLine(Trim(raw)) && Trimmed(Trim(raw), PythonSpace)
  {
    TrimPart(raw);
    var i, j :| 0 <= i <= j <= |raw| && Trim(raw) == raw[i..j];
    OneLinePart(raw, i, j);
  }

  /** Writing a key line with a clean value and reading it gives the key and the value. */
  lemma KeyLineReads(raw: string, v: string)
    requires HasKey(raw) && OneLine(raw) && Clean(v)
    ensures var line := KeyOf(raw) + "=" + v;
            OneLine(line) && HasKey(line) && KeyOf(line) == KeyOf(raw) && ValueText(line) == v
  {
    var key := KeyOf(raw);
    var line := key + "=" + v;
    var source := Trim(raw);
    var e := FirstIndex(source, '=');
    ValueClean(raw);
    OneLineCat(key + "=", v);
    OneLineCat(key, "=");
    assert line[0] == source[0];
    assert line[|line| - 1] == if v == "" then '=' else v[|v| - 1];
    assert Trim(line) == line;
    assert line[..|key|] == key && line[|key|] == '=';
    FirstIndexUnique(line, '=', |key|);
    assert line[|key| + 1..] == v;
  }

  lemma {:induction false} LinesOneLine(s: string, current: string)
    requires OneLine(current)
    ensures forall l :: l in LinesFrom(s, current) ==> OneLine(l)
    decreases |s|
  {
    if s != [] {
      if |s| >= 2 && s[0] == '\r' && s[1] == '\n' {
        LinesOneLine(s[2..], "");
      } else if Break(s[0]) {
        LinesOneLine(s[1..], "");
      } else {
        OneLineCat(current, [s[0]]);
        LinesOneLine(s[1..], current + [s[0]]);
      }
    }
  }

  lemma {:induction false} CollectLine(line: string, rest: string, current: string)
    requires OneLine(line)
    ensures LinesFrom(line + ("\n" + rest), current) == [current + line] + LinesFrom(rest, "")
  {
    var s := line + ("\n" + rest);
    if line == [] {
      assert s[1..] == rest && current + line == current;
    } else {
      assert !Break(line[0]) && s[1..] == line[1..] + ("\n" + rest);
      CollectLine(line[1..], rest, current + [line[0]]);
      assert current + [line[0]] + line[1..] == current + line;
    }
  }

  /** Reading undoes writing for lines without boundaries. */
  lemma {:induction false} DocumentLines(lines: seq<string>)
    requires lines != [] && forall l :: l in lines ==> OneLine(l)
    ensures Lines(Document(lines)) == lines
  {
    hide OneLine;
    if |lines| == 1 {
      assert Document(lines) == lines[0] + ("\n" + "");
      CollectLine(lines[0], "", "");
      assert "" + lines[0] == lines[0] && lines == [lines[0]];
    } else {
      DocumentLines(lines[1..]);
      assert Document(lines) == lines[0] + ("\n" + Document(lines[1..]));
      CollectLine(lines[0], Document(lines[1..]), "");
      assert "" + lines[0] == lines[0] && lines == [lines[0]] + lines[1..];
    }
  }

  // ----- clean values -----

  lemma {:induction false} SubstituteClean(s: string, token: string, draw: nat -> string, k: nat)
    requires token != [] && Clean(s)
    requires forall n :: draw(n) != "" && forall i :: 0 <= i < |draw(n)| ==> DrawChar(draw(n)[i])
    ensures Clean(Substitute(s, token, draw, k)) && (s != [] ==> Substitute(s, token, draw, k) != [])
    decreases |s|
  {
    if s != [] {
      var w := if token <= s then |token| else 1;
      var head := if token <= s then draw(k) else [s[0]];
      var tail := s[w..];
      OneLinePart(s, w, |s|);
      assert tail == s[w..|s|];
      DrawClean(draw(k));
      SubstituteClean(tail, token, draw, if token <= s then k + 1 else k);
      var rest := Substitute(tail, token, draw, if token <= s then k + 1 else k);
      assert Substitute(s, token, draw, k) == head + rest;
      OneLineCat(head, rest);
      if tail == [] {
        assert rest == [] && head + rest == head;
      }
    }
  }

  lemma DrawClean(d: string)
    requires d != "" && forall i :: 0 <= i < |d| ==> DrawChar(d[i])
    ensures Clean(d)
  {
    forall i | 0 <= i < |d| ensures !PythonSpace(d[i]) && !Break(d[i]) {
      BreakIsSpace(d[i]);
    }
  }

  lemma {:induction false} FillClean(s: string, h: Host, line: nat, t: nat)
    requires t <= |TOKENS| && ValidHost(h) && Clean(s)
    ensures Clean(Fill(s, h, line, t))
    decreases |TOKENS| - t
  {
    hide Clean, Substitute;
    if t < |TOKENS| && TOKENS[t] != [] {
      var draw := (k: nat) => h.draw(line, t, k);
      SubstituteClean(s, TOKENS[t], draw, 0);
      FillClean(Substitute(s, TOKENS[t], draw, 0), h, line, t + 1);
    }
  }

  lemma NewValueClean(raw: string, h: Host, line: nat)
    requires HasKey(raw) && OneLine(raw) && ValidHost(h) && NewValue(raw, h, line).Some?
    ensures Clean(NewValue(raw, h, line).value)
  {
    ValueClean(raw);
    hide Fill, HasKey;
    if ValueText(raw) == HOST_PORT {
      var port := h.env(KeyOf(raw));
      forall i | 0 <= i < |port| ensures !PythonSpace(port[i]) && !Break(port[i]) {
        BreakIsSpace(port[i]);
      }
      FillClean(port, h, line, 0);
    } else {
      FillClean(ValueText(raw), h, line, 0);
    }
  }

  lemma UpgradeClean(name: string, v: string)
    requires Clean(v)
    ensures Clean(Upgrade(name, v))
  {
    if name == KEY_NAME && LegacyKey(v) {
      var b := FromHex(v);
      EncodedLength(b);
      hide Encode;
      DrawClean(KeyText(b)) by {
        assert forall i :: 0 <= i < |PREFIX| ==> InAlphabet(PREFIX[i]);
      }
    }
  }

  // ----- one run writes what the next run reads -----

  /** `out` is the lines with the values of `m` behind their keys and every other line unchanged. */
  predicate Carries(lines: seq<string>, out: seq<string>, m: map<string, string>) {
    |out| == |lines| && forall i :: 0 <= i < |lines| ==> CarriesLine(lines[i], out[i], m)
  }

  predicate CarriesLine(raw: string, line: string, m: map<string, string>) {
    if HasKey(raw) then KeyOf(raw) in m && line == KeyOf(raw) + "=" + m[KeyOf(raw)] else line == raw
  }

  predicate OneLines(lines: seq<string>) {
    forall l :: l in lines ==> OneLine(l)
  }

  lemma {:induction false} ParsedClean(lines: seq<string>)
    requires OneLines(lines) && ParseLines(lines).Some?
    ensures CleanValues(ParseLines(lines).value)
  {
    hide Clean, OneLine, Significant, HasKey;
    if lines != [] {
      var n := |lines| - 1;
      assert lines[n] in lines;
      ParsedClean(lines[..n]);
      if Significant(lines[n]) {
        ValueClean(lines[n]);
      }
    }
  }

  /** What a successful rendering parses to: the template's keys, each existing value (upgraded where
      it is a legacy key), and clean new values. */
  lemma {:induction false} RenderedParses(lines: seq<string>, existing: map<string, string>, h: Host)
    requires OneLines(lines) && CleanValues(existing) && ValidHost(h)
    requires ParseLines(lines).Some? && RenderLines(lines, existing, h).Some?
    ensures var out := RenderLines(lines, existing, h).value;
            && OneLines(out) && |out| == |lines| && ParseLines(out).Some?
            && var m := ParseLines(out).value;
            && m.Keys == ParseLines(lines).value.Keys && CleanValues(m)
            && Carries(lines, out, m)
            && forall k :: k in m && k in existing ==> m[k] == Upgrade(k, existing[k])
  {
    if lines != [] {
      var n := |lines| - 1;
      RenderedParses(lines[..n], existing, h);
      RenderedLine(lines, existing, h);
    }
  }

  lemma LineParses(raw: string, existing: map<string, string>, h: Host, n: nat)
    requires OneLine(raw) && CleanValues(existing) && ValidHost(h) && RenderLine(raw, existing, h, n).Some?
    ensures var line := RenderLine(raw, existing, h, n).value;
            && OneLine(line)
            && (if HasKey(raw) then
                  HasKey(line) && KeyOf(line) == KeyOf(raw) && Clean(ValueText(line)) && line == KeyOf(raw) + "=" + ValueText(line) &&
                  (KeyOf(raw) in existing ==> ValueText(line) == Upgrade(KeyOf(raw), existing[KeyOf(raw)]))
                else line == raw)
  {
    hide HasKey, KeyOf, ValueText, OneLine, Clean, Upgrade, NewValue;
    if HasKey(raw) {
      if KeyOf(raw) in existing {
        UpgradeClean(KeyOf(raw), existing[KeyOf(raw)]);
        KeyLineReads(raw, Upgrade(KeyOf(raw), existing[KeyOf(raw)]));
      } else {
        NewValueClean(raw, h, n);
        KeyLineReads(raw, NewValue(raw, h, n).value);
      }
    }
  }

  lemma RenderedLine(lines: seq<string>, existing: map<string, string>, h: Host)
    requires lines != [] && OneLines(lines) && CleanValues(existing) && ValidHost(h)
    requires ParseLines(lines).Some? && RenderLines(lines, existing, h).Some?
    requires var init := lines[..|lines| - 1];
             var out := RenderLines(init, existing, h).value;
             && OneLines(out) && |out| == |init| && ParseLines(out).Some?
             && var m := ParseLines(out).value;
             && m.Keys == ParseLines(init).value.Keys && CleanValues(m)
             && Carries(init, out, m)
             && forall k :: k in m && k in existing ==> m[k] == Upgrade(k, existing[k])
    ensures var out := RenderLines(lines, existing, h).value;
            && OneLines(out) && |out| == |lines| && ParseLines(out).Some?
            && var m := ParseLines(out).value;
            && m.Keys == ParseLines(lines).value.Keys && CleanValues(m)
            && Carries(lines, out, m)
            && forall k :: k in m && k in existing ==> m[k] == Upgrade(k, existing[k])
  {
    hide HasKey, KeyOf, ValueText, OneLine, Clean, Upgrade, RenderLine, Significant;
    var n := |lines| - 1;
    var raw, init := lines[n], lines[..n];
    assert raw in lines;
    LineParses(raw, existing, h, n);
    SignificantHasKey(raw);
    var before, line := RenderLines(init, existing, h).value, RenderLine(raw, existing, h, n).value;
    SignificantHasKey(line);
    var out := before + [line];
    assert out[..n] == before && out[n] == line;
    var earlier := ParseLines(before).value;
    var m := ParseLines(out).value;
    forall i | 0 <= i < |lines| ensures CarriesLine(lines[i], out[i], m) {
      if i < n {
        assert lines[i] == init[i] && out[i] == before[i] && CarriesLine(init[i], before[i], earlier);
      }
    }
  }

  lemma SignificantHasKey(raw: string)
    ensures HasKey(raw) ==> Significant(raw)
  {
  }

  /** Rendering over a map with all keys needs neither the host nor the generators. */
  lemma {:induction false} RenderOver(lines: seq<string>, m: map<string, string>, h: Host)
    requires forall raw :: raw in lines && HasKey(raw) ==> KeyOf(raw) in m
    ensures RenderLines(lines, m, h).Some?
    ensures Carries(lines, RenderLines(lines, m, h).value, map k | k in m :: Upgrade(k, m[k]))
  {
    hide HasKey, KeyOf, Upgrade;
    if lines != [] {
      var n := |lines| - 1;
      var raw, init := lines[n], lines[..n];
      assert raw in lines;
      RenderOver(init, m, h);
      var up := map k | k in m :: Upgrade(k, m[k]);
      var before, line := RenderLines(init, m, h).value, RenderLine(raw, m, h, n).value;
      forall i | 0 <= i < |lines| ensures CarriesLine(lines[i], (before + [line])[i], up) {
        if i < n {
          assert lines[i] == init[i] && CarriesLine(init[i], before[i], up);
        }
      }
    }
  }

  /** What the output lines say determines the values. */
  lemma SameCarried(lines: seq<string>, a: seq<string>, b: seq<string>, m: map<string, string>, n: map<string, string>)
    requires Carries(lines, a, m) && Carries(lines, b, n)
    ensures a == b <==> forall i :: 0 <= i < |lines| && HasKey(lines[i]) ==> m[KeyOf(lines[i])] == n[KeyOf(lines[i])]
  {
    hide HasKey, KeyOf;
    forall i | 0 <= i < |lines|
      ensures a[i] == b[i] <==> (HasKey(lines[i]) ==> m[KeyOf(lines[i])] == n[KeyOf(lines[i])])
    {
      assert CarriesLine(lines[i], a[i], m) && CarriesLine(lines[i], b[i], n);
      if HasKey(lines[i]) {
        var head := KeyOf(lines[i]) + "=";
        assert a[i][|head|..] == m[KeyOf(lines[i])] && b[i][|head|..] == n[KeyOf(lines[i])];
      }
    }
  }

  // ----- the second run -----

  /** The local file after a run that did not fail. */
  function FileAfter(file: Option<string>, o: Outcome): string
    requires o.Written? || (o.Current? && file.Some?)
  {
    if o.Written? then o.text else file.value
  }

  function Parsed(text: string): Option<map<string, string>> { ParseLines(Lines(text)) }

  /** The CMS key in the file is still in its legacy form. */
  predicate LegacyLeft(text: string) {
    var m := Parsed(text);
    m.Some? && KEY_NAME in m.value && LegacyKey(m.value[KEY_NAME])
  }

  lemma LinesAreOneLine(content: string)
    ensures OneLines(Lines(content))
  {
    LinesOneLine(content, "");
  }

  lemma EmptyDocument()
    ensures ParseLines(Lines(Document([]))) == Some(map[])
  {
    assert Document([]) == "\n";
    assert Lines("\n") == [""] by {
      assert "\n"[1..] == "";
    }
    assert Trim("") == "";
    assert [""][..0] == [];
  }

  lemma DocumentParses(out: seq<string>)
    requires OneLines(out)
    ensures Parsed(Document(out)) == ParseLines(out)
  {
    if out == [] {
      EmptyDocument();
    } else {
      DocumentLines(out);
    }
  }

  lemma DocumentInjective(a: seq<string>, b: seq<string>)
    requires OneLines(a) && OneLines(b) && |a| == |b|
    ensures Document(a) == Document(b) <==> a == b
  {
    if a != [] {
      DocumentLines(a);
      DocumentLines(b);
    }
  }

  lemma {:induction false} KeysFromLines(lines: seq<string>, k: string)
    requires ParseLines(lines).Some? && k in ParseLines(lines).value
    ensures exists i :: 0 <= i < |lines| && HasKey(lines[i]) && KeyOf(lines[i]) == k
  {
    hide HasKey, Significant, KeyOf, ValueText;
    var n := |lines| - 1;
    if lines != [] {
      var before := ParseLines(lines[..n]).value;
      if k in before {
        KeysFromLines(lines[..n], k);
        var i :| 0 <= i < n && HasKey(lines[..n][i]) && KeyOf(lines[..n][i]) == k;
        assert lines[i] == lines[..n][i];
      }
    }
  }

  /** What a successful run leaves in the file: the template's keys, and every existing value except a
      legacy CMS key, which becomes its re-encoding. */
  lemma RunKeepsValues(template: string, file: Option<string>, h: Host)
    requires ValidHost(h) && !Run(template, file, h).Failed?
    ensures var existing := if file.Some? then Parsed(file.value).value else map[];
            var m := Parsed(FileAfter(file, Run(template, file, h)));
            && m.Some? && m.value.Keys == Parsed(template).value.Keys
            && forall k :: k in existing ==> k in m.value && m.value[k] == Upgrade(k, existing[k])
  {
    var out := RunLines(template, file, h);
  }

  /** The lines of the file that a successful run leaves. */
  lemma RunLines(template: string, file: Option<string>, h: Host) returns (out: seq<string>)
    requires ValidHost(h) && !Run(template, file, h).Failed?
    ensures var lines := Lines(template);
            var existing := if file.Some? then Parsed(file.value).value else map[];
            && OneLines(out) && |out| == |lines| && ParseLines(out).Some? && ParseLines(lines).Some?
            && Some(out) == RenderLines(lines, existing, h)
            && Document(out) == FileAfter(file, Run(template, file, h)) && !Unresolved(Document(out))
            && Parsed(Document(out)) == ParseLines(out)
            && ParseLines(out).value.Keys == ParseLines(lines).value.Keys
            && Carries(lines, out, ParseLines(out).value)
            && forall k :: k in existing ==>
                 k in ParseLines(out).value && ParseLines(out).value[k] == Upgrade(k, existing[k])
  {
    hide Lines, ParseLines, RenderLines, Unresolved, Document, OneLines, CleanValues, Carries, Upgrade, ValidHost;
    var lines := Lines(template);
    var existing := if file.Some? then Parsed(file.value).value else map[];
    LinesAreOneLine(template);
    NoValues();
    if file.Some? {
      LinesAreOneLine(file.value);
      ParsedClean(Lines(file.value));
    }
    RenderedParses(lines, existing, h);
    out := RenderLines(lines, existing, h).value;
    DocumentParses(out);
  }

  lemma NoValues()
    ensures CleanValues(map[])
  {
  }

  /** Idempotence, exactly: whatever the host and the generators, the second run leaves the file as it
      is if and only if the first left no CMS key in its legacy form. */
  lemma SecondRun(template: string, file: Option<string>, first: Host, second: Host)
    requires ValidHost(first) && !Run(template, file, first).Failed?
    ensures var text := FileAfter(file, Run(template, file, first));
            Run(template, Some(text), second) == Current <==> !LegacyLeft(text)
  {
    hide Lines, ParseLines, RenderLines, Unresolved, Document, Carries, HasKey, KeyOf, ValidHost;
    var out := RunLines(template, file, first);
    var lines, m := Lines(template), ParseLines(out).value;
    KeysCarried(lines, out, m);
    RenderOver(lines, m, second);
    var up := map k | k in m :: Upgrade(k, m[k]);
    var again := RenderLines(lines, m, second).value;
    CarriedOneLines(lines, out, m, again, second);
    DocumentInjective(out, again);
    SameCarried(lines, out, again, m, up);
    if LegacyLeft(Document(out)) {
      assert KEY_NAME in m.Keys;
      KeysFromLines(lines, KEY_NAME);
      NeverLegacyAfter(m[KEY_NAME]);
    } else {
      forall k | k in m ensures Upgrade(k, m[k]) == m[k] {}
    }
  }

  lemma KeysCarried(lines: seq<string>, out: seq<string>, m: map<string, string>)
    requires Carries(lines, out, m)
    ensures forall raw :: raw in lines && HasKey(raw) ==> KeyOf(raw) in m
  {
    hide HasKey, KeyOf;
    forall raw | raw in lines && HasKey(raw) ensures KeyOf(raw) in m {
      var i :| 0 <= i < |lines| && lines[i] == raw;
      assert CarriesLine(lines[i], out[i], m);
    }
  }

  lemma CarriedOneLines(lines: seq<string>, out: seq<string>, m: map<string, string>, again: seq<string>, h: Host)
    requires OneLines(out) && ParseLines(out) == Some(m) && Carries(lines, out, m)
    requires Carries(lines, again, map k | k in m :: Upgrade(k, m[k]))
    ensures OneLines(again) && |again| == |out|
  {
    hide HasKey, KeyOf, OneLine, Upgrade, ParseLines;
    ParsedClean(out);
    var up := map k | k in m :: Upgrade(k, m[k]);
    forall l | l in again ensures OneLine(l) {
      var i :| 0 <= i < |again| && again[i] == l;
      assert CarriesLine(lines[i], out[i], m) && CarriesLine(lines[i], again[i], up);
      assert out[i] in out;
      if HasKey(lines[i]) {
        var head, v := KeyOf(lines[i]) + "=", m[KeyOf(lines[i])];
        OneLineCat(head, v);
        UpgradeClean(KeyOf(lines[i]), v);
        OneLineCat(head, Upgrade(KeyOf(lines[i]), v));
      }
    }
  }

  /** The condition never arises for a file that has the key already. */
  lemma ExistingKeyIsSafe(template: string, file: string, h: Host)
    requires ValidHost(h) && !Run(template, Some(file), h).Failed? && KEY_NAME in Parsed(file).value
    ensures !LegacyLeft(FileAfter(Some(file), Run(template, Some(file), h)))
  {
    hide Run, Parsed, Upgrade, ValidHost, LegacyKey;
    assert Parsed(file).Some? by { RunParsed(template, file, h); }
    RunKeepsValues(template, Some(file), h);
    NeverLegacyAfter(Parsed(file).value[KEY_NAME]);
  }

  lemma RunParsed(template: string, file: string, h: Host)
    requires !Run(template, Some(file), h).Failed?
    ensures Parsed(file).Some?
  {
  }

  // ----- templates for which the condition never arises -----

  /** The part of `s` before its first underscore. */
  function Head(s: string): string { s[..FirstIndex(s, '_')] }

  lemma {:induction false} SubstituteHead(s: string, token: string, draw: nat -> string, k: nat, head: string)
    requires token != [] && token[0] == '_' && Free(head, '_') && head <= s
    ensures head <= Substitute(s, token, draw, k)
    decreases |s|
  {
    if head != [] {
      assert s[0] == head[0] && s[0] != '_';
      assert !(token <= s);
      assert head[1..] <= s[1..];
      SubstituteHead(s[1..], token, draw, k, head[1..]);
      assert head == [head[0]] + head[1..];
    }
  }

  lemma {:induction false} FillHead(s: string, h: Host, line: nat, t: nat, head: string)
    requires t <= |TOKENS| && Free(head, '_') && head <= s
    ensures head <= Fill(s, h, line, t)
    decreases |TOKENS| - t
  {
    hide Substitute, Free;
    if t < |TOKENS| {
      TokensStart(t);
      var draw := (k: nat) => h.draw(line, t, k);
      SubstituteHead(s, TOKENS[t], draw, 0, head);
      FillHead(Substitute(s, TOKENS[t], draw, 0), h, line, t + 1, head);
    }
  }

  lemma TokensStart(t: nat)
    requires t < |TOKENS|
    ensures TOKENS[t] != [] && TOKENS[t][0] == '_'
  {
  }

  predicate NotHex(s: string) {
    exists i :: 0 <= i < |s| && !LowerHex(s[i])
  }

  /** The template's CMS value starts, before any underscore, with something that is not hexadecimal,
      as in `emdash_enc_v1_...`. */
  predicate SafeTemplate(template: string) {
    forall raw :: raw in Lines(template) && HasKey(raw) && KeyOf(raw) == KEY_NAME ==>
      ValueText(raw) != HOST_PORT && NotHex(Head(ValueText(raw)))
  }

  lemma PrefixNotLegacy(head: string, v: string)
    requires head <= v && NotHex(head)
    ensures !LegacyKey(v)
  {
    var i :| 0 <= i < |head| && !LowerHex(head[i]);
    assert v[i] == head[i];
  }

  lemma {:induction false} RenderedAt(lines: seq<string>, existing: map<string, string>, h: Host, i: nat)
    requires i < |lines| && RenderLines(lines, existing, h).Some?
    ensures |RenderLines(lines, existing, h).value| == |lines|
    ensures RenderLine(lines[i], existing, h, i) == Some(RenderLines(lines, existing, h).value[i])
  {
    hide RenderLine;
    var n := |lines| - 1;
    if i < n {
      RenderedAt(lines[..n], existing, h, i);
    } else if n > 0 {
      RenderedAt(lines[..n], existing, h, 0);
    }
  }

  /** The first run writes a new CMS key, and the value it fills in is 64 hexadecimal digits. */
  ghost predicate LegacyNew(template: string, file: Option<string>, h: Host) {
    (file.Some? ==> Parsed(file.value).Some? && KEY_NAME !in Parsed(file.value).value) &&
    exists i :: 0 <= i < |Lines(template)| && LegacyLineAt(Lines(template)[i], h, i)
  }

  predicate LegacyLineAt(raw: string, h: Host, line: nat) {
    HasKey(raw) && KeyOf(raw) == KEY_NAME && NewValue(raw, h, line).Some? && LegacyKey(NewValue(raw, h, line).value)
  }

  /** One key line, rendered: its value is a legacy key only when it is a new one. */
  lemma RenderedLegacy(raw: string, existing: map<string, string>, h: Host, line: nat, v: string)
    requires HasKey(raw) && KeyOf(raw) == KEY_NAME && RenderLine(raw, existing, h, line) == Some(KEY_NAME + "=" + v)
    ensures LegacyKey(v) <==> KEY_NAME !in existing && LegacyLineAt(raw, h, line)
  {
    hide HasKey, KeyOf, NewValue, Upgrade, LegacyKey;
    if KEY_NAME in existing {
      NeverLegacyAfter(existing[KEY_NAME]);
      SameValue(KEY_NAME + "=", v, Upgrade(KEY_NAME, existing[KEY_NAME]));
    } else {
      SameValue(KEY_NAME + "=", v, NewValue(raw, h, line).value);
    }
  }

  /** The condition of `SecondRun`, known before the first run. */
  lemma LegacyLeftExactly(template: string, file: Option<string>, first: Host)
    requires ValidHost(first) && !Run(template, file, first).Failed?
    ensures LegacyLeft(FileAfter(file, Run(template, file, first))) <==> LegacyNew(template, file, first)
  {
    hide Lines, RenderLines, RenderLine, ParseLines, Document, HasKey, KeyOf, LegacyKey, Carries, LegacyLineAt, ValidHost;
    var existing := if file.Some? then Parsed(file.value).value else map[];
    var out := RunLines(template, file, first);
    var lines, m := Lines(template), ParseLines(out).value;
    hide Run;
    forall i | 0 <= i < |lines| && HasKey(lines[i]) && KeyOf(lines[i]) == KEY_NAME
      ensures KEY_NAME in m
      ensures LegacyKey(m[KEY_NAME]) <==> KEY_NAME !in existing && LegacyLineAt(lines[i], first, i)
    {
      CarriedAt(lines, out, m, i);
      RenderedAt(lines, existing, first, i);
      RenderedLegacy(lines[i], existing, first, i, m[KEY_NAME]);
    }
    if KEY_NAME in m {
      assert KEY_NAME in m.Keys;
      KeysFromLines(lines, KEY_NAME);
    }
    forall i | 0 <= i < |lines| && LegacyLineAt(lines[i], first, i) ensures HasKey(lines[i]) && KeyOf(lines[i]) == KEY_NAME {
      LegacyLineKey(lines[i], first, i);
    }
    RunParsedAll(template, file, first);
  }

  lemma LegacyLineKey(raw: string, h: Host, line: nat)
    requires LegacyLineAt(raw, h, line)
    ensures HasKey(raw) && KeyOf(raw) == KEY_NAME
  {
  }

  lemma RunParsedAll(template: string, file: Option<string>, h: Host)
    requires !Run(template, file, h).Failed?
    ensures file.Some? ==> Parsed(file.value).Some?
  {
  }

  /** Idempotence from the inputs: the second run leaves the file alone exactly when the first does not
      fill in a new CMS key that is 64 hexadecimal digits. */
  lemma SecondRunByInputs(template: string, file: Option<string>, first: Host, second: Host)
    requires ValidHost(first) && !Run(template, file, first).Failed?
    ensures Run(template, Some(FileAfter(file, Run(template, file, first))), second) == Current <==>
            !LegacyNew(template, file, first)
  {
    hide Run, LegacyLeft, LegacyNew, ValidHost;
    SecondRun(template, file, first, second);
    LegacyLeftExactly(template, file, first);
  }

  lemma NewIsSafe(raw: string, h: Host, line: nat)
    requires HasKey(raw) && ValueText(raw) != HOST_PORT && NotHex(Head(ValueText(raw)))
    ensures NewValue(raw, h, line).Some? && !LegacyKey(NewValue(raw, h, line).value)
  {
    hide Fill, HasKey, KeyOf, ValueText, LegacyKey;
    var s := ValueText(raw);
    FillHead(s, h, line, 0, Head(s));
    PrefixNotLegacy(Head(s), Fill(s, h, line, 0));
  }

  /** For such a template every successful run is idempotent, whatever file it started from. */
  lemma SafeTemplateIsIdempotent(template: string, file: Option<string>, first: Host, second: Host)
    requires ValidHost(first) && !Run(template, file, first).Failed? && SafeTemplate(template)
    ensures Run(template, Some(FileAfter(file, Run(template, file, first))), second) == Current
  {
    hide Run, Lines, HasKey, KeyOf, ValueText, NewValue, LegacyKey, NotHex, Head, ValidHost, FileAfter;
    SecondRunByInputs(template, file, first, second);
    forall i | 0 <= i < |Lines(template)| ensures !LegacyLineAt(Lines(template)[i], first, i) {
      var raw := Lines(template)[i];
      if HasKey(raw) && KeyOf(raw) == KEY_NAME {
        assert raw in Lines(template);
        NewIsSafe(raw, first, i);
      }
    }
  }

  lemma CarriedAt(lines: seq<string>, out: seq<string>, m: map<string, string>, i: nat)
    requires i < |lines| && Carries(lines, out, m) && HasKey(lines[i])
    ensures KeyOf(lines[i]) in m && i < |out| && out[i] == KeyOf(lines[i]) + "=" + m[KeyOf(lines[i])]
  {
    hide HasKey, KeyOf;
    assert CarriesLine(lines[i], out[i], m);
  }

  lemma SameValue(head: string, a: string, b: string)
    ensures head + a == head + b ==> a == b
  {
    assert (head + a)[|head|..] == a && (head + b)[|head|..] == b;
  }

  // ----- a template for which it does arise -----

  lemma {:induction false} SubstituteNothing(s: string, token: string, draw: nat -> string, k: nat)
    requires token != [] && token[0] == '_' && Free(s, '_')
    ensures Substitute(s, token, draw, k) == s
    decreases |s|
  {
    if s != [] {
      assert s[0] != '_' && !(token <= s);
      SubstituteNothing(s[1..], token, draw, k);
      assert s == [s[0]] + s[1..];
    }
  }

  lemma {:induction false} FillNothing(s: string, h: Host, line: nat, t: nat)
    requires t <= |TOKENS| && Free(s, '_')
    ensures Fill(s, h, line, t) == s
    decreases |TOKENS| - t
  {
    hide Substitute, Free;
    if t < |TOKENS| {
      TokensStart(t);
      SubstituteNothing(s, TOKENS[t], (k: nat) => h.draw(line, t, k), 0);
      FillNothing(s, h, line, t + 1);
    }
  }

  predicate KeyChar(c: char) { 'A' <= c <= 'Z' || c == '_' }

  predicate KeyWord(key: string) { key != [] && forall i :: 0 <= i < |key| ==> KeyChar(key[i]) }

  lemma PlainLineTrimmed(key: string, v: string)
    requires KeyWord(key) && LegacyKey(v)
    ensures Trim(key + "=" + v) == key + "=" + v && OneLine(key + "=" + v)
  {
    var raw := key + "=" + v;
    assert raw[0] == key[0] && KeyChar(key[0]);
    assert raw[|raw| - 1] == v[63] && LowerHex(v[63]);
    assert Trimmed(raw, PythonSpace);
    forall i | 0 <= i < |raw| ensures !Break(raw[i]) {
      if i < |key| {
        assert KeyChar(raw[i]);
      } else if i > |key| {
        assert raw[i] == v[i - |key| - 1] && LowerHex(v[i - |key| - 1]);
      }
    }
  }

  lemma PlainLine(key: string, v: string)
    requires KeyWord(key) && LegacyKey(v)
    ensures var raw := key + "=" + v; OneLine(raw) && HasKey(raw) && KeyOf(raw) == key && ValueText(raw) == v
  {
    hide *;
    PlainLineTrimmed(key, v);
    FirstEquals(key, v);
    PlainSlices(key, v);
    LineParts(key + "=" + v, key, v);
  }

  lemma PlainSlices(key: string, v: string)
    requires KeyWord(key)
    ensures var raw := key + "=" + v;
            |raw| > |key| && raw[..|key|] == key && raw[|key| + 1..] == v && raw[0] != '#'
  {
    var raw := key + "=" + v;
    assert raw[0] == key[0] && KeyChar(key[0]);
  }

  lemma LineParts(raw: string, key: string, v: string)
    requires Trim(raw) == raw && raw != "" && raw[0] != '#'
    requires FirstIndex(raw, '=') == |key| < |raw| && raw[..|key|] == key && raw[|key| + 1..] == v
    ensures HasKey(raw) && KeyOf(raw) == key && ValueText(raw) == v
  {
    hide Trim, FirstIndex;
  }

  lemma FirstEquals(key: string, v: string)
    requires KeyWord(key)
    ensures FirstIndex(key + "=" + v, '=') == |key|
  {
    hide FirstIndex;
    var raw := key + "=" + v;
    assert raw[..|key|] == key && raw[|key|] == '=';
    assert forall i :: 0 <= i < |key| ==> KeyChar(key[i]);
    FirstIndexUnique(raw, '=', |key|);
  }

  lemma LegacyText(v: string)
    requires LegacyKey(v)
    ensures v != HOST_PORT && Free(v, '_')
  {
    assert |HOST_PORT| == 13;
    assert forall i :: 0 <= i < |v| ==> LowerHex(v[i]);
  }

  lemma KeyNameWord()
    ensures KeyWord(KEY_NAME)
  {
  }

  lemma LegacyLine(v: string)
    requires LegacyKey(v)
    ensures var raw := KEY_NAME + "=" + v;
            OneLine(raw) && HasKey(raw) && KeyOf(raw) == KEY_NAME && ValueText(raw) == v && v != HOST_PORT && Free(v, '_')
  {
    LegacyText(v);
    hide *;
    KeyNameWord();
    PlainLine(KEY_NAME, v);
  }

  lemma NoDoubleUnderscore(v: string)
    requires LegacyKey(v)
    ensures !Unresolved(KEY_NAME + "=" + v + "\n")
  {
    var s := KEY_NAME + "=" + v + "\n";
    assert |KEY_NAME| == 18;
    forall i, j | 0 <= i < j <= |s| ensures !UnresolvedAt(s, i, j) {
      if i + 11 < j - 2 {
        assert s[i..i + 11][0] == s[i] && s[i..i + 11][1] == s[i + 1];
        assert "__GENERATE_"[0] == '_' && "__GENERATE_"[1] == '_';
        NotDouble(v, i);
      }
    }
  }

  lemma NotDouble(v: string, i: nat)
    requires LegacyKey(v) && i + 1 < |KEY_NAME + "=" + v + "\n"|
    ensures var s := KEY_NAME + "=" + v + "\n"; !(s[i] == '_' && s[i + 1] == '_')
  {
    var s := KEY_NAME + "=" + v + "\n";
    if i + 1 < 18 {
      assert s[i] == KEY_NAME[i] && s[i + 1] == KEY_NAME[i + 1];
    } else if 19 <= i < 83 {
      assert s[i] == v[i - 19];
    }
  }

  /** A template that spells the CMS key in hexadecimal: the first run leaves the legacy form, so by
      `SecondRun` the second run does not leave the file alone. */
  lemma HexTemplateIsNotIdempotent(v: string, first: Host, second: Host)
    requires LegacyKey(v) && ValidHost(first)
    ensures var template := KEY_NAME + "=" + v + "\n";
            && Run(template, None, first) == Written(template)
            && Run(template, Some(template), second) != Current
  {
    var raw := KEY_NAME + "=" + v;
    var template := raw + "\n";
    LegacyLine(v);
    DocumentLines([raw]);
    assert Document([raw]) == template;
    NoDoubleUnderscore(v);
    FillNothing(v, first, 0, 0);
    OneKeyLine(raw, v, first);
    assert Run(template, None, first) == Written(template);
    assert LegacyLeft(template);
    SecondRun(template, None, first, second);
  }

  lemma OneKeyLine(raw: string, v: string, h: Host)
    requires HasKey(raw) && KeyOf(raw) == KEY_NAME && ValueText(raw) == v && raw == KEY_NAME + "=" + v
    requires v != HOST_PORT && Fill(v, h, 0, 0) == v
    ensures ParseLines([raw]) == Some(map[KEY_NAME := v])
    ensures RenderLines([raw], map[], h) == Some([raw])
  {
    NewKeyLine(raw, v, h);
    SignificantHasKey(raw);
    SingleLine(raw, h);
    hide HasKey, KeyOf, ValueText, Fill, RenderLine, Significant;
    assert [raw][..0] == [];
  }

  lemma NewKeyLine(raw: string, v: string, h: Host)
    requires HasKey(raw) && KeyOf(raw) == KEY_NAME && ValueText(raw) == v && raw == KEY_NAME + "=" + v
    requires v != HOST_PORT && Fill(v, h, 0, 0) == v
    ensures RenderLine(raw, map[], h, 0) == Some(raw)
  {
    hide HasKey, KeyOf, ValueText, Fill, Upgrade;
    assert NewValue(raw, h, 0) == Some(v);
  }

  lemma SingleLine(raw: string, h: Host)
    requires RenderLine(raw, map[], h, 0) == Some(raw)
    ensures RenderLines([raw], map[], h) == Some([raw])
  {
    hide RenderLine;
    assert [raw][..0] == [];
    assert RenderLines([], map[], h) == Some([]);
    assert [] + [raw] == [raw];
  }
}
