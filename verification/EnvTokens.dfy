/** What `tools/dx/generate_secrets.py` writes for the keys that the local file does not have yet: the
    values of its tokens, one by one. */
module EnvTokens {
  import opened Text
  import opened EnvFile
  import EnvLines

  // ----- one token -----

  predicate OccursAt(s: string, w: string, i: nat) { i + |w| <= |s| && s[i..i + |w|] == w }

  ghost predicate Absent(s: string, w: string) { forall i: nat :: !OccursAt(s, w, i) }

  /** The raw texts with a token between each two. */
  function Original(raws: seq<string>, token: string): string
    requires raws != []
  {
    if |raws| == 1 then raws[0] else raws[0] + (token + Original(raws[1..], token))
  }

  /** The raw texts with drawn values in between, from number `k` on. */
  function Drawn(raws: seq<string>, draw: nat -> string, k: nat): string
    requires raws != []
  {
    if |raws| == 1 then raws[0] else raws[0] + (draw(k) + Drawn(raws[1..], draw, k + 1))
  }

  /** Every occurrence of a token is replaced, each by a value drawn for it alone, and nothing else changes. */
  lemma {:induction false} SubstituteExactly(s: string, token: string, draw: nat -> string, k: nat) returns (raws: seq<string>)
    requires token != ""
    ensures raws != [] && (forall r :: r in raws ==> Absent(r, token))
    ensures s == Original(raws, token) && Substitute(s, token, draw, k) == Drawn(raws, draw, k)
    decreases |s|
  {
    hide OccursAt;
    if s == "" {
      raws := [""];
      NotInEmpty(token);
    } else if token <= s {
      var rest := SubstituteExactly(s[|token|..], token, draw, k + 1);
      raws := [""] + rest;
      NotInEmpty(token);
      assert raws[1..] == rest && s == "" + (token + s[|token|..]);
      assert "" + (draw(k) + Drawn(rest, draw, k + 1)) == draw(k) + Drawn(rest, draw, k + 1);
    } else {
      var rest := SubstituteExactly(s[1..], token, draw, k);
      raws := [[s[0]] + rest[0]] + rest[1..];
      assert s == [s[0]] + s[1..];
      OneMoreRaw(s[0], rest, token, draw, k);
      StillAbsent(s[0], rest, token, s);
      assert forall r :: r in raws ==> r == raws[0] || r in rest;
    }
  }

  lemma NotInEmpty(token: string)
    requires token != ""
    ensures Absent("", token)
  {
  }

  lemma OneMoreRaw(c: char, rest: seq<string>, token: string, draw: nat -> string, k: nat)
    requires rest != []
    ensures var raws := [[c] + rest[0]] + rest[1..];
            Original(raws, token) == [c] + Original(rest, token) && Drawn(raws, draw, k) == [c] + Drawn(rest, draw, k)
  {
    var raws := [[c] + rest[0]] + rest[1..];
    assert raws[1..] == rest[1..];
  }

  lemma StillAbsent(c: char, rest: seq<string>, token: string, s: string)
    requires rest != [] && Absent(rest[0], token) && s == [c] + Original(rest, token) && !(token <= s)
    ensures Absent([c] + rest[0], token)
  {
    var r := [c] + rest[0];
    FirstRaw(rest, token);
    forall i: nat ensures !OccursAt(r, token, i) {
      if OccursAt(r, token, i) && i > 0 {
        assert r[i..i + |token|] == rest[0][i - 1..i - 1 + |token|];
        assert OccursAt(rest[0], token, i - 1);
      }
    }
  }

  lemma FirstRaw(raws: seq<string>, token: string)
    requires raws != []
    ensures raws[0] <= Original(raws, token)
  {
  }

  lemma Shifted(s: string, w: string, i: nat)
    requires s != ""
    ensures OccursAt(s[1..], w, i) <==> OccursAt(s, w, i + 1)
  {
    if i + 1 + |w| <= |s| {
      assert s[1..][i..i + |w|] == s[i + 1..i + 1 + |w|];
    }
  }

  lemma {:induction false} SubstituteAbsent(s: string, token: string, draw: nat -> string, k: nat)
    requires token != "" && Absent(s, token)
    ensures Substitute(s, token, draw, k) == s
    decreases |s|
  {
    if s != "" {
      assert !OccursAt(s, token, 0);
      forall i: nat ensures !OccursAt(s[1..], token, i) {
        assert !OccursAt(s, token, i + 1);
        Shifted(s, token, i);
      }
      SubstituteAbsent(s[1..], token, draw, k);
    }
  }

  lemma {:induction false} SubstituteFirst(a: string, token: string, rest: string, draw: nat -> string, k: nat)
    requires token != "" && forall i: nat :: i < |a| ==> !OccursAt(a + (token + rest), token, i)
    ensures Substitute(a + (token + rest), token, draw, k) == a + (draw(k) + Substitute(rest, token, draw, k + 1))
  {
    var s := a + (token + rest);
    if a == "" {
      assert s == token + rest && s[|token|..] == rest;
    } else {
      assert !OccursAt(s, token, 0);
      assert s[1..] == a[1..] + (token + rest);
      forall i: nat | i < |a| - 1 ensures !OccursAt(a[1..] + (token + rest), token, i) {
        assert !OccursAt(s, token, i + 1);
        Shifted(s, token, i);
      }
      SubstituteFirst(a[1..], token, rest, draw, k);
    }
  }

  // ----- the six tokens -----

  predicate DoubleAt(s: string, i: int) { 0 <= i < |s| - 1 && s[i] == '_' && s[i + 1] == '_' }

  ghost predicate NoDouble(s: string) { forall i :: !DoubleAt(s, i) }

  /** A token has double underscores exactly at its ends. */
  predicate Framed(w: string) {
    |w| >= 18 && w[2] == 'G' && forall i :: 0 <= i < |w| - 1 ==> (DoubleAt(w, i) <==> i == 0 || i == |w| - 2)
  }

  lemma TokensFramed()
    ensures |TOKENS| == 6 && forall t :: 0 <= t < 6 ==> Framed(TOKENS[t])
  {
    HexFramed("__GENERATE_HEX_32__");
    UrlsafeFramed("__GENERATE_URLSAFE_32__");
    Password24Framed("__GENERATE_PASSWORD_24__");
    Password32Framed("__GENERATE_PASSWORD_32__");
    IdentifierFramed("__GENERATE_IDENTIFIER_20__");
    EmailFramed("__GENERATE_EMAIL__");
    hide Framed;
  }

  lemma HexFramed(w: string)
    requires w == "__GENERATE_HEX_32__"
    ensures Framed(w)
  {
  }

  lemma UrlsafeFramed(w: string)
    requires w == "__GENERATE_URLSAFE_32__"
    ensures Framed(w)
  {
  }

  lemma Password24Framed(w: string)
    requires w == "__GENERATE_PASSWORD_24__"
    ensures Framed(w)
  {
  }

  lemma Password32Framed(w: string)
    requires w == "__GENERATE_PASSWORD_32__"
    ensures Framed(w)
  {
  }

  lemma IdentifierFramed(w: string)
    requires w == "__GENERATE_IDENTIFIER_20__"
    ensures Framed(w)
  {
  }

  lemma EmailFramed(w: string)
    requires w == "__GENERATE_EMAIL__"
    ensures Framed(w)
  {
  }

  /** Two texts differ where both have a character. */
  predicate Apart(a: string, b: string, k: nat) { k < |a| && k < |b| && a[k] != b[k] }

  lemma TokensDiffer(t: nat, u: nat)
    requires t < 6 && u < 6 && t != u
    ensures |TOKENS| == 6 && (Apart(TOKENS[t], TOKENS[u], 11) || Apart(TOKENS[t], TOKENS[u], 20))
  {
    HexKind("__GENERATE_HEX_32__");
    UrlsafeKind("__GENERATE_URLSAFE_32__");
    PasswordKind("__GENERATE_PASSWORD_24__", '2');
    PasswordKind("__GENERATE_PASSWORD_32__", '3');
    IdentifierKind("__GENERATE_IDENTIFIER_20__");
    EmailKind("__GENERATE_EMAIL__");
    var kinds, sizes := "HUPPIE", "  23  ";
    assert forall v :: 0 <= v < 6 ==> |TOKENS[v]| > 11 && TOKENS[v][11] == kinds[v];
    assert forall v :: 2 <= v < 4 ==> |TOKENS[v]| > 20 && TOKENS[v][20] == sizes[v];
    hide TOKENS;
  }

  lemma HexKind(w: string)
    requires w == "__GENERATE_HEX_32__"
    ensures |w| > 11 && w[11] == 'H'
  {
  }

  lemma UrlsafeKind(w: string)
    requires w == "__GENERATE_URLSAFE_32__"
    ensures |w| > 11 && w[11] == 'U'
  {
  }

  lemma PasswordKind(w: string, c: char)
    requires (w == "__GENERATE_PASSWORD_24__" && c == '2') || (w == "__GENERATE_PASSWORD_32__" && c == '3')
    ensures |w| > 20 && w[11] == 'P' && w[20] == c
  {
  }

  lemma IdentifierKind(w: string)
    requires w == "__GENERATE_IDENTIFIER_20__"
    ensures |w| > 11 && w[11] == 'I'
  {
  }

  lemma EmailKind(w: string)
    requires w == "__GENERATE_EMAIL__"
    ensures |w| > 11 && w[11] == 'E'
  {
  }

  // ----- a value with one token -----

  /** Where a framed text occurs, double underscores stand at both of its ends. */
  lemma OccurrenceEnds(s: string, u: string, i: nat)
    requires Framed(u) && OccursAt(s, u, i)
    ensures DoubleAt(s, i) && DoubleAt(s, i + |u| - 2) && forall k :: 0 <= k < |u| ==> s[i + k] == u[k]
  {
    hide Framed;
    FramedEnds(u);
    forall k | 0 <= k < |u| ensures s[i + k] == u[k] {
      assert s[i..i + |u|][k] == s[i + k];
    }
  }

  lemma FramedEnds(u: string)
    requires Framed(u)
    ensures |u| >= 18 && DoubleAt(u, 0) && DoubleAt(u, |u| - 2)
  {
  }

  lemma AbsentWithoutDouble(s: string, u: string)
    requires NoDouble(s) && Framed(u)
    ensures Absent(s, u)
  {
    hide Framed, DoubleAt, OccursAt;
    forall i: nat ensures !OccursAt(s, u, i) {
      if OccursAt(s, u, i) {
        OccurrenceEnds(s, u, i);
      }
    }
  }

  /** In a token between texts without underscores the only double underscores are its own. */
  lemma DoublesAround(a: string, w: string, b: string, i: nat)
    requires Free(a, '_') && Free(b, '_') && Framed(w) && DoubleAt(a + (w + b), i)
    ensures i == |a| || i == |a| + |w| - 2
  {
    var s := a + (w + b);
    assert forall k :: 0 <= k < |a| ==> s[k] == a[k];
    assert forall k :: |a| + |w| <= k < |s| ==> s[k] == b[k - |a| - |w|];
    assert DoubleAt(w, i - |a|);
  }

  /** Another token does not occur in it, and the token itself only in its place. */
  lemma OnlyItself(a: string, w: string, b: string, u: string, i: nat)
    requires Free(a, '_') && Free(b, '_') && Framed(w) && Framed(u) && OccursAt(a + (w + b), u, i)
    ensures i == |a| && forall k :: 0 <= k < |u| && k < |w| ==> u[k] == w[k]
  {
    hide Framed;
    var s := a + (w + b);
    OccurrenceEnds(s, u, i);
    DoublesAround(a, w, b, i);
    DoublesAround(a, w, b, i + |u| - 2);
    FramedEnds(u);
    assert forall k :: 0 <= k < |w| ==> s[|a| + k] == w[k];
  }

  lemma FillSkip(s: string, h: Host, line: nat, t: nat, n: nat)
    requires t <= n <= |TOKENS| && forall u :: t <= u < n ==> Absent(s, TOKENS[u])
    ensures Fill(s, h, line, t) == Fill(s, h, line, n)
    decreases n - t
  {
    hide Absent, Substitute;
    if t < n {
      TokensFramed();
      assert Framed(TOKENS[t]);
      SubstituteAbsent(s, TOKENS[t], (k: nat) => h.draw(line, t, k), 0);
      FillSkip(s, h, line, t + 1, n);
    }
  }

  lemma NoDoubleAround(a: string, d: string, b: string)
    requires Free(a, '_') && Free(b, '_') && NoDouble(d)
    ensures NoDouble(a + (d + b))
  {
    var s := a + (d + b);
    assert forall k :: 0 <= k < |a| ==> s[k] == a[k];
    assert forall k :: |a| + |d| <= k < |s| ==> s[k] == b[k - |a| - |d|];
    forall i ensures !DoubleAt(s, i) {
      assert DoubleAt(s, i) ==> DoubleAt(d, i - |a|);
    }
  }

  /** A value with one token between texts without underscores: exactly the token is replaced, by the
      value drawn for this line and this token. */
  lemma FillOne(a: string, t: nat, b: string, h: Host, line: nat)
    requires t < |TOKENS| && Free(a, '_') && Free(b, '_') && NoDouble(h.draw(line, t, 0))
    ensures Fill(a + (TOKENS[t] + b), h, line, 0) == a + (h.draw(line, t, 0) + b)
  {
    TokensFramed();
    hide *;
    var w, s := TOKENS[t], a + (TOKENS[t] + b);
    forall u | 0 <= u < t ensures Absent(s, TOKENS[u]) { OtherAbsent(a, t, b, u); }
    FillSkip(s, h, line, 0, t);
    FillStep(a, t, b, h, line);
    var r := a + (h.draw(line, t, 0) + b);
    NoDoubleAround(a, h.draw(line, t, 0), b);
    forall u | t + 1 <= u < |TOKENS| ensures Absent(r, TOKENS[u]) { AbsentWithoutDouble(r, TOKENS[u]); }
    FillSkip(r, h, line, t + 1, |TOKENS|);
    FillEnd(r, h, line);
  }

  lemma FillEnd(s: string, h: Host, line: nat)
    ensures Fill(s, h, line, |TOKENS|) == s
  {
  }

  lemma OtherAbsent(a: string, t: nat, b: string, u: nat)
    requires t < |TOKENS| && u < |TOKENS| && u != t && Free(a, '_') && Free(b, '_')
    ensures Absent(a + (TOKENS[t] + b), TOKENS[u])
  {
    TokensFramed();
    TokensDiffer(t, u);
    hide TOKENS, Framed, OccursAt;
    forall i: nat ensures !OccursAt(a + (TOKENS[t] + b), TOKENS[u], i) {
      if OccursAt(a + (TOKENS[t] + b), TOKENS[u], i) {
        OnlyItself(a, TOKENS[t], b, TOKENS[u], i);
      }
    }
  }

  lemma FillStep(a: string, t: nat, b: string, h: Host, line: nat)
    requires t < |TOKENS| && Framed(TOKENS[t]) && Free(a, '_') && Free(b, '_')
    ensures Fill(a + (TOKENS[t] + b), h, line, t) == Fill(a + (h.draw(line, t, 0) + b), h, line, t + 1)
  {
    hide TOKENS, Framed, Substitute, OccursAt, NoDouble, Absent;
    var w := TOKENS[t];
    var draw := (k: nat) => h.draw(line, t, k);
    FramedEnds(w);
    forall i: nat | i < |a| ensures !OccursAt(a + (w + b), w, i) {
      if OccursAt(a + (w + b), w, i) {
        OnlyItself(a, w, b, w, i);
      }
    }
    SubstituteFirst(a, w, b, draw, 0);
    FreeNoDouble(b);
    AbsentWithoutDouble(b, w);
    SubstituteAbsent(b, w, draw, 1);
  }

  lemma FreeNoDouble(s: string)
    requires Free(s, '_')
    ensures NoDouble(s)
  {
  }

  /** A value without double underscores stays as it is. */
  lemma FillPlain(s: string, h: Host, line: nat)
    requires NoDouble(s)
    ensures Fill(s, h, line, 0) == s
  {
    TokensFramed();
    hide *;
    forall u | 0 <= u < |TOKENS| ensures Absent(s, TOKENS[u]) { AbsentWithoutDouble(s, TOKENS[u]); }
    FillSkip(s, h, line, 0, |TOKENS|);
    FillEnd(s, h, line);
  }

  // ----- in the file -----

  lemma {:induction false} RenderedAt(lines: seq<string>, existing: map<string, string>, h: Host, l: nat)
    requires l < |lines| && RenderLines(lines, existing, h).Some?
    ensures |RenderLines(lines, existing, h).value| == |lines|
    ensures RenderLine(lines[l], existing, h, l) == Some(RenderLines(lines, existing, h).value[l])
  {
    hide RenderLine;
    RenderedLength(lines, existing, h);
    var n := |lines| - 1;
    if l < n {
      RenderedAt(lines[..n], existing, h, l);
    } else {
      RenderedLength(lines[..n], existing, h);
    }
  }

  lemma {:induction false} RenderedLength(lines: seq<string>, existing: map<string, string>, h: Host)
    requires RenderLines(lines, existing, h).Some?
    ensures |RenderLines(lines, existing, h).value| == |lines|
  {
    hide RenderLine;
    if lines != [] {
      RenderedLength(lines[..|lines| - 1], existing, h);
    }
  }

  /** A new key wants a host port, and the host variable of its name is missing or no number. */
  predicate PortMissing(lines: seq<string>, existing: map<string, string>, h: Host, l: nat) {
    && l < |lines| && HasKey(lines[l]) && KeyOf(lines[l]) !in existing && ValueText(lines[l]) == "__HOST_PORT__"
    && var port := h.env(KeyOf(lines[l]));
       port == "" || exists i :: 0 <= i < |port| && !h.digit(port[i])
  }

  lemma LineFails(lines: seq<string>, existing: map<string, string>, h: Host, l: nat)
    requires l < |lines|
    ensures RenderLine(lines[l], existing, h, l).None? <==> PortMissing(lines, existing, h, l)
  {
    hide HasKey, KeyOf, ValueText, Fill;
  }

  /** Rendering fails exactly for a missing port. */
  lemma {:induction false} RenderFailsExactly(lines: seq<string>, existing: map<string, string>, h: Host)
    ensures RenderLines(lines, existing, h).None? <==> exists l: nat :: PortMissing(lines, existing, h, l)
  {
    hide RenderLine, PortMissing;
    forall l: nat ensures PortMissing(lines, existing, h, l) ==> l < |lines| { OnlyInside(lines, existing, h, l); }
    if lines != [] {
      var n := |lines| - 1;
      RenderFailsExactly(lines[..n], existing, h);
      LineFails(lines, existing, h, n);
      forall l: nat ensures PortMissing(lines[..n], existing, h, l) <==> l < n && PortMissing(lines, existing, h, l) {
        SameLine(lines, existing, h, l);
      }
    }
  }

  lemma OnlyInside(lines: seq<string>, existing: map<string, string>, h: Host, l: nat)
    ensures PortMissing(lines, existing, h, l) ==> l < |lines|
  {
  }

  lemma SameLine(lines: seq<string>, existing: map<string, string>, h: Host, l: nat)
    requires lines != []
    ensures PortMissing(lines[..|lines| - 1], existing, h, l) <==> l < |lines| - 1 && PortMissing(lines, existing, h, l)
  {
    hide HasKey, KeyOf, ValueText;
  }

  /** The lines of the local file; none when it is missing. */
  function FileLines(file: Option<string>): seq<string> { if file.Some? then Lines(file.value) else [] }

  function Existing(file: Option<string>): map<string, string> {
    var m := ParseLines(FileLines(file));
    if m.Some? then m.value else map[]
  }

  /** A run fails exactly when template or file is not readable, the file has a key that the template
      lacks, a port is missing, or a token is left in the rendered text. */
  lemma RunFailsExactly(template: string, file: Option<string>, h: Host)
    ensures var lines, rendered := Lines(template), RenderLines(Lines(template), Existing(file), h);
            Run(template, file, h).Failed? <==>
            || !EnvLines.Readable(lines) || !EnvLines.Readable(FileLines(file))
            || (exists k :: EnvLines.KeyIn(FileLines(file), k) && !EnvLines.KeyIn(lines, k))
            || (exists l: nat :: PortMissing(lines, Existing(file), h, l))
            || (rendered.Some? && exists a, m, b :: TokenIn(Document(rendered.value), a, m, b))
  {
    hide Lines, RenderLines, EnvLines.Readable, EnvLines.Reads, EnvLines.KeyIn, PortMissing, TokenIn, Unresolved, Document;
    var lines, local := Lines(template), FileLines(file);
    EnvLines.ParseExactly(lines);
    EnvLines.ParseExactly(local);
    RenderFailsExactly(lines, Existing(file), h);
    var rendered := RenderLines(lines, Existing(file), h);
    if rendered.Some? {
      UnresolvedExactly(Document(rendered.value));
    }
    if ParseLines(lines).Some? && ParseLines(local).Some? {
      SameKeys(lines, ParseLines(lines).value, local, ParseLines(local).value);
    }
  }

  lemma SameKeys(lines: seq<string>, wanted: map<string, string>, local: seq<string>, existing: map<string, string>)
    requires EnvLines.Reads(lines, wanted) && EnvLines.Reads(local, existing)
    ensures !(existing.Keys <= wanted.Keys) <==> exists k :: EnvLines.KeyIn(local, k) && !EnvLines.KeyIn(lines, k)
  {
    hide EnvLines.Reads, EnvLines.KeyIn;
    forall k ensures k in existing <==> EnvLines.KeyIn(local, k) { EnvLines.KnownKey(local, existing, k); }
    forall k ensures k in wanted <==> EnvLines.KeyIn(lines, k) { EnvLines.KnownKey(lines, wanted, k); }
  }

  /** Line `l` of the template has a key that the local file lacks. */
  predicate NewKey(template: string, file: Option<string>, l: nat) {
    && l < |Lines(template)| && HasKey(Lines(template)[l])
    && (file.Some? ==> Parsed(file.value).Some? && KeyOf(Lines(template)[l]) !in Parsed(file.value).value)
  }

  function TemplateValue(template: string, file: Option<string>, l: nat): string
    requires NewKey(template, file, l)
  {
    ValueText(Lines(template)[l])
  }

  /** What the file has for the key of line `l` after the run. */
  function ValueAfter(template: string, file: Option<string>, h: Host, l: nat): Option<string>
    requires NewKey(template, file, l) && !Run(template, file, h).Failed?
  {
    var m := Parsed(FileAfter(file, Run(template, file, h)));
    var key := KeyOf(Lines(template)[l]);
    if m.Some? && key in m.value then Some(m.value[key]) else None
  }

  lemma NewKeyFilled(template: string, file: Option<string>, h: Host, l: nat)
    requires ValidHost(h) && NewKey(template, file, l) && !Run(template, file, h).Failed?
    ensures NewValue(Lines(template)[l], h, l).Some?
    ensures ValueAfter(template, file, h, l) == NewValue(Lines(template)[l], h, l)
  {
    var out := RunLines(template, file, h);
    hide Lines, ParseLines, RenderLines, Run, HasKey, KeyOf, NewValue, ValidHost, ValueText;
    var lines := Lines(template);
    var existing := if file.Some? then Parsed(file.value).value else map[];
    RenderedAt(lines, existing, h, l);
    var m := ParseLines(out).value;
    assert CarriesLine(lines[l], out[l], m);
    var head := KeyOf(lines[l]) + "=";
    assert out[l][|head|..] == m[KeyOf(lines[l])];
    assert out[l] == head + NewValue(lines[l], h, l).value;
    assert out[l][|head|..] == NewValue(lines[l], h, l).value;
  }

  lemma PortDoubles()
    ensures !NoDouble(HOST_PORT)
  {
    assert DoubleAt(HOST_PORT, 0);
  }

  lemma NotPort(a: string, t: nat, b: string)
    requires t < |TOKENS| && Free(a, '_') && Free(b, '_')
    ensures a + (TOKENS[t] + b) != HOST_PORT
  {
    TokensFramed();
    hide TOKENS;
    var s := a + (TOKENS[t] + b);
    assert |s| >= 18 && |HOST_PORT| == 13;
  }

  /** A new key with one token gets the value drawn for its own line and token, within the text around. */
  lemma GeneratedValue(template: string, file: Option<string>, h: Host, l: nat, a: string, t: nat, b: string)
    requires ValidHost(h) && NewKey(template, file, l) && !Run(template, file, h).Failed?
    requires t < |TOKENS| && Free(a, '_') && Free(b, '_') && NoDouble(h.draw(l, t, 0))
    requires TemplateValue(template, file, l) == a + (TOKENS[t] + b)
    ensures ValueAfter(template, file, h, l) == Some(a + (h.draw(l, t, 0) + b))
  {
    NewKeyFilled(template, file, h, l);
    FillOne(a, t, b, h, l);
    NotPort(a, t, b);
    hide TOKENS, Fill, HasKey, Run, ValueAfter, Lines, HOST_PORT;
  }

  /** A new key without tokens gets the template's value. */
  lemma PlainValue(template: string, file: Option<string>, h: Host, l: nat)
    requires ValidHost(h) && NewKey(template, file, l) && !Run(template, file, h).Failed?
    requires NoDouble(TemplateValue(template, file, l))
    ensures ValueAfter(template, file, h, l) == Some(TemplateValue(template, file, l))
  {
    NewKeyFilled(template, file, h, l);
    FillPlain(TemplateValue(template, file, l), h, l);
    PortDoubles();
    hide Fill, HasKey, Run, ValueAfter, Lines, HOST_PORT, NoDouble;
  }

  /** A host port comes from the host variable of the key's name, and is made of digits only. */
  lemma PortValue(template: string, file: Option<string>, h: Host, l: nat)
    requires ValidHost(h) && !h.digit('_') && NewKey(template, file, l) && !Run(template, file, h).Failed?
    requires TemplateValue(template, file, l) == "__HOST_PORT__"
    ensures var port := h.env(KeyOf(Lines(template)[l]));
            && ValueAfter(template, file, h, l) == Some(port)
            && port != "" && forall i :: 0 <= i < |port| ==> h.digit(port[i])
  {
    NewKeyFilled(template, file, h, l);
    var port := h.env(KeyOf(Lines(template)[l]));
    hide Fill, HasKey, Run, ValueAfter, Lines, KeyOf, ValueText;
    if Digits(port, h) {
      FillPlain(port, h, l);
    }
  }

  // ----- what is left unresolved -----

  predicate TokenBody(m: string) { m != "" && forall i :: 0 <= i < |m| ==> TokenChar(m[i]) }

  predicate TokenIn(s: string, a: string, m: string, b: string) {
    TokenBody(m) && s == a + ("__GENERATE_" + (m + ("__" + b)))
  }

  /** A text is unresolved exactly when some `__GENERATE_...__` is left in it. */
  lemma UnresolvedExactly(s: string)
    ensures Unresolved(s) <==> exists a, m, b :: TokenIn(s, a, m, b)
  {
    if Unresolved(s) {
      var i, j :| 0 <= i < j <= |s| && UnresolvedAt(s, i, j);
      UnresolvedParts(s, i, j);
    }
    if a, m, b :| TokenIn(s, a, m, b) {
      PartsUnresolved(s, a, m, b);
    }
  }

  lemma UnresolvedParts(s: string, i: nat, j: nat)
    requires i < j <= |s| && UnresolvedAt(s, i, j)
    ensures TokenIn(s, s[..i], s[i + 11..j - 2], s[j..])
  {
    FiveParts(s, i, i + 11, j - 2, j);
  }

  lemma FiveParts(s: string, i: nat, j: nat, k: nat, l: nat)
    requires i <= j <= k <= l <= |s|
    ensures s == s[..i] + (s[i..j] + (s[j..k] + (s[k..l] + s[l..])))
  {
  }

  lemma PartsUnresolved(s: string, a: string, m: string, b: string)
    requires TokenIn(s, a, m, b)
    ensures Unresolved(s)
  {
    var i, j := |a|, |a| + 11 + |m| + 2;
    PartsAt(s, a, "__GENERATE_", m, "__", b);
    assert UnresolvedAt(s, i, j);
  }

  lemma PartsAt(s: string, a: string, head: string, m: string, tail: string, b: string)
    requires s == a + (head + (m + (tail + b)))
    ensures var i, j := |a| + |head|, |a| + |head| + |m|;
            s[|a|..i] == head && s[i..j] == m && s[j..j + |tail|] == tail && forall k :: i <= k < j ==> s[k] == m[k - i]
  {
  }
}
