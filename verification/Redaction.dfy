/** Sequential secret redaction, `redact_known_secrets` of `tools/ci/sanitize_artifacts.py`.
    Bytes are characters; a dictionary is the list of its entries in insertion order. */
module Redaction {
  import opened Text

  datatype Secret = Secret(key: string, value: string)

  function Marker(key: string): string { "[REDACTED:" + key + "]" }

  // ----- bytes.count and bytes.replace -----

  /** Non-overlapping occurrences from the left; the empty pattern occurs around every byte. */
  function Count(s: string, p: string): nat
    decreases |s|
  {
    if p == [] then |s| + 1
    else if p <= s then 1 + Count(s[|p|..], p)
    else if s == [] then 0
    else Count(s[1..], p)
  }

  function Replace(s: string, p: string, r: string): string
    decreases |s|
  {
    if p == [] then r + (if s == [] then [] else [s[0]] + Replace(s[1..], p, r))
    else if p <= s then r + Replace(s[|p|..], p, r)
    else if s == [] then []
    else [s[0]] + Replace(s[1..], p, r)
  }

  /** The text and the number of replacements after all secrets. */
  function Redact(s: string, secrets: seq<Secret>): (string, nat)
    decreases |secrets|
  {
    if secrets == [] then (s, 0)
    else
      var n := Count(s, secrets[0].value);
      var rest := Redact(if n > 0 then Replace(s, secrets[0].value, Marker(secrets[0].key)) else s, secrets[1..]);
      (rest.0, n + rest.1)
  }

  method RedactKnownSecrets(data: string, secrets: seq<Secret>) returns (sanitized: string, replacements: nat)
    ensures (sanitized, replacements) == Redact(data, secrets)
  {
    replacements := 0;
    sanitized := data;
    for i := 0 to |secrets|
      invariant Redact(sanitized, secrets[i..]).0 == Redact(data, secrets).0
      invariant replacements + Redact(sanitized, secrets[i..]).1 == Redact(data, secrets).1
    {
      var s := secrets[i];
      assert secrets[i..][0] == s && secrets[i..][1..] == secrets[i + 1..];
      var count := Count(sanitized, s.value);
      if count > 0 {
        replacements := replacements + count;
        sanitized := Replace(sanitized, s.value, Marker(s.key));
      }
    }
  }

  // ----- occurrences -----

  predicate OccursAt(s: string, p: string, i: int) {
    0 <= i <= |s| && p <= s[i..]
  }

  ghost predicate Occurs(s: string, p: string) {
    exists i :: OccursAt(s, p, i)
  }

  ghost predicate Clean(s: string, secrets: seq<Secret>) {
    forall x :: x in secrets ==> !Occurs(s, x.value)
  }

  predicate Bracket(c: char) { c == '[' || c == ']' }

  predicate Bracketless(s: string) {
    forall i :: 0 <= i < |s| ==> !Bracket(s[i])
  }

  predicate BracketlessSecrets(secrets: seq<Secret>) {
    forall x :: x in secrets ==> x.value != [] && Bracketless(x.value)
  }

  /** A bracket stands at the border of `x` and `y`, or one of them is empty. */
  predicate Border(x: string, y: string) {
    x == [] || y == [] || Bracket(x[|x| - 1]) || Bracket(y[0])
  }

  lemma OccursPart(a: string, s: string, b: string, p: string)
    requires Occurs(s, p)
    ensures Occurs(a + s + b, p)
  {
    var i :| OccursAt(s, p, i);
    var t := a + s + b;
    assert t[|a| + i..] == s[i..] + b;
    assert OccursAt(t, p, |a| + i);
  }

  lemma FindOccurs(s: string, p: string)
    requires p != []
    ensures Occurs(s, p) <==> Find(s, p).Some?
  {
    if Find(s, p).Some? {
      assert OccursAt(s, p, Find(s, p).value);
    } else {
      FindNone(s, p);
    }
  }

  lemma OccursTail(s: string, p: string)
    ensures Occurs(s, p) ==> p <= s || (s != [] && Occurs(s[1..], p))
  {
    if i :| OccursAt(s, p, i) {
      if i == 0 {
        assert s[0..] == s;
      } else {
        assert s[i..] == s[1..][i - 1..];
        assert OccursAt(s[1..], p, i - 1);
      }
    }
  }

  lemma {:induction false} FindNone(s: string, p: string)
    requires p != [] && Find(s, p).None?
    ensures !Occurs(s, p)
  {
    OccursTail(s, p);
    if s != [] {
      FindNone(s[1..], p);
    }
  }

  lemma AcrossBorder(x: string, y: string, p: string)
    requires Border(x, y) && x != [] && |p| > |x| && p <= x + y
    ensures !Bracketless(p)
  {
    assert p[|x| - 1] == (x + y)[|x| - 1] == x[|x| - 1];
    assert p[|x|] == (x + y)[|x|] == y[0];
  }

  /** A bracketless pattern that starts in `x` ends in `x`. */
  lemma PrefixAtBorder(x: string, y: string, p: string)
    requires Border(x, y) && x != [] && p != [] && Bracketless(p)
    ensures p <= x + y <==> p <= x
  {
    if |p| <= |x| {
      PrefixLocal(x, y, p);
    } else if p <= x + y {
      AcrossBorder(x, y, p);
    }
  }

  lemma {:induction false} FindBeforeNone(s: string, p: string)
    requires p != [] && Find(s, p).Some?
    ensures !Occurs(s[..Find(s, p).value], p)
  {
    hide Occurs;
    var i := Find(s, p).value;
    var a := s[..i];
    OccursTail(a, p);
    if i > 0 {
      FindBeforeNone(s[1..], p);
      assert s[1..][..i - 1] == a[1..];
      assert s == a + s[i..];
      if |p| <= |a| {
        PrefixLocal(a, s[i..], p);
      }
    }
  }

  lemma {:induction false} OccursCat(x: string, y: string, p: string)
    requires Border(x, y) && p != [] && Bracketless(p) && Occurs(x + y, p)
    ensures Occurs(x, p) || Occurs(y, p)
  {
    var i :| OccursAt(x + y, p, i);
    if i >= |x| {
      assert (x + y)[i..] == y[i - |x|..];
      assert OccursAt(y, p, i - |x|);
    } else {
      assert (x + y)[i..] == x[i..] + y;
      assert Border(x[i..], y);
      PrefixAtBorder(x[i..], y, p);
      assert OccursAt(x, p, i);
    }
  }

  // ----- counting and replacing, piece by piece -----

  lemma {:induction false} ReplaceCat(x: string, y: string, p: string, r: string)
    requires Border(x, y) && p != [] && Bracketless(p)
    ensures Replace(x + y, p, r) == Replace(x, p, r) + Replace(y, p, r)
    ensures Count(x + y, p) == Count(x, p) + Count(y, p)
    decreases |x|
  {
    hide Replace, Count, Bracketless, Border;
    if x == [] {
      assert x + y == y;
      ReplaceEmpty(p, r);
    } else {
      PrefixAtBorder(x, y, p);
      var k := if p <= x then |p| else 1;
      DropCat(x, y, k);
      ReplaceCat(x[k..], y, p, r);
      ReplaceUnfold(x, p, r, k);
      ReplaceUnfold(x + y, p, r, k);
      Associate(if p <= x then r else [x[0]], Replace(x[k..], p, r), Replace(y, p, r));
    }
  }

  lemma ReplaceEmpty(p: string, r: string)
    requires p != []
    ensures Replace("", p, r) == [] && Count("", p) == 0
  {
  }

  lemma Associate(a: string, b: string, c: string)
    ensures a + b + c == a + (b + c)
  {
  }

  lemma DropCat(x: string, y: string, k: nat)
    requires 0 < k <= |x|
    ensures (x + y)[k..] == x[k..] + y && (x + y)[0] == x[0]
    ensures Border(x, y) ==> Border(x[k..], y)
  {
  }

  lemma ReplaceUnfold(s: string, p: string, r: string, k: nat)
    requires p != [] && s != [] && k == if p <= s then |p| else 1
    ensures Replace(s, p, r) == (if p <= s then r else [s[0]]) + Replace(s[k..], p, r)
    ensures Count(s, p) == (if p <= s then 1 else 0) + Count(s[k..], p)
  {
  }

  lemma {:induction false} ReplaceNone(s: string, p: string, r: string)
    requires p != [] && Find(s, p).None?
    ensures Replace(s, p, r) == s && Count(s, p) == 0
  {
    if s != [] {
      ReplaceNone(s[1..], p, r);
    }
  }

  lemma {:induction false} ReplaceFirst(s: string, p: string, r: string)
    requires p != [] && Find(s, p).Some?
    ensures var i := Find(s, p).value;
            && Replace(s, p, r) == s[..i] + (r + Replace(s[i + |p|..], p, r))
            && Count(s, p) == 1 + Count(s[i + |p|..], p)
    decreases |s|
  {
    hide Replace, Count, Find;
    var i := Find(s, p).value;
    FindCases(s, p);
    if i > 0 {
      ReplaceFirst(s[1..], p, r);
      ReplaceUnfold(s, p, r, 1);
      ShiftedCut(s, i, |p|);
      Associate([s[0]], s[1..][..i - 1], r + Replace(s[i + |p|..], p, r));
    } else {
      ReplaceUnfold(s, p, r, |p|);
      assert s[..0] == [];
    }
  }

  lemma {:induction false} FindCases(s: string, p: string)
    requires p != [] && Find(s, p).Some?
    ensures Find(s, p).value == 0 ==> p <= s
    ensures Find(s, p).value > 0 ==> s != [] && !(p <= s) && Find(s[1..], p) == Some(Find(s, p).value - 1)
  {
  }

  lemma ShiftedCut(s: string, i: nat, w: nat)
    requires 0 < i && i + w <= |s|
    ensures s[1..][i - 1 + w..] == s[i + w..] && s[..i] == [s[0]] + s[1..][..i - 1]
  {
  }

  /** Replacing keeps a bracket at either end of the text. */
  lemma {:induction false} EndsKept(s: string, p: string, r: string)
    requires p != [] && Bracketless(p) && s != []
    requires r != [] && r[0] == '[' && r[|r| - 1] == ']'
    ensures var t := Replace(s, p, r);
            && t != []
            && (Bracket(s[0]) ==> Bracket(t[0]))
            && (Bracket(s[|s| - 1]) ==> Bracket(t[|t| - 1]))
    decreases |s|
  {
    hide Replace, Count, Bracketless;
    var k := if p <= s then |p| else 1;
    ReplaceUnfold(s, p, r, k);
    if p <= s {
      BracketlessEnds(p);
    }
    if k < |s| {
      EndsKept(s[k..], p, r);
      assert s[k..][|s| - k - 1] == s[|s| - 1];
    } else {
      assert s[k..] == [];
      ReplaceEmpty(p, r);
    }
  }

  lemma BracketlessEnds(p: string)
    requires p != [] && Bracketless(p)
    ensures !Bracket(p[0]) && !Bracket(p[|p| - 1])
  {
  }

  lemma BorderKept(x: string, y: string, p: string, key: string)
    requires Border(x, y) && p != [] && Bracketless(p)
    ensures Border(Replace(x, p, Marker(key)), Replace(y, p, Marker(key)))
  {
    var m := Marker(key);
    assert m[0] == '[' && m[|m| - 1] == ']';
    if x != [] {
      EndsKept(x, p, m);
    }
    if y != [] {
      EndsKept(y, p, m);
    }
  }

  /** Redaction works on both sides of a border by itself. */
  lemma {:induction false} RedactCat(x: string, y: string, secrets: seq<Secret>)
    requires Border(x, y) && BracketlessSecrets(secrets)
    ensures Redact(x + y, secrets) == (Redact(x, secrets).0 + Redact(y, secrets).0, Redact(x, secrets).1 + Redact(y, secrets).1)
    decreases |secrets|
  {
    hide Replace, Count, Marker, Border, Bracketless;
    if secrets != [] {
      var p, m := secrets[0].value, Marker(secrets[0].key);
      assert secrets[0] in secrets;
      ReplaceCat(x, y, p, m);
      BorderKept(x, y, p, secrets[0].key);
      ReplaceOrKeep(x, p, m);
      ReplaceOrKeep(y, p, m);
      ReplaceOrKeep(x + y, p, m);
      RedactCat(Replace(x, p, m), Replace(y, p, m), secrets[1..]);
    }
  }

  /** The test of the count before replacing makes no difference. */
  lemma ReplaceOrKeep(s: string, p: string, r: string)
    requires p != []
    ensures Count(s, p) == 0 ==> Replace(s, p, r) == s
  {
    if Find(s, p).Some? {
      ReplaceFirst(s, p, r);
    } else {
      ReplaceNone(s, p, r);
    }
  }

  lemma RedactStep(s: string, secrets: seq<Secret>)
    requires secrets != [] && secrets[0].value != []
    ensures Redact(s, secrets) ==
            (Redact(Replace(s, secrets[0].value, Marker(secrets[0].key)), secrets[1..]).0,
             Count(s, secrets[0].value) + Redact(Replace(s, secrets[0].value, Marker(secrets[0].key)), secrets[1..]).1)
  {
    ReplaceOrKeep(s, secrets[0].value, Marker(secrets[0].key));
  }

  /** What one stage of the redaction does with the first occurrence of its secret. */
  lemma RedactFirst(s: string, secrets: seq<Secret>)
    requires secrets != [] && BracketlessSecrets(secrets) && Find(s, secrets[0].value).Some?
    ensures var x := secrets[0];
            var i := Find(s, x.value).value;
            var a, m, b := Redact(s[..i], secrets[1..]), Redact(Marker(x.key), secrets[1..]), Redact(s[i + |x.value|..], secrets);
            && Redact(s, secrets) == (a.0 + (m.0 + b.0), 1 + a.1 + m.1 + b.1)
            && Border(a.0, m.0 + b.0) && Border(m.0, b.0)
  {
    hide Redact, Replace, Count, Find;
    var x := secrets[0];
    assert x in secrets;
    var i := Find(s, x.value).value;
    var m := Marker(x.key);
    assert m[0] == '[' && m[|m| - 1] == ']';
    var tail := s[i + |x.value|..];
    var t := Replace(tail, x.value, m);
    ReplaceFirst(s, x.value, m);
    RedactStep(s, secrets);
    RedactStep(tail, secrets);
    RedactCat(s[..i], m + t, secrets[1..]);
    RedactCat(m, t, secrets[1..]);
    MarkerEnds(m, secrets[1..]);
  }

  lemma {:induction false} MarkerEnds(m: string, secrets: seq<Secret>)
    requires BracketlessSecrets(secrets) && m != [] && Bracket(m[0]) && Bracket(m[|m| - 1])
    ensures var t := Redact(m, secrets).0; t != [] && Bracket(t[0]) && Bracket(t[|t| - 1])
    decreases |secrets|
  {
    hide Replace, Count, Bracketless;
    if secrets != [] {
      assert secrets[0] in secrets;
      var r := Marker(secrets[0].key);
      assert r[0] == '[' && r[|r| - 1] == ']';
      RedactStep(m, secrets);
      EndsKept(m, secrets[0].value, r);
      MarkerEnds(Replace(m, secrets[0].value, r), secrets[1..]);
    }
  }

  lemma {:induction false} RedactUntouched(s: string, secrets: seq<Secret>)
    requires BracketlessSecrets(secrets) && Clean(s, secrets)
    ensures Redact(s, secrets) == (s, 0)
  {
    if secrets != [] {
      assert secrets[0] in secrets;
      FindOccurs(s, secrets[0].value);
      ReplaceNone(s, secrets[0].value, Marker(secrets[0].key));
      RedactUntouched(s, secrets[1..]);
    }
  }

  // ----- nothing leaks: the exact condition -----

  /** The marker of secret `i` can appear at all: no earlier secret breaks up every occurrence. */
  ghost predicate Live(secrets: seq<Secret>, i: nat)
    requires i < |secrets|
  {
    Clean(secrets[i].value, secrets[..i])
  }

  /** Every marker that can appear is free of secrets once the later secrets are redacted in it. */
  ghost predicate MarkersSafe(secrets: seq<Secret>) {
    forall i :: 0 <= i < |secrets| && Live(secrets, i) ==>
      Clean(Redact(Marker(secrets[i].key), secrets[i + 1..]).0, secrets)
  }

  lemma {:induction false} SkipAbsent(s: string, secrets: seq<Secret>, i: nat)
    requires i <= |secrets| && BracketlessSecrets(secrets) && Clean(s, secrets[..i])
    ensures Redact(s, secrets) == Redact(s, secrets[i..])
  {
    hide Replace, Count, Occurs, Bracketless, Marker;
    if i > 0 {
      assert secrets[0] in secrets && secrets[..i][0] == secrets[0];
      FindOccurs(s, secrets[0].value);
      ReplaceNone(s, secrets[0].value, Marker(secrets[0].key));
      assert secrets[1..][..i - 1] == secrets[..i][1..];
      SkipAbsent(s, secrets[1..], i - 1);
      assert secrets[1..][i - 1..] == secrets[i..];
    } else {
      assert secrets[0..] == secrets;
    }
  }

  lemma CleanCat(x: string, y: string, secrets: seq<Secret>)
    requires Border(x, y) && BracketlessSecrets(secrets) && Clean(x, secrets) && Clean(y, secrets)
    ensures Clean(x + y, secrets)
  {
    forall s | s in secrets ensures !Occurs(x + y, s.value) {
      if Occurs(x + y, s.value) {
        OccursCat(x, y, s.value);
      }
    }
  }

  lemma CleanPart(a: string, s: string, b: string, secrets: seq<Secret>)
    requires Clean(a + s + b, secrets)
    ensures Clean(s, secrets)
  {
    forall x | x in secrets ensures !Occurs(s, x.value) {
      if Occurs(s, x.value) {
        OccursPart(a, s, b, x.value);
      }
    }
  }

  lemma PartsClean(s: string, p: string, secrets: seq<Secret>)
    requires Find(s, p).Some? && Clean(s, secrets)
    ensures var k := Find(s, p).value; Clean(s[..k], secrets) && Clean(p, secrets) && Clean(s[k + |p|..], secrets)
  {
    hide Clean, Find;
    var k := Find(s, p).value;
    var a, b := s[..k], s[k + |p|..];
    assert s == [] + a + s[k..] && s == (a + p) + b + [] && s == a + p + b;
    CleanPart([], a, s[k..], secrets);
    CleanPart(a + p, b, [], secrets);
    CleanPart(a, p, b, secrets);
  }

  /** Redacting from stage `i` on a text that holds none of the first `i` secrets. */
  lemma {:induction false} StageClean(s: string, secrets: seq<Secret>, i: nat)
    requires i <= |secrets| && BracketlessSecrets(secrets) && MarkersSafe(secrets) && Clean(s, secrets[..i])
    ensures Clean(Redact(s, secrets[i..]).0, secrets)
    decreases |secrets| - i, |s|
  {
    hide Redact, Replace, Count, Clean, Bracketless, Find, Border, BracketlessSecrets, Occurs;
    if i == |secrets| {
      assert secrets[..i] == secrets && secrets[i..] == [];
      RedactNone(s);
    } else {
      var x, rest := secrets[i], secrets[i..];
      assert rest[0] == x && rest[1..] == secrets[i + 1..] && x in secrets;
      NonemptyMember(secrets, i);
      SuffixBracketless(secrets, i);
      if Find(s, x.value).Some? {
        var k := Find(s, x.value).value;
        var a, b := s[..k], s[k + |x.value|..];
        PartsClean(s, x.value, secrets[..i]);
        FindBeforeNone(s, x.value);
        OneMoreClean(a, secrets, i);
        StageClean(a, secrets, i + 1);
        StageClean(b, secrets, i);
        RedactFirst(s, rest);
        var m := Redact(Marker(x.key), secrets[i + 1..]).0;
        assert Live(secrets, i);
        CleanCat(m, Redact(b, rest).0, secrets);
        CleanCat(Redact(a, secrets[i + 1..]).0, m + Redact(b, rest).0, secrets);
      } else {
        FindNone(s, x.value);
        OneMoreClean(s, secrets, i);
        ReplaceNone(s, x.value, Marker(x.key));
        RedactStep(s, rest);
        StageClean(s, secrets, i + 1);
      }
    }
  }

  lemma RedactNone(s: string)
    ensures Redact(s, []) == (s, 0) && Clean(s, [])
  {
  }

  lemma SuffixBracketless(secrets: seq<Secret>, i: nat)
    requires i <= |secrets| && BracketlessSecrets(secrets)
    ensures BracketlessSecrets(secrets[i..])
  {
    hide Bracketless;
    forall x | x in secrets[i..] ensures x in secrets {}
  }

  lemma OneMoreClean(s: string, secrets: seq<Secret>, i: nat)
    requires i < |secrets| && Clean(s, secrets[..i]) && !Occurs(s, secrets[i].value)
    ensures Clean(s, secrets[..i + 1])
  {
    assert secrets[..i + 1] == secrets[..i] + [secrets[i]];
  }

  /** No text keeps a secret. */
  ghost predicate NothingLeaks(secrets: seq<Secret>) {
    forall s: string :: Clean(Redact(s, secrets).0, secrets)
  }

  /** Main theorem: for bracketless secrets, redaction leaves no secret in any text exactly when the
      markers are safe, which can be checked on the secrets alone before any text is redacted. */
  lemma LeaksNothing(secrets: seq<Secret>)
    requires BracketlessSecrets(secrets)
    ensures NothingLeaks(secrets) <==> MarkersSafe(secrets)
  {
    hide Redact, Occurs, Clean;
    if MarkersSafe(secrets) {
      forall s: string ensures Clean(Redact(s, secrets).0, secrets) {
        assert secrets[..0] == [] && secrets[0..] == secrets;
        RedactNone(s);
        StageClean(s, secrets, 0);
      }
    }
    if NothingLeaks(secrets) {
      LeaklessMarkers(secrets);
    }
  }

  lemma LeaklessMarkers(secrets: seq<Secret>)
    requires BracketlessSecrets(secrets)
    requires NothingLeaks(secrets)
    ensures MarkersSafe(secrets)
  {
    hide Redact, Occurs, Clean;
    forall i | 0 <= i < |secrets| && Live(secrets, i)
      ensures Clean(Redact(Marker(secrets[i].key), secrets[i + 1..]).0, secrets)
    {
      SecretAlone(secrets, i);
      assert Clean(Redact(secrets[i].value, secrets).0, secrets);
    }
  }

  lemma SecretAlone(secrets: seq<Secret>, i: nat)
    requires i < |secrets| && BracketlessSecrets(secrets) && Live(secrets, i)
    ensures Redact(secrets[i].value, secrets).0 == Redact(Marker(secrets[i].key), secrets[i + 1..]).0
  {
    var x := secrets[i];
    assert x in secrets;
    SkipAbsent(x.value, secrets, i);
    assert secrets[i..][0] == x && secrets[i..][1..] == secrets[i + 1..];
    RedactStep(x.value, secrets[i..]);
    assert Replace(x.value, x.value, Marker(x.key)) == Marker(x.key) by {
      assert x.value[|x.value|..] == [];
      assert Marker(x.key) + [] == Marker(x.key);
    }
  }

  /** A secret that is spelled in its own key survives in its own marker. */
  lemma MarkerCanLeak()
    ensures var secrets := [Secret("TOKEN_QWERTZUI", "QWERTZUI")];
            BracketlessSecrets(secrets) && !MarkersSafe(secrets) && !Clean(Redact("QWERTZUI", secrets).0, secrets)
  {
    OwnMarkerLeaks(Secret("TOKEN_QWERTZUI", "QWERTZUI"), 6);
  }

  lemma OwnMarkerLeaks(x: Secret, at: nat)
    requires x.value != [] && Bracketless(x.value) && OccursAt(x.key, x.value, at)
    ensures BracketlessSecrets([x]) && !MarkersSafe([x]) && !Clean(Redact(x.value, [x]).0, [x])
  {
    hide Redact, Find, Bracketless, Marker;
    var secrets := [x];
    var m := Marker(x.key);
    assert Occurs(x.key, x.value);
    KeyInMarker(x.key, x.value);
    assert secrets[..0] == [] && secrets[0 + 1..] == [];
    assert Live(secrets, 0);
    SecretAlone(secrets, 0);
    RedactNone(m);
    assert x in secrets;
  }

  lemma KeyInMarker(key: string, p: string)
    requires Occurs(key, p)
    ensures Occurs(Marker(key), p)
  {
    OccursPart("[REDACTED:", key, "]", p);
  }

  // ----- which parts of the input are replaced -----

  datatype Piece = Raw(text: string) | Redacted(secret: Secret)

  /** The intervals that become markers: those of the first secret from the left, then those of the
      next secret between them, and so on. */
  function Pieces(s: string, secrets: seq<Secret>): seq<Piece>
    requires forall x :: x in secrets ==> x.value != []
    decreases |secrets|, |s|
  {
    if secrets == [] then [Raw(s)]
    else
      var x := secrets[0];
      var found := Find(s, x.value);
      if found.None? then Pieces(s, secrets[1..])
      else
        Pieces(s[..found.value], secrets[1..]) + [Redacted(x)] + Pieces(s[found.value + |x.value|..], secrets)
  }

  function Before(p: Piece): string {
    match p case Raw(t) => t case Redacted(x) => x.value
  }

  function After(p: Piece): string {
    match p case Raw(t) => t case Redacted(x) => Marker(x.key)
  }

  function Original(pieces: seq<Piece>): string {
    if pieces == [] then [] else Before(pieces[0]) + Original(pieces[1..])
  }

  function Rendered(pieces: seq<Piece>): string {
    if pieces == [] then [] else After(pieces[0]) + Rendered(pieces[1..])
  }

  function Marks(pieces: seq<Piece>): nat {
    if pieces == [] then 0 else (if pieces[0].Redacted? then 1 else 0) + Marks(pieces[1..])
  }

  lemma {:induction false} PiecesCat(a: seq<Piece>, b: seq<Piece>)
    ensures Original(a + b) == Original(a) + Original(b)
    ensures Rendered(a + b) == Rendered(a) + Rendered(b)
    ensures Marks(a + b) == Marks(a) + Marks(b)
  {
    hide After, Before;
    if a == [] {
      assert a + b == b;
    } else {
      assert (a + b)[1..] == a[1..] + b && (a + b)[0] == a[0];
      PiecesCat(a[1..], b);
      Associate(Before(a[0]), Original(a[1..]), Original(b));
      Associate(After(a[0]), Rendered(a[1..]), Rendered(b));
    }
  }

  /** The result is the input with disjoint intervals, each of them an occurrence of a secret,
      replaced by the marker of that secret; the count is the number of markers. */
  ghost predicate AsIntervals(s: string, secrets: seq<Secret>)
    requires forall x :: x in secrets ==> x.value != []
  {
    var pieces := Pieces(s, secrets);
    Original(pieces) == s && Redact(s, secrets) == (Rendered(pieces), Marks(pieces))
  }

  /** No marker that can appear holds a later secret, so markers are never redacted themselves. */
  ghost predicate MarkersKept(secrets: seq<Secret>) {
    forall i :: 0 <= i < |secrets| && Live(secrets, i) ==> Clean(Marker(secrets[i].key), secrets[i + 1..])
  }

  /** Redaction replaces intervals of every text exactly when markers are kept. */
  lemma RedactionIsInterval(secrets: seq<Secret>)
    requires BracketlessSecrets(secrets)
    ensures (forall s :: AsIntervals(s, secrets)) <==> MarkersKept(secrets)
  {
    hide AsIntervals, Clean, Marker, Bracketless;
    if MarkersKept(secrets) {
      forall s ensures AsIntervals(s, secrets) {
        assert secrets[..0] == [] && secrets[0..] == secrets;
        RedactNone(s);
        StageIntervals(s, secrets, 0);
      }
    }
    if forall s :: AsIntervals(s, secrets) {
      forall i | 0 <= i < |secrets| && Live(secrets, i) ensures Clean(Marker(secrets[i].key), secrets[i + 1..]) {
        assert AsIntervals(secrets[i].value, secrets);
        KeptMarker(secrets, i);
      }
    }
  }

  /** Some way to cut the text into raw parts and secrets accounts for the result and the count. */
  ghost predicate SomeIntervals(s: string, secrets: seq<Secret>) {
    exists pieces :: Accounts(pieces, s, secrets)
  }

  predicate Accounts(pieces: seq<Piece>, s: string, secrets: seq<Secret>) {
    Original(pieces) == s && Redact(s, secrets) == (Rendered(pieces), Marks(pieces)) && Known(pieces, secrets)
  }

  predicate Known(pieces: seq<Piece>, secrets: seq<Secret>) {
    forall p :: p in pieces && p.Redacted? ==> p.secret in secrets
  }

  predicate BracketlessKeys(secrets: seq<Secret>) { forall x :: x in secrets ==> Bracketless(x.key) }

  /** For keys without brackets no other way of cutting helps: redaction replaces intervals of every text,
      however they are chosen, exactly when markers are kept. */
  lemma NoOtherIntervals(secrets: seq<Secret>)
    requires BracketlessSecrets(secrets) && BracketlessKeys(secrets)
    ensures (forall s :: SomeIntervals(s, secrets)) <==> MarkersKept(secrets)
  {
    hide Accounts, Clean, Marker, Bracketless, AsIntervals;
    RedactionIsInterval(secrets);
    if MarkersKept(secrets) {
      forall s ensures SomeIntervals(s, secrets) {
        assert AsIntervals(s, secrets);
        FoundAccounts(s, secrets);
      }
    }
    if forall s :: SomeIntervals(s, secrets) {
      forall i | 0 <= i < |secrets| && Live(secrets, i) ensures Clean(Marker(secrets[i].key), secrets[i + 1..]) {
        assert SomeIntervals(secrets[i].value, secrets);
        var pieces :| Accounts(pieces, secrets[i].value, secrets);
        AccountedMarker(pieces, secrets, i);
      }
    }
  }

  lemma FoundAccounts(s: string, secrets: seq<Secret>)
    requires BracketlessSecrets(secrets) && AsIntervals(s, secrets)
    ensures SomeIntervals(s, secrets)
  {
    hide Redact, Original, Rendered, Marks, Pieces, Known;
    PiecesKnown(s, secrets);
    assert Accounts(Pieces(s, secrets), s, secrets);
  }

  lemma {:induction false} PiecesKnown(s: string, secrets: seq<Secret>)
    requires BracketlessSecrets(secrets)
    ensures Known(Pieces(s, secrets), secrets)
    decreases |secrets|, |s|
  {
    hide Bracketless, Find;
    if secrets != [] {
      var x := secrets[0];
      assert x in secrets;
      SuffixBracketless(secrets, 1);
      if Find(s, x.value).Some? {
        var k := Find(s, x.value).value;
        PiecesKnown(s[..k], secrets[1..]);
        PiecesKnown(s[k + |x.value|..], secrets);
      } else {
        PiecesKnown(s, secrets[1..]);
      }
    }
  }

  // Brackets of a rendered text never nest; those of a marker that was redacted itself do.

  /** Every bracket that opens is closed before the next one opens. */
  predicate Flat(s: string, open: bool) {
    if s == [] then !open
    else if s[0] == '[' then !open && Flat(s[1..], true)
    else if s[0] == ']' then open && Flat(s[1..], false)
    else Flat(s[1..], open)
  }

  lemma {:induction false} FlatSkip(a: string, b: string, open: bool)
    requires Bracketless(a)
    ensures Flat(a + b, open) == Flat(b, open)
  {
    if a == [] {
      assert a + b == b;
    } else {
      assert !Bracket(a[0]);
      assert (a + b)[1..] == a[1..] + b;
      FlatSkip(a[1..], b, open);
    }
  }

  lemma BracketlessCat(a: string, b: string)
    ensures Bracketless(a + b) <==> Bracketless(a) && Bracketless(b)
  {
    var s := a + b;
    assert forall i :: 0 <= i < |a| ==> s[i] == a[i];
    assert forall i :: 0 <= i < |b| ==> s[|a| + i] == b[i];
  }

  lemma BodyBracketless(key: string)
    requires Bracketless(key)
    ensures Bracketless(Body(key))
  {
    BracketlessCat("REDACTED:", key);
  }

  lemma MarkerFlat(key: string, b: string)
    requires Bracketless(key) && Flat(b, false)
    ensures Flat(Marker(key) + b, false)
  {
    BodyBracketless(key);
    MarkerParts(key);
    var inner := Body(key);
    assert Marker(key) + b == ['['] + (inner + ([']'] + b));
    FlatSkip(inner, [']'] + b, true);
    hide Marker, Body;
    FlatClose(b);
    FlatOpen(inner + ([']'] + b));
  }

  lemma FlatClose(b: string)
    requires Flat(b, false)
    ensures Flat([']'] + b, true)
  {
    assert ([']'] + b)[1..] == b;
  }

  lemma FlatOpen(b: string)
    ensures Flat(['['] + b, false) == Flat(b, true)
  {
    assert (['['] + b)[1..] == b;
  }

  lemma MarkerParts(key: string)
    ensures Marker(key) == ['['] + (Body(key) + [']'])
  {
  }

  lemma {:induction false} RenderedFlat(pieces: seq<Piece>, secrets: seq<Secret>)
    requires Bracketless(Original(pieces)) && BracketlessKeys(secrets) && Known(pieces, secrets)
    ensures Flat(Rendered(pieces), false)
  {
    hide Flat, Bracketless, Marker;
    if pieces == [] {
      FlatNothing();
    } else {
      var p := pieces[0];
      assert p in pieces;
      BracketlessCat(Before(p), Original(pieces[1..]));
      RenderedFlat(pieces[1..], secrets);
      match p
      case Raw(t) => FlatSkip(t, Rendered(pieces[1..]), false);
      case Redacted(x) => MarkerFlat(x.key, Rendered(pieces[1..]));
    }
  }

  lemma FlatNothing()
    ensures Flat("", false)
  {
  }

  /** The first bracket opens. */
  predicate OpensAt(s: string, k: int) { 0 <= k < |s| && s[k] == '[' && Bracketless(s[..k]) }

  ghost predicate Opens(s: string) { exists k :: OpensAt(s, k) }

  lemma OpensNotFlat(s: string, b: string)
    requires Opens(s)
    ensures !Flat(s + b, true)
  {
    hide Bracketless;
    var k :| OpensAt(s, k);
    var rest := s[k..] + b;
    assert s + b == s[..k] + rest && rest[0] == '[';
    FlatSkip(s[..k], rest, true);
  }

  lemma OpensCat(a: string, b: string)
    requires Opens(a) || (Bracketless(a) && b != [] && b[0] == '[')
    ensures Opens(a + b)
  {
    hide Bracketless;
    if k :| OpensAt(a, k) {
      assert (a + b)[..k] == a[..k];
      assert OpensAt(a + b, k);
    } else {
      assert (a + b)[..|a|] == a;
      assert OpensAt(a + b, |a|);
    }
  }

  lemma BracketClean(c: char, secrets: seq<Secret>)
    requires Bracket(c) && BracketlessSecrets(secrets)
    ensures Clean([c], secrets)
  {
    forall x | x in secrets ensures !Occurs([c], x.value) {
      if Occurs([c], x.value) {
        OccursInChar(c, x.value);
      }
    }
  }

  /** A bracket at the front or the back stays outside. */
  lemma RedactInside(w: string, secrets: seq<Secret>)
    requires BracketlessSecrets(secrets)
    ensures Redact(['['] + w, secrets) == (['['] + Redact(w, secrets).0, Redact(w, secrets).1)
    ensures Redact(w + [']'], secrets) == (Redact(w, secrets).0 + [']'], Redact(w, secrets).1)
  {
    assert Bracket('[') && Bracket(']');
    hide *;
    BracketAlone('[', w, secrets);
    BracketAlone(']', w, secrets);
    RedactCat(['['], w, secrets);
    RedactCat(w, [']'], secrets);
  }

  lemma BracketAlone(c: char, w: string, secrets: seq<Secret>)
    requires Bracket(c) && BracketlessSecrets(secrets)
    ensures Redact([c], secrets) == ([c], 0) && Border([c], w) && Border(w, [c])
  {
    hide Redact, Clean;
    BracketClean(c, secrets);
    RedactUntouched([c], secrets);
  }

  /** Redacting a text without brackets changes nothing or leaves an opening bracket first. */
  lemma {:induction false} RedactOpens(s: string, secrets: seq<Secret>)
    requires BracketlessSecrets(secrets) && Bracketless(s)
    ensures Redact(s, secrets) == (s, 0) || Opens(Redact(s, secrets).0)
    decreases |secrets|
  {
    hide Redact, Replace, Count, Find, Clean, Bracketless, Opens, Border, Marker;
    if secrets == [] {
      RedactNone(s);
    } else {
      var x, rest := secrets[0], secrets[1..];
      NonemptyMember(secrets, 0);
      SuffixBracketless(secrets, 1);
      if Find(s, x.value).Some? {
        var k := Find(s, x.value).value;
        assert s == s[..k] + s[k..];
        BracketlessCat(s[..k], s[k..]);
        RedactOpens(s[..k], rest);
        RedactFirst(s, secrets);
        MarkerParts(x.key);
        RedactInside(Body(x.key) + [']'], rest);
        OpensCat(Redact(s[..k], rest).0, Redact(Marker(x.key), rest).0 + Redact(s[k + |x.value|..], secrets).0);
      } else {
        ReplaceNone(s, x.value, Marker(x.key));
        RedactStep(s, secrets);
        RedactOpens(s, rest);
      }
    }
  }

  lemma NestedMarker(key: string, secrets: seq<Secret>)
    requires BracketlessSecrets(secrets) && Bracketless(key) && Redact(Marker(key), secrets).1 > 0
    ensures !Flat(Redact(Marker(key), secrets).0, false)
  {
    hide Redact, Bracketless, Opens, Flat, Marker, Body;
    BodyBracketless(key);
    MarkerParts(key);
    RedactInside(Body(key), secrets);
    RedactInside(Body(key) + [']'], secrets);
    RedactOpens(Body(key), secrets);
    OpensNotFlat(Redact(Body(key), secrets).0, [']']);
    FlatOpen(Redact(Body(key), secrets).0 + [']']);
  }

  lemma AccountedMarker(pieces: seq<Piece>, secrets: seq<Secret>, i: nat)
    requires i < |secrets| && BracketlessSecrets(secrets) && BracketlessKeys(secrets) && Live(secrets, i)
    requires Accounts(pieces, secrets[i].value, secrets)
    ensures Clean(Marker(secrets[i].key), secrets[i + 1..])
  {
    hide Redact, Original, Rendered, Marks, Bracketless, Flat, Marker, Clean, Known;
    var x := secrets[i];
    assert x in secrets;
    SuffixBracketless(secrets, i + 1);
    RenderedFlat(pieces, secrets);
    SecretAlone(secrets, i);
    if Redact(Marker(x.key), secrets[i + 1..]).1 > 0 {
      NestedMarker(x.key, secrets[i + 1..]);
    }
    UntouchedClean(Marker(x.key), secrets[i + 1..]);
  }

  /** Intervals from stage `i` on, in a text that holds none of the first `i` secrets. */
  lemma {:induction false} StageIntervals(s: string, secrets: seq<Secret>, i: nat)
    requires i <= |secrets| && BracketlessSecrets(secrets) && MarkersKept(secrets) && Clean(s, secrets[..i])
    requires BracketlessSecrets(secrets[i..])
    ensures AsIntervals(s, secrets[i..])
    decreases |secrets| - i, |s|
  {
    hide *;
    if i == |secrets| {
      NoStage(s, secrets[i..]);
    } else {
      var x, rest := secrets[i], secrets[i..];
      assert rest[0] == x && rest[1..] == secrets[i + 1..];
      SuffixBracketless(secrets, i + 1);
      NonemptyMember(secrets, i);
      if Find(s, x.value).Some? {
        var k := Find(s, x.value).value;
        var a, b := s[..k], s[k + |x.value|..];
        PartsClean(s, x.value, secrets[..i]);
        FindBeforeNone(s, x.value);
        OneMoreClean(a, secrets, i);
        StageIntervals(a, secrets, i + 1);
        StageIntervals(b, secrets, i);
        LiveKept(secrets, i);
        RedactUntouched(Marker(x.key), secrets[i + 1..]);
        FoundIntervals(s, rest);
      } else {
        FindNone(s, x.value);
        OneMoreClean(s, secrets, i);
        StageIntervals(s, secrets, i + 1);
        AbsentIntervals(s, rest);
      }
    }
  }

  lemma NonemptyMember(secrets: seq<Secret>, i: nat)
    requires i < |secrets| && BracketlessSecrets(secrets)
    ensures secrets[i].value != [] && Bracketless(secrets[i].value)
  {
    assert secrets[i] in secrets;
  }

  lemma LiveKept(secrets: seq<Secret>, i: nat)
    requires i < |secrets| && MarkersKept(secrets) && Clean(secrets[i].value, secrets[..i])
    ensures Clean(Marker(secrets[i].key), secrets[i + 1..])
  {
    hide Clean, Marker;
    assert Live(secrets, i);
  }

  lemma NoStage(s: string, secrets: seq<Secret>)
    requires secrets == []
    ensures AsIntervals(s, secrets)
  {
    RawPiece(s);
    RedactNone(s);
  }

  /** The first occurrence cuts the text, and the marker stays between the two sides. */
  lemma FoundIntervals(s: string, secrets: seq<Secret>)
    requires secrets != [] && BracketlessSecrets(secrets) && BracketlessSecrets(secrets[1..])
    requires Find(s, secrets[0].value).Some?
    requires Redact(Marker(secrets[0].key), secrets[1..]) == (Marker(secrets[0].key), 0)
    requires AsIntervals(s[..Find(s, secrets[0].value).value], secrets[1..])
    requires AsIntervals(s[Find(s, secrets[0].value).value + |secrets[0].value|..], secrets)
    ensures AsIntervals(s, secrets)
  {
    hide Redact, Replace, Count, Find, Clean, Marker, Bracketless, Original, Rendered, Marks, Border;
    var x := secrets[0];
    var k := Find(s, x.value).value;
    var a, b := s[..k], s[k + |x.value|..];
    RedactFirst(s, secrets);
    ThreePieces(Pieces(a, secrets[1..]), x, Pieces(b, secrets));
    CutAt(s, k, x.value);
    assert Pieces(s, secrets) == Pieces(a, secrets[1..]) + [Redacted(x)] + Pieces(b, secrets);
  }

  lemma AbsentIntervals(s: string, secrets: seq<Secret>)
    requires secrets != [] && BracketlessSecrets(secrets) && BracketlessSecrets(secrets[1..])
    requires Find(s, secrets[0].value).None? && AsIntervals(s, secrets[1..])
    ensures AsIntervals(s, secrets)
  {
    hide Redact, Replace, Count, Find, Marker, Bracketless, Original, Rendered, Marks;
    var x := secrets[0];
    assert x in secrets;
    ReplaceNone(s, x.value, Marker(x.key));
    RedactStep(s, secrets);
  }

  /** A live secret alone shows whether its marker is kept. */
  lemma KeptMarker(secrets: seq<Secret>, i: nat)
    requires i < |secrets| && BracketlessSecrets(secrets) && Live(secrets, i)
    requires AsIntervals(secrets[i].value, secrets)
    ensures Clean(Marker(secrets[i].key), secrets[i + 1..])
  {
    hide *;
    var x := secrets[i];
    NonemptyMember(secrets, i);
    SuffixBracketless(secrets, i);
    SuffixBracketless(secrets, i + 1);
    LiveClean(secrets, i);
    SkipAbsent(x.value, secrets, i);
    SkipPieces(x.value, secrets, i);
    assert secrets[i..][0] == x && secrets[i..][1..] == secrets[i + 1..];
    CountAlone(secrets[i..]);
    MarksAlone(secrets[i..]);
    CountOf(x.value, secrets);
    UntouchedClean(Marker(x.key), secrets[i + 1..]);
  }

  lemma LiveClean(secrets: seq<Secret>, i: nat)
    requires i < |secrets| && Live(secrets, i)
    ensures Clean(secrets[i].value, secrets[..i])
  {
  }

  lemma CountOf(s: string, secrets: seq<Secret>)
    requires BracketlessSecrets(secrets) && AsIntervals(s, secrets)
    ensures Redact(s, secrets).1 == Marks(Pieces(s, secrets))
  {
    hide Pieces, Redact;
  }

  lemma {:induction false} SkipPieces(s: string, secrets: seq<Secret>, i: nat)
    requires i <= |secrets| && BracketlessSecrets(secrets) && Clean(s, secrets[..i])
    requires BracketlessSecrets(secrets[i..])
    ensures Pieces(s, secrets) == Pieces(s, secrets[i..])
  {
    hide Occurs, Bracketless, Find;
    if i > 0 {
      assert secrets[0] in secrets && secrets[..i][0] == secrets[0];
      FindOccurs(s, secrets[0].value);
      assert secrets[1..][..i - 1] == secrets[..i][1..];
      assert secrets[1..][i - 1..] == secrets[i..];
      SkipPieces(s, secrets[1..], i - 1);
    } else {
      assert secrets[0..] == secrets;
    }
  }

  lemma CountAlone(secrets: seq<Secret>)
    requires secrets != [] && BracketlessSecrets(secrets)
    ensures Redact(secrets[0].value, secrets).1 == 1 + Redact(Marker(secrets[0].key), secrets[1..]).1
  {
    hide Redact, Marker;
    var x := secrets[0];
    assert x in secrets;
    RedactStep(x.value, secrets);
    ReplaceUnfold(x.value, x.value, Marker(x.key), |x.value|);
    assert x.value[|x.value|..] == [];
    ReplaceEmpty(x.value, Marker(x.key));
    assert Marker(x.key) + [] == Marker(x.key);
  }

  lemma {:induction false} PiecesOfNothing(secrets: seq<Secret>)
    requires BracketlessSecrets(secrets)
    ensures Pieces("", secrets) == [Raw("")]
  {
    if secrets != [] {
      assert secrets[0] in secrets;
      PiecesOfNothing(secrets[1..]);
    }
  }

  lemma MarksAlone(secrets: seq<Secret>)
    requires secrets != [] && BracketlessSecrets(secrets)
    ensures Marks(Pieces(secrets[0].value, secrets)) == 1
  {
    hide Original, Rendered, Marks, Marker, Bracketless;
    var x := secrets[0];
    assert x in secrets;
    assert Find(x.value, x.value) == Some(0);
    assert x.value[..0] == "" && x.value[0 + |x.value|..] == "";
    SuffixBracketless(secrets, 1);
    PiecesOfNothing(secrets[1..]);
    PiecesOfNothing(secrets);
    assert Pieces(x.value, secrets) == [Raw("")] + [Redacted(x)] + [Raw("")];
    RawPiece("");
    ThreePieces([Raw("")], x, [Raw("")]);
  }

  lemma {:induction false} UntouchedClean(s: string, secrets: seq<Secret>)
    requires BracketlessSecrets(secrets) && Redact(s, secrets).1 == 0
    ensures Clean(s, secrets)
  {
    hide Redact, Replace, Count, Find, Clean, Occurs, Marker;
    if secrets == [] {
      RedactNone(s);
    } else {
      var x := secrets[0];
      NonemptyMember(secrets, 0);
      SuffixBracketless(secrets, 1);
      RedactStep(s, secrets);
      if Find(s, x.value).Some? {
        ReplaceFirst(s, x.value, Marker(x.key));
      } else {
        FindNone(s, x.value);
        ReplaceNone(s, x.value, Marker(x.key));
        UntouchedClean(s, secrets[1..]);
        CleanCons(s, secrets);
      }
    }
  }

  lemma CleanCons(s: string, secrets: seq<Secret>)
    requires secrets != [] && !Occurs(s, secrets[0].value) && Clean(s, secrets[1..])
    ensures Clean(s, secrets)
  {
    assert forall y :: y in secrets ==> y == secrets[0] || y in secrets[1..];
  }

  lemma RawPiece(s: string)
    ensures Original([Raw(s)]) == s && Rendered([Raw(s)]) == s && Marks([Raw(s)]) == 0
  {
    assert [Raw(s)][1..] == [];
  }

  lemma CutAt(s: string, k: nat, p: string)
    requires k <= |s| && p <= s[k..]
    ensures s == s[..k] + p + s[k + |p|..]
  {
  }

  lemma ThreePieces(a: seq<Piece>, x: Secret, b: seq<Piece>)
    ensures var all := a + [Redacted(x)] + b;
            && Original(all) == Original(a) + x.value + Original(b)
            && Rendered(all) == Rendered(a) + (Marker(x.key) + Rendered(b))
            && Marks(all) == Marks(a) + 1 + Marks(b)
  {
    hide Original, Rendered, Marks, Marker;
    PiecesCat(a + [Redacted(x)], b);
    PiecesCat(a, [Redacted(x)]);
    SinglePiece(x);
  }

  lemma CleanFewer(s: string, a: seq<Secret>, b: seq<Secret>)
    requires Clean(s, a) && forall y :: y in b ==> y in a
    ensures Clean(s, b)
  {
  }

  lemma SinglePiece(x: Secret)
    ensures Original([Redacted(x)]) == x.value && Rendered([Redacted(x)]) == Marker(x.key) && Marks([Redacted(x)]) == 1
  {
    assert [Redacted(x)][1..] == [];
  }

  // ----- the condition in its simplest form -----

  function Body(key: string): string { "REDACTED:" + key }

  /** Secrets without square brackets, and no secret inside any marker body: then nothing
      leaks, in whatever order the secrets come, and the intervals above are exactly what changed. */
  lemma BodiesCleanSuffices(s: string, secrets: seq<Secret>)
    requires BracketlessSecrets(secrets)
    requires forall x :: x in secrets ==> Clean(Body(x.key), secrets)
    ensures Clean(Redact(s, secrets).0, secrets) && MarkersSafe(secrets)
    ensures AsIntervals(s, secrets)
  {
    hide Redact, Pieces, Original, Rendered, Marks, Marker, Occurs, Bracketless;
    forall x | x in secrets ensures Clean(Marker(x.key), secrets) {
      BodyInMarker(x.key, secrets);
    }
    forall i | 0 <= i < |secrets| && Live(secrets, i)
      ensures Clean(Redact(Marker(secrets[i].key), secrets[i + 1..]).0, secrets)
    {
      assert secrets[i] in secrets;
      SuffixBracketless(secrets, i + 1);
      forall x | x in secrets[i + 1..] ensures x in secrets {}
      RedactUntouched(Marker(secrets[i].key), secrets[i + 1..]);
    }
    LeaksNothing(secrets);
    forall i | 0 <= i < |secrets| && Live(secrets, i) ensures Clean(Marker(secrets[i].key), secrets[i + 1..]) {
      assert secrets[i] in secrets;
      CleanFewer(Marker(secrets[i].key), secrets, secrets[i + 1..]);
    }
    RedactionIsInterval(secrets);
    assert AsIntervals(s, secrets);
  }

  lemma OccursInChar(c: char, p: string)
    requires p != [] && Occurs([c], p)
    ensures p[0] == c
  {
    var i :| OccursAt([c], p, i);
    assert [c][i..][0] == c;
  }

  lemma BodyInMarker(key: string, secrets: seq<Secret>)
    requires BracketlessSecrets(secrets) && Clean(Body(key), secrets)
    ensures Clean(Marker(key), secrets)
  {
    forall x | x in secrets ensures !Occurs("[", x.value) && !Occurs("]", x.value) {
      if Occurs("[", x.value) {
        OccursInChar('[', x.value);
      }
      if Occurs("]", x.value) {
        OccursInChar(']', x.value);
      }
    }
    CleanCat("[", Body(key), secrets);
    CleanCat("[" + Body(key), "]", secrets);
    assert Marker(key) == ("[" + Body(key)) + "]";
  }
}
