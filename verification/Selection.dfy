/** The suite selector of `tools/ci/select_suites.py`. The rule table and the shard lists are a
    parameter; `WellFormed` lists the facts about them that the results rest on. */
module Selection {
  import opened Text
  import opened Sorting
  import Glob

  const PULL_REQUEST := "pull_request"
  const UNMAPPED := "unmapped path"
  const FULL := "full"
  const REASON := "reason"
  const INTEGRATION := "integration"
  const E2E := "e2e"
  const EMDASH := "emdash"

  datatype Target = All | Only(suites: set<string>)

  datatype Rule = Rule(patterns: seq<string>, target: Target, reason: string)

  datatype Table = Table(
    integration: seq<string>, e2e: seq<string>, emdash: seq<string>, flags: seq<string>,
    rules: seq<Rule>, apiPaths: seq<string>, apiExcluded: seq<string>, pinsPaths: seq<string>)

  datatype Reason = CompleteFor(event: string) | Unreadable | AllInputs | ChangedInputs

  function ReasonText(r: Reason): string {
    match r
    case CompleteFor(event) => event + ": complete suite"
    case Unreadable => "pull_request without a readable diff: complete suite"
    case AllInputs => "pull_request: complete suite"
    case ChangedInputs => "pull_request: changed inputs only"
  }

  datatype Selection = Selection(
    full: bool, reason: Reason, suites: set<string>, explanation: seq<(string, string, set<string>)>)

  function Prefixed(prefix: string, names: seq<string>): set<string> {
    set n | n in names :: prefix + ":" + n
  }

  function Everything(t: Table): set<string> {
    Prefixed(INTEGRATION, t.integration) + Prefixed(E2E, t.e2e) + {EMDASH} + (set f | f in t.flags)
  }

  /** Lower-case letters, digits and hyphens: `json.dumps` writes such a name unescaped. */
  predicate PlainName(s: string) {
    s != [] && forall i :: 0 <= i < |s| ==> 'a' <= s[i] <= 'z' || '0' <= s[i] <= '9' || s[i] == '-'
  }

  predicate PlainNames(names: seq<string>) {
    names != [] && forall n :: n in names ==> PlainName(n)
  }

  predicate WellFormed(t: Table) {
    && PlainNames(t.integration) && PlainNames(t.e2e) && PlainNames(t.emdash)
    && FULL !in t.flags && REASON !in t.flags && INTEGRATION !in t.flags && E2E !in t.flags && EMDASH !in t.flags
    && "api" in t.flags && "pins" in t.flags
    && forall r :: r in t.rules && r.target.Only? ==> r.target.suites <= Everything(t)
  }

  /** `matches` */
  predicate MatchesAny(path: string, patterns: seq<string>) {
    exists p :: p in patterns && Glob.Accepts(p, path)
  }

  predicate Mapped(t: Table, path: string) {
    exists r :: r in t.rules && MatchesAny(path, r.patterns)
  }

  /** The first matching rule wins; a path that no rule matches selects everything. */
  function Classify(t: Table, rules: seq<Rule>, path: string): (set<string>, string) {
    if rules == [] then (Everything(t), UNMAPPED)
    else if MatchesAny(path, rules[0].patterns) then
      (if rules[0].target.All? then Everything(t) else rules[0].target.suites, rules[0].reason)
    else Classify(t, rules[1..], path)
  }

  /** What "first" means: no rule before the matching one matches. */
  lemma {:induction false} FirstMatchWins(t: Table, rules: seq<Rule>, path: string, i: nat)
    requires i < |rules| && MatchesAny(path, rules[i].patterns)
    requires forall j :: 0 <= j < i ==> !MatchesAny(path, rules[j].patterns)
    ensures Classify(t, rules, path) ==
            (if rules[i].target.All? then Everything(t) else rules[i].target.suites, rules[i].reason)
  {
    if i > 0 {
      FirstMatchWins(t, rules[1..], path, i - 1);
    }
  }

  function PathSuites(t: Table, path: string): set<string> {
    Classify(t, t.rules, path).0
    + (if MatchesAny(path, t.apiPaths) && !MatchesAny(path, t.apiExcluded) then {"api"} else {})
    + (if MatchesAny(path, t.pinsPaths) then {"pins"} else {})
  }

  function Stripped(paths: seq<string>): (r: seq<string>)
    ensures forall x :: x in r <==> x != [] && exists p :: p in paths && Strip(p, PythonSpace) == x
  {
    if paths == [] then []
    else
      var p := Strip(paths[0], PythonSpace);
      assert paths == [paths[0]] + paths[1..];
      (if p == [] then [] else [p]) + Stripped(paths[1..])
  }

  function Changed(paths: seq<string>): seq<string> { Listing(set p | p in Stripped(paths)) }

  function Union(t: Table, changed: seq<string>): (u: set<string>)
    ensures forall x :: x in u <==> exists p :: p in changed && x in PathSuites(t, p)
  {
    if changed == [] then {}
    else
      assert changed == changed[..|changed| - 1] + [changed[|changed| - 1]];
      Union(t, changed[..|changed| - 1]) + PathSuites(t, changed[|changed| - 1])
  }

  function Explained(t: Table, changed: seq<string>): seq<(string, string, set<string>)> {
    if changed == [] then []
    else
      var path := changed[|changed| - 1];
      Explained(t, changed[..|changed| - 1]) + [(path, Classify(t, t.rules, path).1, PathSuites(t, path))]
  }

  function SelectSpec(t: Table, event: string, paths: seq<string>): Selection {
    if event != PULL_REQUEST then Selection(true, CompleteFor(event), Everything(t), [])
    else if Changed(paths) == [] then
      Selection(true, Unreadable, Everything(t), [])
    else
      var suites := Union(t, Changed(paths));
      var full := suites >= Everything(t);
      Selection(full, if full then AllInputs else ChangedInputs,
                suites, Explained(t, Changed(paths)))
  }

  lemma OneMorePath(t: Table, changed: seq<string>, i: nat)
    requires i < |changed|
    ensures Union(t, changed[..i + 1]) == Union(t, changed[..i]) + PathSuites(t, changed[i])
    ensures Explained(t, changed[..i + 1]) ==
            Explained(t, changed[..i]) + [(changed[i], Classify(t, t.rules, changed[i]).1, PathSuites(t, changed[i]))]
  {
    assert changed[..i + 1][..i] == changed[..i];
  }

  /** Rule `i` is the first whose patterns match the path. */
  predicate FirstRule(t: Table, path: string, i: nat) {
    i < |t.rules| && MatchesAny(path, t.rules[i].patterns) &&
    forall j :: 0 <= j < i ==> !MatchesAny(path, t.rules[j].patterns)
  }

  function RuleSuites(t: Table, rule: Rule): set<string> {
    if rule.target.All? then Everything(t) else rule.target.suites
  }

  /** `selected` is `base`, with `api` and `pins` exactly where `base` or their own path lists say so. */
  predicate Extends(t: Table, path: string, base: set<string>, selected: set<string>) {
    && base <= selected <= base + {"api", "pins"}
    && ("api" in selected <==> "api" in base || (MatchesAny(path, t.apiPaths) && !MatchesAny(path, t.apiExcluded)))
    && ("pins" in selected <==> "pins" in base || MatchesAny(path, t.pinsPaths))
  }

  // ----- what the patterns mean -----

  /** Some pattern chooses the path, segment by segment. */
  predicate Chosen(path: string, patterns: seq<string>) {
    exists p :: p in patterns && Glob.SegmentsMatch(Split(p, '/'), Split(path, '/'))
  }

  predicate WholePatterns(patterns: seq<string>) {
    forall p :: p in patterns ==> Glob.WholeSegments(p)
  }

  /** Every `**` of the table is a whole segment. */
  predicate WholeTable(t: Table) {
    WholePatterns(t.apiPaths) && WholePatterns(t.apiExcluded) && WholePatterns(t.pinsPaths) &&
    forall r :: r in t.rules ==> WholePatterns(r.patterns)
  }

  /** `matches`: any of the patterns, by the segments of pattern and path. */
  lemma MatchesBySegments(path: string, patterns: seq<string>)
    requires WholePatterns(patterns)
    ensures MatchesAny(path, patterns) <==> Chosen(path, patterns)
  {
    hide Glob.Accepts, Glob.SegmentsMatch, Glob.WholeSegments, Split;
    forall p | p in patterns ensures Glob.Accepts(p, path) <==> Glob.SegmentsMatch(Split(p, '/'), Split(path, '/')) {
      Glob.CompilePreservesMeaning(p, path);
    }
  }

  /** Rule `i` is the first one with a pattern that chooses the path. */
  predicate FirstChosen(t: Table, path: string, i: nat) {
    i < |t.rules| && Chosen(path, t.rules[i].patterns) &&
    forall j :: 0 <= j < i ==> !Chosen(path, t.rules[j].patterns)
  }

  predicate NoneChosen(t: Table, path: string) {
    forall r :: r in t.rules ==> !Chosen(path, r.patterns)
  }

  /** The path asks for the suite: by the first rule that chooses it, by no rule choosing it, or by the
      lists of the API contract and of the pins. */
  predicate Wanted(t: Table, path: string, suite: string) {
    || (exists i: nat :: i < |t.rules| && FirstChosen(t, path, i) && suite in RuleSuites(t, t.rules[i]))
    || (NoneChosen(t, path) && suite in Everything(t))
    || (suite == "api" && Chosen(path, t.apiPaths) && !Chosen(path, t.apiExcluded))
    || (suite == "pins" && Chosen(path, t.pinsPaths))
  }

  lemma FirstBySegments(t: Table, path: string, i: nat)
    requires WholeTable(t)
    ensures FirstRule(t, path, i) <==> FirstChosen(t, path, i)
  {
    hide MatchesAny, Chosen, WholePatterns;
    forall j | 0 <= j < |t.rules| ensures MatchesAny(path, t.rules[j].patterns) <==> Chosen(path, t.rules[j].patterns) {
      assert t.rules[j] in t.rules;
      MatchesBySegments(path, t.rules[j].patterns);
    }
  }

  lemma MappedBySegments(t: Table, path: string)
    requires WholeTable(t)
    ensures Mapped(t, path) <==> !NoneChosen(t, path)
  {
    hide MatchesAny, Chosen, WholePatterns;
    forall r | r in t.rules ensures MatchesAny(path, r.patterns) <==> Chosen(path, r.patterns) {
      MatchesBySegments(path, r.patterns);
    }
  }

  lemma MappedFirst(t: Table, path: string) returns (i: nat)
    requires Mapped(t, path)
    ensures FirstRule(t, path, i)
  {
    hide MatchesAny;
    var r :| r in t.rules && MatchesAny(path, r.patterns);
    i := 0;
    while !MatchesAny(path, t.rules[i].patterns)
      invariant i < |t.rules| && forall j :: 0 <= j < i ==> !MatchesAny(path, t.rules[j].patterns)
      invariant exists k :: i <= k < |t.rules| && t.rules[k] == r
      decreases |t.rules| - i
    {
      i := i + 1;
    }
  }

  lemma OnlyOneFirst(t: Table, path: string, i: nat, j: nat)
    requires FirstRule(t, path, i) && FirstRule(t, path, j)
    ensures i == j
  {
    hide MatchesAny;
  }

  /** The suites of one path are exactly those that it asks for. */
  lemma PathWanted(t: Table, path: string, suite: string)
    requires WholeTable(t)
    ensures suite in PathSuites(t, path) <==> Wanted(t, path, suite)
  {
    hide Classify, MatchesAny, Chosen, Everything, WholePatterns, FirstRule, FirstChosen, Mapped, NoneChosen, RuleSuites;
    MatchesBySegments(path, t.apiPaths);
    MatchesBySegments(path, t.apiExcluded);
    MatchesBySegments(path, t.pinsPaths);
    MappedBySegments(t, path);
    if Mapped(t, path) {
      var i := MappedFirst(t, path);
      FirstBySegments(t, path, i);
      FirstRuleSuites(t, path, i);
      forall j: nat | FirstChosen(t, path, j) ensures j == i {
        FirstBySegments(t, path, j);
        OnlyOneFirst(t, path, i, j);
      }
    } else {
      UnmappedSuites(t, path);
      forall j: nat ensures !FirstChosen(t, path, j) {
        FirstBySegments(t, path, j);
        NotFirst(t, path, j);
      }
    }
  }

  lemma FirstRuleSuites(t: Table, path: string, i: nat)
    requires FirstRule(t, path, i)
    ensures i < |t.rules| && Classify(t, t.rules, path).0 == RuleSuites(t, t.rules[i])
  {
    hide MatchesAny, Everything;
    FirstMatchWins(t, t.rules, path, i);
  }

  lemma NotFirst(t: Table, path: string, j: nat)
    requires !Mapped(t, path)
    ensures !FirstRule(t, path, j)
  {
    hide MatchesAny;
    if j < |t.rules| { assert t.rules[j] in t.rules; }
  }

  lemma UnmappedSuites(t: Table, path: string)
    requires !Mapped(t, path)
    ensures Classify(t, t.rules, path).0 == Everything(t)
  {
    hide MatchesAny, Everything;
    ClassifyUnmapped(t, t.rules, path);
  }

  lemma PathExtends(t: Table, path: string)
    ensures Extends(t, path, Classify(t, t.rules, path).0, PathSuites(t, path))
  {
    hide Classify, MatchesAny;
    assert "api" != "pins" by { assert |"api"| == 3 && |"pins"| == 4; }
  }

  /** One turn of the loop in `select`: a mapped path gets the suites and the reason of the first rule
      that matches, an unmapped path gets everything; `api` and `pins` come from their own lists. */
  method SelectPath(t: Table, path: string) returns (selected: set<string>, reason: string)
    ensures selected == PathSuites(t, path) && reason == Classify(t, t.rules, path).1
    ensures forall i: nat :: FirstRule(t, path, i) ==>
      reason == t.rules[i].reason && Extends(t, path, RuleSuites(t, t.rules[i]), selected)
    ensures !Mapped(t, path) ==> reason == UNMAPPED && Extends(t, path, Everything(t), selected)
    ensures WholeTable(t) ==> forall suite :: suite in selected <==> Wanted(t, path, suite)
    ensures WholeTable(t) ==> forall i: nat :: FirstChosen(t, path, i) ==> reason == t.rules[i].reason
  {
    if WholeTable(t) {
      forall suite ensures suite in PathSuites(t, path) <==> Wanted(t, path, suite) {
        PathWanted(t, path, suite);
      }
      forall i: nat ensures FirstRule(t, path, i) <==> FirstChosen(t, path, i) {
        FirstBySegments(t, path, i);
      }
    }
    PathExtends(t, path);
    ClassifyUnmapped(t, t.rules, path);
    forall i: nat | FirstRule(t, path, i)
      ensures Classify(t, t.rules, path) == (RuleSuites(t, t.rules[i]), t.rules[i].reason)
    {
      FirstMatchWins(t, t.rules, path, i);
    }
    hide Classify, Extends, MatchesAny, Everything;
    var classified := Classify(t, t.rules, path);
    selected, reason := classified.0, classified.1;
    if MatchesAny(path, t.apiPaths) && !MatchesAny(path, t.apiExcluded) {
      selected := selected + {"api"};
    }
    if MatchesAny(path, t.pinsPaths) {
      selected := selected + {"pins"};
    }
  }

  /** `select`: the loop adds the suites and the explanation of one changed path after the other. */
  method Select(t: Table, event: string, paths: seq<string>) returns (s: Selection)
    ensures s == SelectSpec(t, event, paths)
  {
    hide PathSuites, Classify, Stripped, Listing, Everything;
    if event != PULL_REQUEST {
      return Selection(true, CompleteFor(event), Everything(t), []);
    }
    var changed := Changed(paths);
    if changed == [] {
      return Selection(true, Unreadable, Everything(t), []);
    }
    var suites: set<string> := {};
    var explanation: seq<(string, string, set<string>)> := [];
    for i := 0 to |changed|
      invariant suites == Union(t, changed[..i])
      invariant explanation == Explained(t, changed[..i])
    {
      var selected, reason := SelectPath(t, changed[i]);
      OneMorePath(t, changed, i);
      suites := suites + selected;
      explanation := explanation + [(changed[i], reason, selected)];
    }
    assert changed[..|changed|] == changed;
    var full := suites >= Everything(t);
    s := Selection(full, if full then AllInputs else ChangedInputs, suites, explanation);
  }

  // ----- the selection as a union -----

  /** The changed paths can be read: some line is not blank. */
  predicate Readable(paths: seq<string>) {
    exists p :: p in paths && Strip(p, PythonSpace) != []
  }

  lemma ReadableChanged(paths: seq<string>)
    ensures Readable(paths) <==> Changed(paths) != []
  {
    if p :| p in paths && Strip(p, PythonSpace) != [] {
      assert Strip(p, PythonSpace) in Changed(paths);
    }
    if Changed(paths) != [] {
      assert Changed(paths)[0] in Stripped(paths);
    }
  }

  lemma {:induction false} StrippedCat(p: seq<string>, q: seq<string>)
    ensures Stripped(p + q) == Stripped(p) + Stripped(q)
  {
    hide Strip;
    if p == [] {
      assert p + q == q;
    } else {
      assert (p + q)[1..] == p[1..] + q;
      StrippedCat(p[1..], q);
    }
  }

  lemma ChangedCat(p: seq<string>, q: seq<string>)
    ensures forall x :: x in Changed(p + q) <==> x in Changed(p) || x in Changed(q)
  {
    StrippedCat(p, q);
  }

  lemma UnionCat(t: Table, a: seq<string>, b: seq<string>, c: seq<string>)
    requires forall x :: x in c <==> x in a || x in b
    ensures Union(t, c) == Union(t, a) + Union(t, b)
  {
  }

  /** Suites of two path lists together are the union of the suites of each. */
  lemma UnionHomomorphism(t: Table, p: seq<string>, q: seq<string>)
    requires Readable(p) && Readable(q)
    ensures SelectSpec(t, PULL_REQUEST, p + q).suites ==
            SelectSpec(t, PULL_REQUEST, p).suites + SelectSpec(t, PULL_REQUEST, q).suites
  {
    ReadableChanged(p);
    ReadableChanged(q);
    ChangedCat(p, q);
    assert Changed(p)[0] in Changed(p + q);
    UnionCat(t, Changed(p), Changed(q), Changed(p + q));
  }

  /** Order, repetition and surrounding blanks of the paths change nothing at all. */
  lemma OrderAndRepetition(t: Table, event: string, p: seq<string>, q: seq<string>)
    requires forall x :: x in Stripped(p) <==> x in Stripped(q)
    ensures SelectSpec(t, event, p) == SelectSpec(t, event, q)
  {
    hide PathSuites, Classify, Stripped, Union, Explained, Everything;
    assert (set x | x in Stripped(p)) == (set x | x in Stripped(q));
  }

  lemma {:induction false} ClassifyUnmapped(t: Table, rules: seq<Rule>, path: string)
    ensures (forall r :: r in rules ==> !MatchesAny(path, r.patterns)) ==> Classify(t, rules, path) == (Everything(t), UNMAPPED)
  {
    hide Everything, MatchesAny;
    if rules != [] {
      assert rules[0] in rules;
      ClassifyUnmapped(t, rules[1..], path);
    }
  }

  lemma {:induction false} ClassifyInside(t: Table, rules: seq<Rule>, path: string)
    requires forall r :: r in rules && r.target.Only? ==> r.target.suites <= Everything(t)
    ensures Classify(t, rules, path).0 <= Everything(t)
  {
    if rules != [] {
      assert rules[0] in rules;
      ClassifyInside(t, rules[1..], path);
    }
  }

  lemma SuitesInside(t: Table, event: string, paths: seq<string>)
    requires WellFormed(t)
    ensures SelectSpec(t, event, paths).suites <= Everything(t)
  {
    forall p ensures PathSuites(t, p) <= Everything(t) {
      ClassifyInside(t, t.rules, p);
    }
  }

  predicate SomeUnmapped(t: Table, paths: seq<string>) {
    exists p :: p in paths && Strip(p, PythonSpace) != [] && !Mapped(t, Strip(p, PythonSpace))
  }

  lemma UnmappedSelectsAll(t: Table, paths: seq<string>)
    requires SomeUnmapped(t, paths)
    ensures Union(t, Changed(paths)) >= Everything(t)
  {
    var p :| p in paths && Strip(p, PythonSpace) != [] && !Mapped(t, Strip(p, PythonSpace));
    var x := Strip(p, PythonSpace);
    assert x in Stripped(paths) && x in Changed(paths);
    ClassifyUnmapped(t, t.rules, x);
    assert PathSuites(t, x) >= Everything(t);
  }

  /** Fails closed: any event but a pull request, an unreadable diff, or one unmapped path selects
      everything; and `full` says exactly that everything is selected. */
  lemma FailsClosed(t: Table, event: string, paths: seq<string>)
    requires WellFormed(t)
    ensures var s := SelectSpec(t, event, paths);
            && (s.full <==> s.suites == Everything(t))
            && (event != PULL_REQUEST || !Readable(paths) || SomeUnmapped(t, paths) ==> s.full)
  {
    hide Classify, PathSuites, Stripped, Strip;
    SuitesInside(t, event, paths);
    ReadableChanged(paths);
    if SomeUnmapped(t, paths) {
      UnmappedSelectsAll(t, paths);
    }
  }

  /** The selection of a readable diff, exactly: a suite is selected when some changed path asks for it. */
  lemma SelectedExactly(t: Table, paths: seq<string>, suite: string)
    requires WholeTable(t) && Readable(paths)
    ensures suite in SelectSpec(t, PULL_REQUEST, paths).suites <==>
            exists p :: p in paths && Strip(p, PythonSpace) != [] && Wanted(t, Strip(p, PythonSpace), suite)
  {
    hide Wanted, PathSuites, Strip, WholeTable, Everything;
    ReadableChanged(paths);
    forall x ensures suite in PathSuites(t, x) <==> Wanted(t, x, suite) {
      PathWanted(t, x, suite);
    }
    var changed := Changed(paths);
    if suite in SelectSpec(t, PULL_REQUEST, paths).suites {
      var x :| x in changed && suite in PathSuites(t, x);
      assert x in Stripped(paths);
      var p :| p in paths && Strip(p, PythonSpace) == x;
    }
    if p :| p in paths && Strip(p, PythonSpace) != [] && Wanted(t, Strip(p, PythonSpace), suite) {
      assert Strip(p, PythonSpace) in Stripped(paths);
      assert Strip(p, PythonSpace) in changed;
    }
  }

  // ----- the outputs -----

  function Quoted(name: string): string { ['"'] + name + ['"'] }

  function ListTail(names: seq<string>): string {
    if names == [] then "]" else ", " + Quoted(names[0]) + ListTail(names[1..])
  }

  /** `json.dumps` of a list of plain names. */
  function JsonList(names: seq<string>): string {
    if names == [] then "[]" else "[" + Quoted(names[0]) + ListTail(names[1..])
  }

  function JsonBool(b: bool): string { if b then "true" else "false" }

  function Listed(suites: set<string>, prefix: string, names: seq<string>): (r: seq<string>)
    ensures forall n :: n in r <==> n in names && prefix + ":" + n in suites
  {
    if names == [] then []
    else
      assert names == [names[0]] + names[1..];
      (if prefix + ":" + names[0] in suites then [names[0]] else []) + Listed(suites, prefix, names[1..])
  }

  /** `Selection.outputs`: the entry of one output key. The flags are written last. */
  function Output(t: Table, s: Selection, key: string): Option<string> {
    if key in t.flags then Some(JsonBool(key in s.suites))
    else if key == FULL then Some(JsonBool(s.full))
    else if key == REASON then Some(ReasonText(s.reason))
    else if key == INTEGRATION then Some(JsonList(Listed(s.suites, INTEGRATION, t.integration)))
    else if key == E2E then Some(JsonList(Listed(s.suites, E2E, t.e2e)))
    else if key == EMDASH then Some(JsonList(if EMDASH in s.suites then t.emdash else []))
    else None
  }

  lemma QuotedCancel(a: string, b: string, x: string, y: string)
    requires Free(a, '"') && Free(b, '"') && Quoted(a) + x == Quoted(b) + y
    ensures a == b && x == y
  {
    var s := Quoted(a) + x;
    assert s[1..] == a + (['"'] + x) == b + (['"'] + y);
    FirstIndexUnique(s[1..], '"', |a|) by { assert s[1..][..|a|] == a; }
    FirstIndexUnique(s[1..], '"', |b|) by { assert s[1..][..|b|] == b; }
    assert s[1..][..|a|] == a && s[1..][..|b|] == b;
    assert s[|a| + 2..] == x && s[|b| + 2..] == y;
  }

  predicate QuoteFree(names: seq<string>) {
    forall n :: n in names ==> Free(n, '"')
  }

  lemma {:induction false} ListTailInjective(a: seq<string>, b: seq<string>)
    requires QuoteFree(a) && QuoteFree(b) && ListTail(a) == ListTail(b)
    ensures a == b
  {
    if a != [] && b != [] {
      TailParts(a);
      TailParts(b);
      QuotedCancel(a[0], b[0], ListTail(a[1..]), ListTail(b[1..]));
      ListTailInjective(a[1..], b[1..]);
      assert a == [a[0]] + a[1..] && b == [b[0]] + b[1..];
    }
  }

  lemma TailParts(a: seq<string>)
    requires a != []
    ensures ListTail(a)[2..] == Quoted(a[0]) + ListTail(a[1..])
  {
  }

  lemma JsonListInjective(a: seq<string>, b: seq<string>)
    requires QuoteFree(a) && QuoteFree(b) && JsonList(a) == JsonList(b)
    ensures a == b
  {
    if a != [] && b != [] {
      assert JsonList(a)[1..] == Quoted(a[0]) + ListTail(a[1..]);
      assert JsonList(b)[1..] == Quoted(b[0]) + ListTail(b[1..]);
      QuotedCancel(a[0], b[0], ListTail(a[1..]), ListTail(b[1..]));
      ListTailInjective(a[1..], b[1..]);
      assert a == [a[0]] + a[1..] && b == [b[0]] + b[1..];
    }
  }

  lemma PlainQuoteFree(names: seq<string>)
    requires PlainNames(names)
    ensures QuoteFree(names)
  {
    forall n | n in names ensures Free(n, '"') { assert PlainName(n); }
  }

  /** Losslessness: equal outputs come from equal suite sets. */
  lemma OutputsLossless(t: Table, a: Selection, b: Selection)
    requires WellFormed(t) && a.suites <= Everything(t) && b.suites <= Everything(t)
    requires forall key :: Output(t, a, key) == Output(t, b, key)
    ensures a.suites == b.suites && a.full == b.full
  {
    assert Output(t, a, INTEGRATION) == Output(t, b, INTEGRATION);
    ShardsAgree(INTEGRATION, t.integration, a.suites, b.suites);
    assert Output(t, a, E2E) == Output(t, b, E2E);
    ShardsAgree(E2E, t.e2e, a.suites, b.suites);
    EmdashAgree(t, a, b);
    BoolAgree(a.full, b.full);
    assert Output(t, a, FULL) == Output(t, b, FULL);
    forall f | f in t.flags ensures f in a.suites <==> f in b.suites {
      assert Output(t, a, f) == Output(t, b, f);
      BoolAgree(f in a.suites, f in b.suites);
    }
    forall s | s in Everything(t) ensures s in a.suites <==> s in b.suites {}
  }

  lemma EmdashAgree(t: Table, a: Selection, b: Selection)
    requires WellFormed(t) && Output(t, a, EMDASH) == Output(t, b, EMDASH)
    ensures EMDASH in a.suites <==> EMDASH in b.suites
  {
    PlainQuoteFree(t.emdash);
    JsonListInjective(if EMDASH in a.suites then t.emdash else [], if EMDASH in b.suites then t.emdash else []);
  }

  lemma BoolAgree(a: bool, b: bool)
    ensures JsonBool(a) == JsonBool(b) ==> a == b
  {
    assert "true"[0] != "false"[0];
  }

  lemma ShardsAgree(prefix: string, names: seq<string>, a: set<string>, b: set<string>)
    requires PlainNames(names) && JsonList(Listed(a, prefix, names)) == JsonList(Listed(b, prefix, names))
    ensures forall s :: s in Prefixed(prefix, names) ==> (s in a <==> s in b)
  {
    PlainQuoteFree(names);
    JsonListInjective(Listed(a, prefix, names), Listed(b, prefix, names));
    forall s | s in Prefixed(prefix, names) ensures s in a <==> s in b {
      var n :| n in names && s == prefix + ":" + n;
      assert n in Listed(a, prefix, names) <==> n in Listed(b, prefix, names);
    }
  }
}
