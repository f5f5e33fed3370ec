/** The `needs` of a job block and the gate check of `tools/ci/workflow_contract.py`. */
module Needs {
  import opened Text
  import opened Sorting
  import opened Workflow

  /** The three ways to write needs, in the order in which they are looked for. */
  datatype Form = Inline | Single | Listed

  const NEEDS := "    needs:"
  const ITEM := "      - "

  /** `$` with MULTILINE: at the end or before a newline. */
  predicate LineEnd(s: string) { s == [] || s[0] == NL }

  /** Greedy run of lines `      - name`. */
  function Items(s: string): seq<string> {
    if StartsWith(s, ITEM) then
      var rest := s[|ITEM|..];
      var n := NameLength(rest);
      if 0 < n < |rest| && rest[n] == NL then [rest[..n]] + Items(rest[n + 1..]) else []
    else []
  }

  /** `{item.strip() for item in group.split(",") if item.strip()}` */
  function InlineNames(group: string): set<string> {
    set item | item in Split(group, ',') && Strip(item, PythonSpace) != [] :: Strip(item, PythonSpace)
  }

  /** The match of one form at the start of a line `s`. */
  function At(form: Form, s: string): (m: Option<set<string>>)
    ensures m.Some? ==> StartsWith(s, NEEDS)
  {
    if !StartsWith(s, NEEDS) then None
    else
      var rest := s[|NEEDS|..];
      match form
      case Inline =>
        if |rest| >= 2 && rest[0] == ' ' && rest[1] == '[' then
          var group := rest[2..];
          var i := FirstIndex(group, ']');
          if i < |group| && LineEnd(group[i + 1..]) then Some(InlineNames(group[..i])) else None
        else None
      case Single =>
        if |rest| >= 1 && rest[0] == ' ' then
          var n := NameLength(rest[1..]);
          if n > 0 && LineEnd(rest[n + 1..]) then Some({rest[1..n + 1]}) else None
        else None
      case Listed =>
        if |rest| >= 1 && rest[0] == NL && Items(rest[1..]) != [] then Some(set x | x in Items(rest[1..])) else None
  }

  /** `re.search`: the first line where the form matches. */
  function First(form: Form, s: string, lineStart: bool): Option<set<string>> {
    if lineStart && At(form, s).Some? then At(form, s)
    else if s == [] then None
    else First(form, s[1..], s[0] == NL)
  }

  function NeedsOf(block: string): set<string> {
    var inline := First(Inline, block, true);
    if inline.Some? then inline.value else
      var single := First(Single, block, true);
      if single.Some? then single.value else
        var listed := First(Listed, block, true);
        if listed.Some? then listed.value else {}
  }

  // ----- writing and reading -----

  function WriteItems(names: seq<string>): string {
    if names == [] then "" else ITEM + (names[0] + ([NL] + WriteItems(names[1..])))
  }

  function Write(form: Form, names: seq<string>): string
    requires names != []
  {
    match form
    case Inline => NEEDS + (" [" + (Join(names, ", ") + ("]" + [NL])))
    case Single => NEEDS + (" " + (names[0] + [NL]))
    case Listed => NEEDS + ([NL] + WriteItems(names))
  }

  /** No line of `s` starts with a needs key. */
  predicate NoNeeds(s: string, lineStart: bool) {
    if s == [] then true
    else (lineStart ==> !StartsWith(s, NEEDS)) && NoNeeds(s[1..], s[0] == NL)
  }

  lemma {:induction false} FirstNone(form: Form, s: string, lineStart: bool)
    requires NoNeeds(s, lineStart)
    ensures First(form, s, lineStart).None?
  {
    if s != [] {
      FirstNone(form, s[1..], s[0] == NL);
    }
  }

  lemma PrefixOfLine(s: string, q: string, pattern: string)
    requires s != [] && s[|s| - 1] == NL && Free(pattern, NL)
    ensures StartsWith(s + q, pattern) <==> StartsWith(s, pattern)
  {
    if |pattern| > |s| {
      assert (s + q)[|s| - 1] == NL;
      assert pattern[|s| - 1] != NL;
    } else {
      PrefixLocal(s, q, pattern);
    }
  }

  lemma NeedsOneLine()
    ensures Free(NEEDS, NL) && Free(ITEM, NL)
  {
  }

  lemma {:induction false} FirstAfter(form: Form, s: string, lineStart: bool, q: string)
    requires if s == [] then lineStart else s[|s| - 1] == NL
    requires NoNeeds(s, lineStart)
    ensures First(form, s + q, lineStart) == First(form, q, true)
  {
    if s == [] {
      assert s + q == q;
    } else {
      NeedsOneLine();
      PrefixOfLine(s, q, NEEDS);
      assert (s + q)[1..] == s[1..] + q;
      FirstAfter(form, s[1..], s[0] == NL, q);
    }
  }

  lemma {:induction false} NoNeedsLine(line: string, q: string)
    requires Free(line, NL) && NoNeeds(q, true)
    ensures NoNeeds(line + ([NL] + q), false)
  {
    var s := line + ([NL] + q);
    if line == [] {
      assert s[1..] == q;
    } else {
      assert s[1..] == line[1..] + ([NL] + q);
      NoNeedsLine(line[1..], q);
    }
  }

  /** A line that is no needs key. */
  lemma NoNeedsWholeLine(line: string, q: string)
    requires line != [] && Free(line, NL) && NoNeeds(q, true)
    requires !StartsWith(line + ([NL] + q), NEEDS)
    ensures NoNeeds(line + ([NL] + q), true)
  {
    assert (line + ([NL] + q))[1..] == line[1..] + ([NL] + q);
    NoNeedsLine(line[1..], q);
  }

  lemma ItemNoNeeds(rest: string)
    ensures !StartsWith(ITEM + rest, NEEDS)
  {
    assert (ITEM + rest)[4] == ' ' && NEEDS[4] == 'n';
  }

  lemma {:induction false} NoNeedsItems(names: seq<string>, q: string)
    requires forall n :: n in names ==> Name(n)
    requires NoNeeds(q, true)
    ensures NoNeeds(WriteItems(names) + q, true)
  {
    if names == [] {
      assert WriteItems(names) + q == q;
    } else {
      var rest := WriteItems(names[1..]) + q;
      NoNeedsItems(names[1..], q);
      assert Name(names[0]);
      NoNeedsItem(names[0], rest);
      Regroup(ITEM, names[0], WriteItems(names[1..]), q);
    }
  }

  lemma NoNeedsItem(name: string, rest: string)
    requires Name(name) && NoNeeds(rest, true)
    ensures NoNeeds(ITEM + (name + ([NL] + rest)), true)
  {
    NeedsOneLine();
    FreeCat(ITEM, name, NL);
    ItemNoNeeds(name + ([NL] + rest));
    Associate(ITEM, name, [NL] + rest);
    NoNeedsWholeLine(ITEM + name, rest);
  }

  lemma Associate(a: string, b: string, c: string)
    ensures a + (b + c) == a + b + c
  {
  }

  lemma ItemThen(name: string, rest: string)
    requires Name(name)
    ensures Items(ITEM + (name + ([NL] + rest))) == [name] + Items(rest)
  {
    var tail := name + ([NL] + rest);
    var s := ITEM + tail;
    assert StartsWith(s, ITEM) && s[|ITEM|..] == tail;
    NameThen(name, [NL] + rest);
    assert tail[..|name|] == name && tail[|name|] == NL && tail[|name| + 1..] == rest;
  }

  lemma {:induction false} ItemsRead(names: seq<string>, q: string)
    requires forall n :: n in names ==> Name(n)
    requires !StartsWith(q, ITEM)
    ensures Items(WriteItems(names) + q) == names
  {
    if names == [] {
      assert WriteItems(names) + q == q;
    } else {
      var rest := WriteItems(names[1..]) + q;
      assert Name(names[0]);
      ItemsRead(names[1..], q);
      ItemThen(names[0], rest);
      Regroup(ITEM, names[0], WriteItems(names[1..]), q);
    }
  }

  lemma Regroup(a: string, b: string, c: string, q: string)
    ensures a + (b + ([NL] + c)) + q == a + (b + ([NL] + (c + q)))
  {
  }

  lemma NameTrimmed(name: string)
    requires Name(name)
    ensures Strip(name, PythonSpace) == name && Strip(" " + name, PythonSpace) == name
  {
    assert NameChar(name[0]) && NameChar(name[|name| - 1]);
    NameCharVisible(name[0]);
    NameCharVisible(name[|name| - 1]);
    hide NameChar, PythonSpace;
    assert Trimmed(name, PythonSpace);
    StripSpace(name);
  }

  lemma NameCharVisible(c: char)
    requires NameChar(c)
    ensures !PythonSpace(c)
  {
  }

  lemma StripSpace(s: string)
    ensures Strip(" " + s, PythonSpace) == Strip(s, PythonSpace)
  {
    assert (" " + s)[1..] == s;
  }

  function Spaced(names: seq<string>): seq<string> {
    if names == [] then [] else [" " + names[0]] + Spaced(names[1..])
  }

  lemma {:induction false} JoinedItems(names: seq<string>)
    requires names != [] && forall n :: n in names ==> Name(n)
    ensures Split(Join(names, ", "), ',') == [names[0]] + Spaced(names[1..])
  {
    assert Name(names[0]);
    if |names| == 1 {
      SplitSingle(names[0], ',');
    } else {
      var rest := Join(names[1..], ", ");
      assert Join(names, ", ") == names[0] + [','] + (" " + rest);
      SplitHead(names[0], ',', " " + rest);
      JoinedItems(names[1..]);
      SpaceFront(rest, names[1], Spaced(names[2..]));
      assert names[1..][1..] == names[2..];
    }
  }

  lemma SpaceFront(s: string, head: string, tail: seq<string>)
    requires Split(s, ',') == [head] + tail
    ensures Split(" " + s, ',') == [" " + head] + tail
  {
    var i := FirstIndex(s, ',');
    var t := " " + s;
    assert t[1..] == s;
    assert FirstIndex(t, ',') == i + 1;
    assert t[..i + 1] == " " + s[..i];
    assert head == Split(s, ',')[0] && tail == Split(s, ',')[1..];
    if i < |s| {
      assert t[i + 2..] == s[i + 1..];
      assert Split(s, ',')[1..] == Split(s[i + 1..], ',');
    } else {
      assert s[..i] == s && Split(s, ',') == [s];
    }
  }

  lemma {:induction false} SpacedMembers(names: seq<string>)
    requires forall n :: n in names ==> Name(n)
    ensures forall x :: x in Spaced(names) ==> exists n :: n in names && x == " " + n
    ensures forall n :: n in names ==> " " + n in Spaced(names)
  {
    if names != [] {
      SpacedMembers(names[1..]);
      forall x | x in Spaced(names) ensures exists n :: n in names && x == " " + n {
        if x != " " + names[0] {
          assert x in Spaced(names[1..]);
        }
      }
      forall n | n in names ensures " " + n in Spaced(names) {
        if n == names[0] {
          assert Spaced(names)[0] == " " + n;
        } else {
          assert n in names[1..];
        }
      }
    }
  }

  lemma InlineNamesRead(names: seq<string>)
    requires names != [] && forall n :: n in names ==> Name(n)
    ensures InlineNames(Join(names, ", ")) == set n | n in names
  {
    var items := Split(Join(names, ", "), ',');
    JoinedItems(names);
    SpacedMembers(names[1..]);
    forall n | n in names ensures n in InlineNames(Join(names, ", ")) {
      NameTrimmed(n);
      if n == names[0] {
        assert items[0] == n;
        assert n in items;
      } else {
        assert n in names[1..];
        assert " " + n in items;
      }
    }
    forall x | x in InlineNames(Join(names, ", ")) ensures x in names {
      var item :| item in items && Strip(item, PythonSpace) == x;
      if item == names[0] {
        NameTrimmed(names[0]);
      } else {
        assert item in Spaced(names[1..]);
        var n :| n in names[1..] && item == " " + n;
        NameTrimmed(n);
      }
    }
  }

  lemma {:induction false} JoinFree(names: seq<string>, c: char)
    requires !NameChar(c) && c != ',' && c != ' ' && forall n :: n in names ==> Name(n)
    ensures Free(Join(names, ", "), c)
  {
    if names != [] {
      assert Name(names[0]);
      assert Free(names[0], c);
      if |names| > 1 {
        JoinFree(names[1..], c);
        FreeCat(names[0], ", ", c);
        FreeCat(names[0] + ", ", Join(names[1..], ", "), c);
      }
    }
  }

  lemma AfterKey(rest: string)
    ensures StartsWith(NEEDS + rest, NEEDS) && (NEEDS + rest)[|NEEDS|..] == rest
  {
  }

  lemma InlineAt(names: seq<string>, q: string)
    requires names != [] && forall n :: n in names ==> Name(n)
    ensures At(Inline, Write(Inline, names) + q) == Some(set n | n in names)
  {
    var joined := Join(names, ", ");
    var group := joined + ("]" + ([NL] + q));
    var rest := " [" + group;
    assert Write(Inline, names) + q == NEEDS + rest;
    AfterKey(rest);
    assert rest[2..] == group && group[..|joined|] == joined && group[|joined| + 1..] == [NL] + q;
    JoinFree(names, ']');
    FirstIndexUnique(group, ']', |joined|);
    InlineNamesRead(names);
  }

  lemma SingleAt(name: string, q: string)
    requires Name(name)
    ensures At(Single, Write(Single, [name]) + q) == Some({name})
    ensures At(Inline, Write(Single, [name]) + q).None?
  {
    var rest := " " + (name + ([NL] + q));
    assert Write(Single, [name]) + q == NEEDS + rest;
    AfterKey(rest);
    assert rest[1..] == name + ([NL] + q);
    NameThen(name, [NL] + q);
    assert rest[|name| + 1..] == [NL] + q && rest[1..|name| + 1] == name;
    assert rest[1] == name[0] && NameChar(rest[1]);
  }

  lemma ListedAt(names: seq<string>, q: string)
    requires names != [] && !StartsWith(q, ITEM) && forall n :: n in names ==> Name(n)
    ensures At(Listed, Write(Listed, names) + q) == Some(set n | n in names)
    ensures At(Inline, Write(Listed, names) + q).None? && At(Single, Write(Listed, names) + q).None?
  {
    var rest := [NL] + (WriteItems(names) + q);
    assert Write(Listed, names) + q == NEEDS + rest;
    AfterKey(rest);
    assert rest[1..] == WriteItems(names) + q;
    ItemsRead(names, q);
  }

  lemma KeyLineRest(tail: string, q: string)
    requires Free(tail, NL) && NoNeeds(q, true)
    ensures NoNeeds((NEEDS + (tail + ([NL] + q)))[1..], false)
  {
    NeedsOneLine();
    FreeCat(NEEDS[1..], tail, NL);
    assert (NEEDS + (tail + ([NL] + q)))[1..] == NEEDS[1..] + tail + ([NL] + q);
    NoNeedsLine(NEEDS[1..] + tail, q);
  }

  lemma SingleRest(name: string, q: string)
    requires Name(name) && NoNeeds(q, true)
    ensures NoNeeds((Write(Single, [name]) + q)[1..], false)
  {
    assert Free(" " + name, NL);
    KeyLineRest(" " + name, q);
    assert Write(Single, [name]) + q == NEEDS + ((" " + name) + ([NL] + q));
  }

  lemma ListedRest(names: seq<string>, q: string)
    requires names != [] && forall n :: n in names ==> Name(n)
    requires NoNeeds(q, true)
    ensures NoNeeds((Write(Listed, names) + q)[1..], false)
  {
    NoNeedsItems(names, q);
    KeyLineRest("", WriteItems(names) + q);
    hide WriteItems, NoNeeds;
    ListedText(NEEDS, WriteItems(names), q);
  }

  lemma ListedText(key: string, items: string, q: string)
    ensures key + ([NL] + items) + q == key + ("" + ([NL] + (items + q)))
  {
  }

  /** Reading undoes writing: in a block whose other lines hold no needs key, each form gives back
      exactly the set of names written. */
  lemma NeedsRoundTrip(before: string, form: Form, names: seq<string>, q: string)
    requires names != [] && (form.Single? ==> |names| == 1) && forall n :: n in names ==> Name(n)
    requires Lines(before) && NoNeeds(before, true) && NoNeeds(q, true) && !StartsWith(q, ITEM)
    ensures NeedsOf(before + (Write(form, names) + q)) == set n | n in names
  {
    var s := Write(form, names) + q;
    FirstAfter(Inline, before, true, s);
    FirstAfter(Single, before, true, s);
    FirstAfter(Listed, before, true, s);
    assert s[0] == ' ';
    match form
    case Inline =>
      InlineAt(names, q);
    case Single =>
      assert names == [names[0]];
      SingleAt(names[0], q);
      SingleRest(names[0], q);
      FirstNone(Inline, s[1..], false);
    case Listed =>
      ListedAt(names, q);
      ListedRest(names, q);
      FirstNone(Inline, s[1..], false);
      FirstNone(Single, s[1..], false);
  }

  // ----- the gate check -----

  const OUTSIDE_GATE := {"gate", "pilot-cold-rehearsal", "artifact-probe", "flake-summary"}
  const GATE := "gate"

  datatype Problem = GateMissing | NotAlways | NotEvaluating | NotRequired(missing: seq<string>)

  function Required(text: string): set<string> {
    (set j | j in JobsOf(text)) - OUTSIDE_GATE
  }

  predicate Titled(block: string, title: string) { Contains(block, "    name: " + title + [NL]) }

  predicate Always(block: string) { Contains(block, "    if: ${{ always()") }

  predicate EvaluatesNeeds(block: string) {
    Contains(block, "python3 tools/ci/gate.py") && Contains(block, "NEEDS: ${{ toJSON(needs) }}")
  }

  function Problems(titled: bool, always: bool, evaluates: bool, missing: set<string>): seq<Problem> {
    if !titled then [GateMissing]
    else (if always then [] else [NotAlways]) + (if evaluates then [] else [NotEvaluating])
         + (if missing == {} then [] else [NotRequired(Listing(missing))])
  }

  /** The problems that `check_gate` reports, in order. */
  function GateProblems(block: string, required: set<string>, title: string): seq<Problem> {
    Problems(Titled(block, title), Always(block), EvaluatesNeeds(block), required - NeedsOf(block))
  }

  /** The job is exempt by name or needed by the gate. */
  predicate Covered(text: string, job: string) {
    job in OUTSIDE_GATE || job in NeedsOf(JobBlock(text, GATE))
  }

  /** The gate has its title, runs after failures and evaluates its needs, and every job is covered. */
  predicate GateSound(text: string, title: string) {
    var block := JobBlock(text, GATE);
    Titled(block, title) && Always(block) && EvaluatesNeeds(block) && forall j :: j in JobsOf(text) ==> Covered(text, j)
  }

  /** What the reported problems say, both ways: none exactly for a sound gate, and a list of missing
      jobs is the sorted list of exactly those that escape the gate. */
  lemma GateVerdict(text: string, title: string)
    ensures var problems := GateProblems(JobBlock(text, GATE), Required(text), title);
            && (problems == [] <==> GateSound(text, title))
            && (GateMissing in problems <==> !Titled(JobBlock(text, GATE), title))
            && forall names :: NotRequired(names) in problems ==>
                 Sorted(names) && forall j :: j in names <==> j in JobsOf(text) && !Covered(text, j)
  {
    hide JobBlock, NeedsOf, JobsOf, Titled, Always, EvaluatesNeeds, Sorted, Listing;
    var block := JobBlock(text, GATE);
    var missing := Required(text) - NeedsOf(block);
    assert forall j :: j in missing <==> j in JobsOf(text) && !Covered(text, j);
    ListingSorted(missing);
  }

  /** Each other problem, exactly. */
  lemma ProblemsExactly(titled: bool, always: bool, evaluates: bool, missing: set<string>)
    ensures var problems := Problems(titled, always, evaluates, missing);
            && (NotAlways in problems <==> titled && !always)
            && (NotEvaluating in problems <==> titled && !evaluates)
            && (GateMissing in problems <==> !titled)
            && forall names :: NotRequired(names) in problems <==> titled && missing != {} && names == Listing(missing)
  {
    hide Listing;
  }

  /** The block of the gate has its title as a key line, the condition and the two texts of the evaluation. */
  ghost predicate GateText(block: string, title: string) {
    && Within(block, "    name: " + title + "\n") && Within(block, "    if: ${{ always()")
    && Within(block, "python3 tools/ci/gate.py") && Within(block, "NEEDS: ${{ toJSON(needs) }}")
  }

  predicate OutsideByName(job: string) {
    job == "gate" || job == "pilot-cold-rehearsal" || job == "artifact-probe" || job == "flake-summary"
  }

  /** What a sound gate is, in its texts and names. */
  lemma SoundExactly(text: string, title: string)
    ensures var block := JobBlock(text, "gate");
            GateSound(text, title) <==>
            GateText(block, title) && forall j :: j in JobsOf(text) ==> OutsideByName(j) || j in NeedsOf(block)
  {
    hide JobBlock, NeedsOf, JobsOf, Contains, Within, Covered, OutsideByName;
    GateTextExactly(JobBlock(text, GATE), title);
    hide GateText, Titled, Always, EvaluatesNeeds;
    forall j | j in JobsOf(text) ensures Covered(text, j) <==> OutsideByName(j) || j in NeedsOf(JobBlock(text, "gate")) {
      CoveredExactly(text, j);
    }
  }

  lemma CoveredExactly(text: string, j: string)
    ensures Covered(text, j) <==> OutsideByName(j) || j in NeedsOf(JobBlock(text, "gate"))
  {
    hide JobBlock, NeedsOf;
  }

  lemma GateTextExactly(block: string, title: string)
    ensures GateText(block, title) <==> Titled(block, title) && Always(block) && EvaluatesNeeds(block)
  {
    hide Contains, Within;
    ContainsExactly(block, "    name: " + title + "\n");
    ContainsExactly(block, "    if: ${{ always()");
    ContainsExactly(block, "python3 tools/ci/gate.py");
    ContainsExactly(block, "NEEDS: ${{ toJSON(needs) }}");
  }

  /** `check_gate` for a workflow whose gate is titled `title`. */
  method CheckGate(text: string, title: string) returns (problems: seq<Problem>)
    ensures problems == GateProblems(JobBlock(text, GATE), Required(text), title)
    ensures problems == [] <==> GateSound(text, title)
    ensures GateMissing in problems <==> !Titled(JobBlock(text, GATE), title)
    ensures forall names :: NotRequired(names) in problems ==>
      Sorted(names) && forall j :: j in names <==> j in JobsOf(text) && !Covered(text, j)
  {
    GateVerdict(text, title);
    var block := JobBlock(text, GATE);
    problems := Collect(Titled(block, title), Always(block), EvaluatesNeeds(block), Required(text) - NeedsOf(block));
  }

  method Collect(titled: bool, always: bool, evaluates: bool, missing: set<string>) returns (problems: seq<Problem>)
    ensures problems == Problems(titled, always, evaluates, missing)
  {
    problems := [];
    if !titled {
      problems := problems + [GateMissing];
      return;
    }
    if !always {
      problems := problems + [NotAlways];
    }
    if !evaluates {
      problems := problems + [NotEvaluating];
    }
    if missing != {} {
      problems := problems + [NotRequired(Listing(missing))];
    }
  }

  /** No problem means that no job escapes the gate. */
  lemma GateCovers(text: string, title: string)
    requires GateProblems(JobBlock(text, GATE), Required(text), title) == []
    ensures forall j :: j in JobsOf(text) ==> j in OUTSIDE_GATE || j in NeedsOf(JobBlock(text, GATE))
  {
    var missing := Required(text) - NeedsOf(JobBlock(text, GATE));
    assert missing == {};
    forall j | j in JobsOf(text) && j !in OUTSIDE_GATE ensures j in NeedsOf(JobBlock(text, GATE)) {
      assert j in Required(text) && j !in missing;
    }
  }

  // ----- job identifiers outside `[a-z0-9-]` -----

  /** Of a workflow with any job identifiers: the gate check never reports a job whose identifier the
      header does not match, and without problems it covers every job exactly when those are covered. */
  lemma CoverageExactly(before: string, jobs: seq<Job>, title: string)
    requires Preamble(before, jobs) && forall j :: j in jobs ==> ValidJob(j) || UnseenJob(j)
    ensures var text := before + Render(jobs);
            var problems := GateProblems(JobBlock(text, GATE), Required(text), title);
            && (forall names, j :: NotRequired(names) in problems && j in names ==> Name(j))
            && (problems == [] ==>
                 ((forall j :: j in jobs ==> Covered(text, j.name)) <==>
                  (forall j :: j in jobs && !Name(j.name) ==> Covered(text, j.name))))
  {
    hide JobBlock, JobsOf, Render, GateProblems, Covered, ValidJob, UnseenJob, Name, Sorted;
    var text := before + Render(jobs);
    SeenJobs(before, jobs);
    GateVerdict(text, title);
    SoundCovers(text, title);
  }

  lemma SoundCovers(text: string, title: string)
    ensures GateSound(text, title) ==> forall j :: j in JobsOf(text) ==> Covered(text, j)
  {
  }

  /** Adding a job with such an identifier behind any job but the gate changes no problem: nothing that
      it is not needed by the gate can be seen. */
  lemma UnseenJobChangesNothing(before: string, jobs: seq<Job>, g: nat, i: nat, unseen: Job, title: string)
    requires Preamble(before, jobs) && forall j :: j in jobs ==> ValidJob(j)
    requires forall a, b :: 0 <= a < b < |jobs| ==> jobs[a].name != jobs[b].name
    requires g < |jobs| && jobs[g].name == GATE && i < |jobs| && i != g && UnseenJob(unseen)
    ensures var text, more := before + Render(jobs), before + Render(jobs[..i + 1] + [unseen] + jobs[i + 1..]);
            GateProblems(JobBlock(more, GATE), Required(more), title) ==
            GateProblems(JobBlock(text, GATE), Required(text), title)
  {
    hide JobBlock, JobsOf, Render, GateProblems, ValidJob, UnseenJob, Preamble;
    var merged := jobs[i := Merged(jobs[i], unseen)];
    assert jobs[i] in jobs;
    MergedValid(jobs[i], unseen);
    MergedRender(jobs, i, unseen);
    forall j | j in merged ensures ValidJob(j) {
      assert j == Merged(jobs[i], unseen) || j in jobs;
    }
    MergedPreamble(before, jobs, i, unseen);
    SlicingRoundTrip(before, jobs, g);
    SlicingRoundTrip(before, merged, g);
    MergedNames(jobs, i, Merged(jobs[i], unseen));
  }

  lemma MergedPreamble(before: string, jobs: seq<Job>, i: nat, unseen: Job)
    requires i < |jobs| && Preamble(before, jobs)
    ensures Preamble(before, jobs[i := Merged(jobs[i], unseen)])
  {
    hide Headers, Find;
    forall j | j in jobs[i := Merged(jobs[i], unseen)] ensures j.name !in Headers(before, true) {
      assert j == Merged(jobs[i], unseen) || j in jobs;
      assert jobs[i] in jobs;
    }
  }

  lemma {:induction false} MergedNames(jobs: seq<Job>, i: nat, j: Job)
    requires i < |jobs| && j.name == jobs[i].name
    ensures Names(jobs[i := j]) == Names(jobs)
  {
    if i > 0 {
      assert jobs[i := j][1..] == jobs[1..][i - 1 := j];
      MergedNames(jobs[1..], i - 1, j);
    } else {
      assert jobs[0 := j][1..] == jobs[1..];
    }
  }
}
