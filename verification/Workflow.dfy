/** Reading a workflow file in `tools/ci/workflow_contract.py`: its jobs, their blocks, their
    needs, and the check that the gate requires every job. Regular expressions with `(?m)^` are
    functions of the rest of the text and of whether it starts a line. */
module Workflow {
  import opened Text

  const NL := '\n'

  // ----- jobs and blocks -----

  predicate NameChar(c: char) {
    'a' <= c <= 'z' || '0' <= c <= '9' || c == '-'
  }

  predicate Name(s: string) {
    s != [] && forall i :: 0 <= i < |s| ==> NameChar(s[i])
  }

  /** Length of the longest run of name characters at the start of `s`. */
  function NameLength(s: string): (n: nat)
    ensures n <= |s|
    ensures forall i :: 0 <= i < n ==> NameChar(s[i])
    ensures n < |s| ==> !NameChar(s[n])
  {
    if s != [] && NameChar(s[0]) then 1 + NameLength(s[1..]) else 0
  }

  /** The name matched by `^  ([a-z0-9-]+):\n` at the start of a line `s`. */
  function HeaderOf(s: string): (name: Option<string>)
    ensures name.Some? ==> Name(name.value)
  {
    if |s| >= 2 && s[0] == ' ' && s[1] == ' ' then
      var n := NameLength(s[2..]);
      if n > 0 && n + 4 <= |s| && s[n + 2] == ':' && s[n + 3] == NL then Some(s[2..n + 2]) else None
    else None
  }

  /** All header names; a header is one whole line, so matches never overlap. */
  function Headers(s: string, lineStart: bool): seq<string> {
    if s == [] then []
    else
      var here := if lineStart then HeaderOf(s) else None;
      (if here.Some? then [here.value] else []) + Headers(s[1..], s[0] == NL)
  }

  /** Distance to the next header line, or to the end. */
  function NextHeader(s: string, lineStart: bool): (n: nat)
    ensures n <= |s|
  {
    if s == [] || (lineStart && HeaderOf(s).Some?) then 0 else 1 + NextHeader(s[1..], s[0] == NL)
  }

  const JOBS: string := [NL] + "jobs:" + [NL]

  function JobsOf(text: string): seq<string> {
    var start := Find(text, JOBS);
    // without a jobs section the slice `text[-1:]` keeps the last character
    var body := if start.Some? then text[start.value..] else if text == [] then "" else text[|text| - 1..];
    Headers(body, true)
  }

  function HeaderLine(job: string): string { "  " + job + ":" + [NL] }

  function JobBlock(text: string, job: string): string {
    var marker := [NL] + HeaderLine(job);
    var start := Find(text, marker);
    if start.None? then ""
    else
      var rest := text[start.value + |marker|..];
      HeaderLine(job) + rest[..NextHeader(rest, true)]
  }

  // ----- a job list written as text -----

  datatype Job = Job(name: string, body: string)

  /** A body is whole lines without a header line. */
  predicate Lines(s: string) { s == [] || s[|s| - 1] == NL }

  predicate ValidJob(j: Job) {
    Name(j.name) && Lines(j.body) && Headers(j.body, true) == []
  }

  function Render(jobs: seq<Job>): string {
    if jobs == [] then "" else HeaderLine(jobs[0].name) + jobs[0].body + Render(jobs[1..])
  }

  function Names(jobs: seq<Job>): seq<string> {
    if jobs == [] then [] else [jobs[0].name] + Names(jobs[1..])
  }

  lemma NameLengthLocal(s: string, q: string)
    requires NameLength(s) < |s|
    ensures NameLength(s + q) == NameLength(s)
  {
    if NameChar(s[0]) {
      assert (s + q)[1..] == s[1..] + q;
      NameLengthLocal(s[1..], q);
    }
  }

  lemma NameThen(name: string, q: string)
    requires Name(name) && q != [] && !NameChar(q[0])
    ensures NameLength(name + q) == |name|
  {
    assert (name + q)[1..] == name[1..] + q && NameChar(name[0]);
    if |name| > 1 {
      NameThen(name[1..], q);
    } else {
      assert name[1..] + q == q;
    }
  }

  /** A header that starts in whole lines ends in them. */
  lemma HeaderLocal(s: string, q: string)
    requires s != [] && s[|s| - 1] == NL
    ensures HeaderOf(s + q) == HeaderOf(s)
  {
    var text := s + q;
    assert text[0] == s[0] && (|s| > 1 ==> text[1] == s[1]);
    if |s| >= 2 && s[0] == ' ' && s[1] == ' ' {
      assert |s| > 2;
      var t := s[2..];
      assert t[|t| - 1] == NL;
      NameLengthShort(t);
      NameLengthLocal(t, q);
      assert text[2..] == t + q;
      var n := NameLength(t);
      assert n + 4 <= |text| ==> text[n + 2] == s[n + 2] && (n + 4 <= |s| ==> text[n + 3] == s[n + 3]);
      assert text[2..n + 2] == s[2..n + 2];
    }
  }

  lemma NameLengthShort(t: string)
    requires t != [] && t[|t| - 1] == NL
    ensures NameLength(t) < |t|
  {
  }

  lemma HeaderOfLine(name: string, q: string)
    requires Name(name)
    ensures HeaderOf(HeaderLine(name) + q) == Some(name)
  {
    var s := HeaderLine(name) + q;
    var colon := ":" + [NL] + q;
    assert s[2..] == name + colon;
    NameThen(name, colon);
    assert s[2..|name| + 2] == name;
  }

  /** Headers of whole lines followed by more text. */
  lemma {:induction false} HeadersCat(s: string, lineStart: bool, q: string)
    requires if s == [] then lineStart else s[|s| - 1] == NL
    ensures Headers(s + q, lineStart) == Headers(s, lineStart) + Headers(q, true)
  {
    hide HeaderOf;
    if s == [] {
      assert s + q == q;
    } else {
      HeaderLocal(s, q);
      assert (s + q)[1..] == s[1..] + q;
      HeadersCat(s[1..], s[0] == NL, q);
    }
  }

  lemma {:induction false} NoHeaderInside(s: string)
    requires s != [] && Free(s[..|s| - 1], NL)
    ensures Headers(s, false) == []
  {
    if |s| > 1 {
      assert s[..|s| - 1][0] == s[0];
      assert s[1..][..|s| - 2] == s[..|s| - 1][1..];
      NoHeaderInside(s[1..]);
    }
  }

  lemma HeaderLineHeaders(name: string)
    requires Name(name)
    ensures Headers(HeaderLine(name), true) == [name]
  {
    var s := HeaderLine(name);
    HeaderOfLine(name, "");
    assert s + "" == s;
    forall i | 0 <= i < |s| - 1 ensures s[i] != NL {
      if 2 <= i < |name| + 2 { assert s[i] == name[i - 2]; }
    }
    NoHeaderInside(s[1..]);
  }

  lemma JobHeaders(j: Job, rest: string)
    requires ValidJob(j)
    ensures Headers(HeaderLine(j.name) + j.body + rest, true) == [j.name] + Headers(rest, true)
  {
    var head := HeaderLine(j.name);
    assert head + j.body + rest == head + (j.body + rest);
    HeadersCat(head, true, j.body + rest);
    HeaderLineHeaders(j.name);
    HeadersCat(j.body, true, rest);
  }

  lemma {:induction false} RenderHeaders(jobs: seq<Job>)
    requires forall j :: j in jobs ==> ValidJob(j)
    ensures Headers(Render(jobs), true) == Names(jobs)
  {
    if jobs != [] {
      assert jobs[0] in jobs;
      RenderHeaders(jobs[1..]);
      JobHeaders(jobs[0], Render(jobs[1..]));
    }
  }

  lemma {:induction false} RenderLines(jobs: seq<Job>)
    requires forall j :: j in jobs ==> ValidJob(j)
    ensures Lines(Render(jobs))
  {
    if jobs != [] {
      assert ValidJob(jobs[0]);
      RenderLines(jobs[1..]);
      LinesCat(jobs[0].body, Render(jobs[1..]));
      LinesCat(HeaderLine(jobs[0].name), jobs[0].body + Render(jobs[1..]));
      assert HeaderLine(jobs[0].name) + jobs[0].body + Render(jobs[1..]) ==
             HeaderLine(jobs[0].name) + (jobs[0].body + Render(jobs[1..]));
    }
  }

  lemma LinesCat(a: string, b: string)
    requires Lines(a) && Lines(b)
    ensures Lines(a + b)
  {
  }

  lemma {:induction false} FindLocal(s: string, q: string, pattern: string)
    requires Find(s, pattern).Some?
    ensures Find(s + q, pattern) == Find(s, pattern)
  {
    PrefixLocal(s, q, pattern);
    if !StartsWith(s, pattern) {
      FindLocal(s[1..], q, pattern);
      assert (s + q)[1..] == s[1..] + q;
    }
  }

  /** The marker does not occur where the next line is no header of that name. */
  lemma NoMarkerHere(t: string, name: string, q: string)
    requires Name(name) && t != [] && t[|t| - 1] == NL && HeaderOf(t) != Some(name)
    ensures !StartsWith([NL] + t + HeaderLine(name) + q, [NL] + HeaderLine(name))
  {
    var head := HeaderLine(name);
    HeaderLocal(t, head + q);
    forall tail | t + (head + q) == head + tail ensures false { HeaderOfLine(name, tail); }
    CutPrefix(t + (head + q), head);
    assert [NL] + t + head + q == [NL] + (t + (head + q));
  }

  lemma CutPrefix(s: string, head: string)
    ensures StartsWith([NL] + s, [NL] + head) ==> s == head + s[|head|..]
  {
    if StartsWith([NL] + s, [NL] + head) {
      assert forall i :: 0 <= i < |head| ==> s[i] == ([NL] + s)[i + 1] == ([NL] + head)[i + 1] == head[i];
    }
  }

  /** The marker of a job is found right where its header follows, if no earlier line has it. */
  lemma {:induction false} FindMarker(s: string, name: string, q: string)
    requires Name(name) && s != [] && s[|s| - 1] == NL && name !in multiset(Headers(s[1..], s[0] == NL))
    ensures Find(s + HeaderLine(name) + q, [NL] + HeaderLine(name)) == Some(|s| - 1)
  {
    hide *;
    var head := HeaderLine(name);
    if |s| == 1 {
      assert s == [NL];
      FindHere(s, head, q);
    } else {
      var t := s[1..];
      assert s == [s[0]] + t;
      FewerHeaders(t, s[0] == NL);
      FindMarker(t, name, q);
      if s[0] == NL {
        HeaderFirst(t);
        NoMarkerHere(t, name, q);
      }
      FindStep(s[0], t, head, q);
    }
  }

  lemma FindHere(s: string, head: string, q: string)
    requires s == [NL]
    ensures Find(s + head + q, [NL] + head) == Some(0)
  {
    assert s + head + q == ([NL] + head) + q;
  }

  lemma HeaderFirst(t: string)
    requires t != []
    ensures HeaderOf(t).Some? ==> HeaderOf(t).value in multiset(Headers(t, true))
  {
  }

  lemma {:induction false} FindStep(c: char, t: string, head: string, q: string)
    requires Find(t + head + q, [NL] + head).Some?
    requires c == NL ==> !StartsWith([NL] + t + head + q, [NL] + head)
    ensures Find([c] + t + head + q, [NL] + head) == Some(Find(t + head + q, [NL] + head).value + 1)
  {
    hide Find;
    var text := [c] + t + head + q;
    assert text[0] == c && text[1..] == t + head + q;
    assert c == NL ==> text == [NL] + t + head + q;
    assert c != NL ==> ([NL] + head)[0] != text[0];
    FindTail(text, [NL] + head);
  }

  lemma {:induction false} FindTail(s: string, pattern: string)
    requires s != [] && !StartsWith(s, pattern) && Find(s[1..], pattern).Some?
    ensures Find(s, pattern) == Some(Find(s[1..], pattern).value + 1)
  {
  }

  lemma FewerHeaders(t: string, lineStart: bool)
    requires t != []
    ensures multiset(Headers(t[1..], t[0] == NL)) <= multiset(Headers(t, lineStart))
  {
  }

  lemma {:induction false} NextHeaderAfter(body: string, lineStart: bool, q: string)
    requires if body == [] then lineStart else body[|body| - 1] == NL
    requires Headers(body, lineStart) == []
    requires q == [] || HeaderOf(q).Some?
    ensures NextHeader(body + q, lineStart) == |body|
  {
    if body == [] {
      assert body + q == q;
    } else {
      HeaderLocal(body, q);
      assert (body + q)[1..] == body[1..] + q;
      NextHeaderAfter(body[1..], body[0] == NL, q);
    }
  }

  lemma {:induction false} RenderSplit(jobs: seq<Job>, i: nat)
    requires i < |jobs|
    ensures Render(jobs) == Render(jobs[..i]) + (HeaderLine(jobs[i].name) + jobs[i].body + Render(jobs[i + 1..]))
    decreases i
  {
    if i > 0 {
      RenderSplit(jobs[1..], i - 1);
      assert jobs[..i] == [jobs[0]] + jobs[1..][..i - 1];
      assert jobs[..i][1..] == jobs[1..][..i - 1] && jobs[1..][i..] == jobs[i + 1..];
    } else {
      assert jobs[..0] == [];
    }
  }

  /** `before` is the text up to and including the line `jobs:`; no line of it looks like one of
      the jobs, and its last line is the first `jobs:` line. */
  predicate Preamble(before: string, jobs: seq<Job>) {
    |before| >= |JOBS| && Find(before, JOBS) == Some(|before| - |JOBS|) &&
    forall j :: j in jobs ==> j.name !in Headers(before, true)
  }

  // ----- job identifiers that the header does not match -----

  /** An identifier with a character outside `[a-z0-9-]`, such as a capital or an underscore. */
  predicate UnseenId(name: string) { !Name(name) && Free(name, ':') && Free(name, NL) }

  predicate UnseenJob(j: Job) { UnseenId(j.name) && Lines(j.body) && Headers(j.body, true) == [] }

  lemma {:induction false} NameLengthWithin(name: string, q: string)
    requires !Name(name) && q != [] && !NameChar(q[0])
    ensures NameLength(name + q) == 0 || NameLength(name + q) < |name|
  {
    if name == [] {
      assert name + q == q;
    } else if NameChar(name[0]) && |name| > 1 {
      assert (name + q)[1..] == name[1..] + q;
      NameLengthWithin(name[1..], q);
    }
  }

  lemma UnseenLine(name: string)
    requires UnseenId(name)
    ensures Headers(HeaderLine(name), true) == []
  {
    var s := HeaderLine(name);
    var colon := ":" + [NL];
    assert s[2..] == name + colon;
    NameLengthWithin(name, colon);
    var n := NameLength(s[2..]);
    assert n < |name| ==> s[n + 2] == name[n];
    assert HeaderOf(s).None?;
    forall i | 0 <= i < |s| - 1 ensures s[i] != NL {
      if 2 <= i < |name| + 2 { assert s[i] == name[i - 2]; }
    }
    NoHeaderInside(s[1..]);
  }

  lemma UnseenHeaders(j: Job, rest: string)
    requires UnseenJob(j)
    ensures Headers(HeaderLine(j.name) + j.body + rest, true) == Headers(rest, true)
  {
    hide Headers, UnseenId;
    var head := HeaderLine(j.name);
    assert head + j.body + rest == head + (j.body + rest);
    HeadersCat(head, true, j.body + rest);
    UnseenLine(j.name);
    HeadersCat(j.body, true, rest);
  }

  function SeenNames(jobs: seq<Job>): (names: seq<string>)
    ensures forall x :: x in names <==> Name(x) && exists j :: j in jobs && j.name == x
  {
    if jobs == [] then []
    else
      assert jobs == [jobs[0]] + jobs[1..];
      (if Name(jobs[0].name) then [jobs[0].name] else []) + SeenNames(jobs[1..])
  }

  lemma {:induction false} SeenHeaders(jobs: seq<Job>)
    requires forall j :: j in jobs ==> ValidJob(j) || UnseenJob(j)
    ensures Headers(Render(jobs), true) == SeenNames(jobs)
  {
    hide *;
    if jobs == [] {
      SeenNone();
    } else {
      assert jobs[0] in jobs;
      SeenHeaders(jobs[1..]);
      SeenCons(jobs);
      if ValidJob(jobs[0]) {
        JobHeaders(jobs[0], Render(jobs[1..]));
      } else {
        UnseenHeaders(jobs[0], Render(jobs[1..]));
      }
    }
  }

  lemma SeenNone()
    ensures Headers(Render([]), true) == SeenNames([])
  {
  }

  lemma SeenCons(jobs: seq<Job>)
    requires jobs != []
    ensures Render(jobs) == HeaderLine(jobs[0].name) + jobs[0].body + Render(jobs[1..])
    ensures ValidJob(jobs[0]) ==> SeenNames(jobs) == [jobs[0].name] + SeenNames(jobs[1..])
    ensures UnseenJob(jobs[0]) ==> SeenNames(jobs) == SeenNames(jobs[1..])
  {
    hide Headers, HeaderLine;
  }

  lemma NoHeaders()
    ensures Headers("", true) == []
  {
  }

  /** Of a workflow with any job identifiers, exactly the jobs that the header matches are listed. */
  lemma SeenJobs(before: string, jobs: seq<Job>)
    requires Preamble(before, jobs) && forall j :: j in jobs ==> ValidJob(j) || UnseenJob(j)
    ensures JobsOf(before + Render(jobs)) == SeenNames(jobs)
  {
    hide Headers, SeenNames, Render, ValidJob, UnseenJob, HeaderOf;
    var text := before + Render(jobs);
    var start := |before| - |JOBS|;
    FindLocal(before, Render(jobs), JOBS);
    JobsLineLast(before, Render(jobs), start, JOBS);
    JobsLineHeaders(Render(jobs));
    SeenHeaders(jobs);
  }

  /** An unseen job right behind job `i` reads as a part of that job. */
  function Merged(j: Job, unseen: Job): Job { Job(j.name, j.body + (HeaderLine(unseen.name) + unseen.body)) }

  lemma MergedValid(j: Job, unseen: Job)
    requires ValidJob(j) && UnseenJob(unseen)
    ensures ValidJob(Merged(j, unseen))
  {
    hide Headers, UnseenId;
    var more := HeaderLine(unseen.name) + unseen.body;
    UnseenHeaders(unseen, "");
    assert more + "" == more;
    NoHeaders();
    HeadersCat(j.body, true, more);
  }

  lemma MergedRender(jobs: seq<Job>, i: nat, unseen: Job)
    requires i < |jobs|
    ensures Render(jobs[..i + 1] + [unseen] + jobs[i + 1..]) == Render(jobs[i := Merged(jobs[i], unseen)])
  {
    hide Render, HeaderLine;
    var all, merged := jobs[..i + 1] + [unseen] + jobs[i + 1..], jobs[i := Merged(jobs[i], unseen)];
    RenderSplit(all, i);
    RenderSplit(merged, i);
    assert all[..i] == merged[..i] == jobs[..i] && merged[i + 1..] == jobs[i + 1..];
    assert all[i + 1..] == [unseen] + jobs[i + 1..];
    RenderSplit([unseen] + jobs[i + 1..], 0);
    assert ([unseen] + jobs[i + 1..])[..0] == [] && ([unseen] + jobs[i + 1..])[1..] == jobs[i + 1..];
    RenderNone();
    MergedText(HeaderLine(jobs[i].name), jobs[i].body, HeaderLine(unseen.name), unseen.body, Render(jobs[i + 1..]));
  }

  lemma RenderNone()
    ensures Render([]) == ""
  {
  }

  lemma MergedText(a: string, b: string, c: string, d: string, e: string)
    ensures a + b + ("" + (c + d + e)) == a + (b + (c + d)) + e
  {
  }

  /** Slicing undoes writing: for every list of distinct jobs with header-free bodies, the names are
      read back in order and every block is exactly the text of its job. */
  lemma SlicingRoundTrip(before: string, jobs: seq<Job>, i: nat)
    requires i < |jobs| && Preamble(before, jobs) && forall j :: j in jobs ==> ValidJob(j)
    requires forall a, b :: 0 <= a < b < |jobs| ==> jobs[a].name != jobs[b].name
    ensures JobsOf(before + Render(jobs)) == Names(jobs)
    ensures JobBlock(before + Render(jobs), jobs[i].name) == HeaderLine(jobs[i].name) + jobs[i].body
  {
    RoundTripNames(before, jobs);
    RoundTripBlock(before, jobs, i);
  }

  lemma JobsLineHeaders(q: string)
    ensures Headers(JOBS + q, true) == Headers(q, true)
  {
    HeadersCat(JOBS, true, q);
    assert JOBS[1..] == "jobs:" + [NL] && JOBS[2..] == "obs:" + [NL];
    NoHeaderInside(JOBS[2..]);
    assert JOBS[1..][1..] == JOBS[2..] && HeaderOf(JOBS).None? && HeaderOf(JOBS[1..]).None?;
    assert Headers(JOBS[1..], true) == Headers(JOBS[2..], false);
  }

  lemma JobsLineLast(before: string, q: string, start: nat, last: string)
    requires start <= |before| && before[start..] == last
    ensures (before + q)[start..] == last + q
  {
  }

  lemma RoundTripNames(before: string, jobs: seq<Job>)
    requires Preamble(before, jobs) && forall j :: j in jobs ==> ValidJob(j)
    ensures JobsOf(before + Render(jobs)) == Names(jobs)
  {
    hide Headers, Names, Render, ValidJob, HeaderOf;
    var text := before + Render(jobs);
    var start := |before| - |JOBS|;
    FindLocal(before, Render(jobs), JOBS);
    JobsLineLast(before, Render(jobs), start, JOBS);
    JobsLineHeaders(Render(jobs));
    RenderHeaders(jobs);
  }

  lemma JobBlockAt(text: string, front: string, job: string, rest: string)
    requires text == front + ([NL] + HeaderLine(job)) + rest
    requires Find(text, [NL] + HeaderLine(job)) == Some(|front|)
    ensures JobBlock(text, job) == HeaderLine(job) + rest[..NextHeader(rest, true)]
  {
    var marker := [NL] + HeaderLine(job);
    assert text[|front| + |marker|..] == rest;
  }

  lemma MarkerAtEnd(s: string, head: string, rest: string)
    requires s != [] && s[|s| - 1] == NL
    ensures s + head + rest == s[..|s| - 1] + ([NL] + head) + rest
  {
    assert s == s[..|s| - 1] + [NL];
  }

  /** Finding one job between the text before it and the text after it. */
  lemma BlockBetween(s: string, j: Job, later: string)
    requires ValidJob(j) && BeforeHeader(s, j.name)
    requires later == [] || HeaderOf(later).Some?
    ensures JobBlock(s + HeaderLine(j.name) + (j.body + later), j.name) == HeaderLine(j.name) + j.body
  {
    var head, rest := HeaderLine(j.name), j.body + later;
    var front := s[..|s| - 1];
    MarkerAtEnd(s, head, rest);
    FewerHeaders(s, true);
    FindMarker(s, j.name, rest);
    JobBlockAt(s + head + rest, front, j.name, rest);
    NextHeaderAfter(j.body, true, later);
    assert rest[..|j.body|] == j.body;
  }

  lemma RoundTripBlock(before: string, jobs: seq<Job>, i: nat)
    requires i < |jobs| && Preamble(before, jobs) && forall j :: j in jobs ==> ValidJob(j)
    requires forall a, b :: 0 <= a < b < |jobs| ==> jobs[a].name != jobs[b].name
    ensures JobBlock(before + Render(jobs), jobs[i].name) == HeaderLine(jobs[i].name) + jobs[i].body
  {
    var j, earlier, later := jobs[i], Render(jobs[..i]), Render(jobs[i + 1..]);
    assert ValidJob(j) by { assert j in jobs; }
    assert BeforeHeader(before + earlier, j.name) by { BeforeJob(before, jobs, i); }
    assert later == [] || HeaderOf(later).Some? by {
      forall x | x in jobs[i + 1..] ensures ValidJob(x) { assert x in jobs; }
      LaterHeader(jobs[i + 1..]);
    }
    assert Render(jobs) == earlier + (HeaderLine(j.name) + j.body + later) by { RenderSplit(jobs, i); }
    BlockInside(before, earlier, j, later, Render(jobs));
  }

  /** `s` is whole lines without a header line of that name. */
  predicate BeforeHeader(s: string, name: string) {
    s != [] && s[|s| - 1] == NL && name !in multiset(Headers(s, true))
  }

  lemma BlockInside(before: string, earlier: string, j: Job, later: string, all: string)
    requires all == earlier + (HeaderLine(j.name) + j.body + later)
    requires ValidJob(j) && BeforeHeader(before + earlier, j.name)
    requires later == [] || HeaderOf(later).Some?
    ensures JobBlock(before + all, j.name) == HeaderLine(j.name) + j.body
  {
    Regroup(before, earlier, HeaderLine(j.name), j.body, later);
    BlockBetween(before + earlier, j, later);
  }

  lemma Regroup(a: string, b: string, c: string, d: string, e: string)
    ensures a + (b + (c + d + e)) == a + b + c + (d + e)
  {
  }

  lemma {:induction false} LaterHeader(later: seq<Job>)
    requires forall j :: j in later ==> ValidJob(j)
    ensures Render(later) == [] || HeaderOf(Render(later)).Some?
  {
    if later != [] {
      hide Headers, HeaderOf, NameLength, HeaderLine;
      assert later[0] in later;
      var q := later[0].body + Render(later[1..]);
      assert Render(later) == HeaderLine(later[0].name) + q;
      HeaderOfLine(later[0].name, q);
    }
  }

  lemma BeforeJob(before: string, jobs: seq<Job>, i: nat)
    requires i < |jobs| && Preamble(before, jobs) && forall j :: j in jobs ==> ValidJob(j)
    requires forall a, b :: 0 <= a < b < |jobs| ==> jobs[a].name != jobs[b].name
    ensures BeforeHeader(before + Render(jobs[..i]), jobs[i].name)
  {
    forall j | j in jobs[..i] ensures ValidJob(j) && j.name != jobs[i].name {
      assert j in jobs;
    }
    assert jobs[i] in jobs;
    LinesBefore(before, jobs[..i], jobs[i].name);
  }

  lemma LinesBefore(before: string, earlier: seq<Job>, name: string)
    requires |before| >= |JOBS| && Find(before, JOBS) == Some(|before| - |JOBS|) && name !in Headers(before, true)
    requires forall j :: j in earlier ==> ValidJob(j) && j.name != name
    ensures BeforeHeader(before + Render(earlier), name)
  {
    hide Headers, HeaderOf, Names, Render, Find, ValidJob;
    RenderHeaders(earlier);
    RenderLines(earlier);
    LastLine(before);
    HeadersCat(before, true, Render(earlier));
    NamesOf(earlier);
    assert name !in Names(earlier);
    NotInCat(name, Headers(before, true), Names(earlier));
  }

  lemma NotInCat(x: string, a: seq<string>, b: seq<string>)
    requires x !in a && x !in b
    ensures x !in multiset(a + b)
  {
  }

  lemma LastLine(before: string)
    requires |before| >= |JOBS| && Find(before, JOBS) == Some(|before| - |JOBS|)
    ensures before[|before| - 1] == NL
  {
    SuffixEnd(before, JOBS);
  }

  lemma SuffixEnd(s: string, pattern: string)
    requires pattern != [] && |pattern| <= |s| && pattern <= s[|s| - |pattern|..]
    ensures s[|s| - 1] == pattern[|pattern| - 1]
  {
  }

  lemma NamesOf(jobs: seq<Job>)
    ensures forall x :: x in Names(jobs) ==> exists j :: j in jobs && j.name == x
  {
    if jobs != [] {
      NamesOf(jobs[1..]);
      assert jobs[0] in jobs;
    }
  }
}
