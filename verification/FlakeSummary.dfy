/** The nightly flake summary of `tools/ci/flake_summary.py`: reading all pages of a job list, and
    counting per job over mutable records. */
module FlakeSummary {

  // ----- pagination -----

  const PER_PAGE := 100

  function Min(a: nat, b: nat): nat { if a < b then a else b }

  /** Page `p` (from 1) of a list, as the server cuts it. */
  function Page<T>(list: seq<T>, p: nat): seq<T>
    requires p >= 1
  {
    list[Min(PER_PAGE * (p - 1), |list|)..Min(PER_PAGE * p, |list|)]
  }

  /** `jobs_of_attempt`: the whole list, whatever its length. */
  method JobsOfAttempt<T>(list: seq<T>) returns (jobs: seq<T>)
    ensures jobs == list
  {
    jobs := [];
    var page := 1;
    while true
      invariant page >= 1 && PER_PAGE * (page - 1) <= |list| && jobs == list[..PER_PAGE * (page - 1)]
      decreases |list| + PER_PAGE - PER_PAGE * page
    {
      var batch := Page(list, page);
      jobs := jobs + batch;
      if |batch| < PER_PAGE {
        return jobs;
      }
      page := page + 1;
    }
  }

  // ----- jobs and counts -----

  const FAILED: set<string> := {"failure", "timed_out", "startup_failure"}
  const IGNORED: set<string> := {"skipped", "cancelled"}

  predicate Failed(c: string) { c in FAILED }

  predicate Ignored(c: string) { c in IGNORED }

  /** A missing name is "?", a missing conclusion or link is empty. */
  datatype Job = Job(name: string, conclusion: string, url: string)

  /** The jobs of every attempt of one run, oldest attempt first. */
  type Run = seq<seq<Job>>

  datatype Stats = Stats(runs: nat, finalFailures: nat, rerunFailures: nat, links: seq<string>)

  const ZERO := Stats(0, 0, 0, [])

  class JobStats {
    var runs: nat
    var finalFailures: nat
    var rerunFailures: nat
    var links: seq<string>

    constructor ()
      ensures Value() == ZERO
    {
      runs, finalFailures, rerunFailures, links := 0, 0, 0, [];
    }

    function Value(): Stats
      reads this
    {
      Stats(runs, finalFailures, rerunFailures, links)
    }

    method CountRun()
      modifies this
      ensures Value() == old(Value()).(runs := old(runs) + 1)
    {
      runs := runs + 1;
    }

    method CountFailure(final: bool, url: string)
      modifies this
      ensures Value() == WithFailure(old(Value()), final, url)
    {
      if final {
        finalFailures := finalFailures + 1;
      } else {
        rerunFailures := rerunFailures + 1;
      }
      links := links + [url];
    }

    /** Everything one entry that is not ignored adds; `first` when its run had none before. */
    method CountJob(first: bool, job: Job, final: bool)
      modifies this
      ensures Value() == Updated(old(Value()), !first, job, final)
    {
      if first {
        CountRun();
      }
      if Failed(job.conclusion) {
        CountFailure(final, job.url);
      }
    }
  }

  function WithFailure(s: Stats, final: bool, url: string): Stats {
    if final then s.(finalFailures := s.finalFailures + 1, links := s.links + [url])
    else s.(rerunFailures := s.rerunFailures + 1, links := s.links + [url])
  }

  // ----- what one entry does to the counts -----

  function At(m: map<string, Stats>, name: string): Stats { if name in m then m[name] else ZERO }

  function CountedOnce(s: Stats, seen: bool): Stats { if seen then s else s.(runs := s.runs + 1) }

  function Updated(s: Stats, seen: bool, job: Job, final: bool): Stats {
    var t := CountedOnce(s, seen);
    if Failed(job.conclusion) then WithFailure(t, final, job.url) else t
  }

  function Entry(m: map<string, Stats>, seen: set<string>, job: Job, final: bool): map<string, Stats> {
    if Ignored(job.conclusion) then m
    else m[job.name := Updated(At(m, job.name), job.name in seen, job, final)]
  }

  function Seen(seen: set<string>, job: Job): set<string> {
    if Ignored(job.conclusion) then seen else seen + {job.name}
  }

  /** All entries of one attempt, in order. */
  function Entries(m: map<string, Stats>, seen: set<string>, jobs: seq<Job>, final: bool): (map<string, Stats>, set<string>) {
    if jobs == [] then (m, seen)
    else
      var before := Entries(m, seen, jobs[..|jobs| - 1], final);
      (Entry(before.0, before.1, jobs[|jobs| - 1], final), Seen(before.1, jobs[|jobs| - 1]))
  }

  /** The attempts of a run from the newest down to number `k`. */
  function Attempts(m: map<string, Stats>, run: Run, k: nat): (map<string, Stats>, set<string>)
    requires k <= |run|
    decreases |run| - k
  {
    if k == |run| then (m, {})
    else
      var newer := Attempts(m, run, k + 1);
      Entries(newer.0, newer.1, run[k], k == |run| - 1)
  }

  function Tallied(runs: seq<Run>): map<string, Stats> {
    if runs == [] then map[] else Attempts(Tallied(runs[..|runs| - 1]), runs[|runs| - 1], 0).0
  }

  function Reruns(runs: seq<Run>): nat {
    if runs == [] then 0 else Reruns(runs[..|runs| - 1]) + if |runs[|runs| - 1]| > 1 then 1 else 0
  }

  // ----- the loops over mutable records -----

  /** Every name has a record of its own. */
  ghost predicate Separate(stats: map<string, JobStats>) {
    forall a, b :: a in stats && b in stats && a != b ==> stats[a] != stats[b]
  }

  function Values(stats: map<string, JobStats>): map<string, Stats>
    reads stats.Values
  {
    map n | n in stats :: stats[n].Value()
  }

  /** `stats[name]` of a `defaultdict`: a missing record is made and kept. */
  method Record(stats: map<string, JobStats>, name: string) returns (stats': map<string, JobStats>)
    requires Separate(stats)
    ensures Separate(stats') && stats.Values <= stats'.Values && fresh(stats'.Values - stats.Values)
    ensures name in stats'
    ensures Values(stats') == Values(stats)[name := At(Values(stats), name)]
  {
    stats' := stats;
    if name !in stats {
      var made := new JobStats();
      stats' := stats[name := made];
      assert forall n :: n in stats ==> n in stats' && stats'[n] == stats[n];
      assert stats'.Values <= stats.Values + {made};
    }
  }

  /** The counts of one entry, on the record of its name only. */
  method Count(stats: map<string, JobStats>, first: bool, job: Job, final: bool)
    requires Separate(stats) && job.name in stats
    modifies stats[job.name]
    ensures Values(stats) == old(Values(stats))[job.name := Updated(old(stats[job.name].Value()), !first, job, final)]
  {
    hide Updated;
    ghost var before := Values(stats);
    stats[job.name].CountJob(first, job, final);
    assert forall n :: n in stats && n != job.name ==> stats[n].Value() == before[n];
  }

  /** One entry of an attempt. */
  method CountEntry(stats: map<string, JobStats>, seen: set<string>, job: Job, final: bool)
    returns (stats': map<string, JobStats>, seen': set<string>)
    requires Separate(stats)
    modifies stats.Values
    ensures Separate(stats') && stats.Values <= stats'.Values && fresh(stats'.Values - stats.Values)
    ensures Values(stats') == Entry(old(Values(stats)), seen, job, final)
    ensures seen' == Seen(seen, job)
  {
    stats', seen' := stats, seen;
    if Ignored(job.conclusion) {
      return;
    }
    hide Updated;
    ghost var before := Values(stats);
    stats' := Record(stats, job.name);
    ghost var made := Values(stats');
    assert made[job.name] == At(before, job.name);
    seen' := seen + {job.name};
    Count(stats', job.name !in seen, job, final);
    Overwritten(before, job.name, At(before, job.name), Updated(At(before, job.name), job.name in seen, job, final));
  }

  lemma Overwritten(m: map<string, Stats>, name: string, a: Stats, b: Stats)
    ensures m[name := a][name := b] == m[name := b]
  {
  }

  method CountAttempt(stats: map<string, JobStats>, seen: set<string>, jobs: seq<Job>, final: bool)
    returns (stats': map<string, JobStats>, seen': set<string>)
    requires Separate(stats)
    modifies stats.Values
    ensures Separate(stats') && stats.Values <= stats'.Values && fresh(stats'.Values - stats.Values)
    ensures (Values(stats'), seen') == Entries(old(Values(stats)), seen, jobs, final)
  {
    stats', seen' := stats, seen;
    for i := 0 to |jobs|
      invariant Separate(stats') && stats.Values <= stats'.Values && fresh(stats'.Values - stats.Values)
      invariant (Values(stats'), seen') == Entries(old(Values(stats)), seen, jobs[..i], final)
    {
      assert jobs[..i + 1][..i] == jobs[..i];
      stats', seen' := CountEntry(stats', seen', jobs[i], final);
    }
    assert jobs[..|jobs|] == jobs;
  }

  /** `tally` */
  method Tally(runs: seq<Run>) returns (stats: map<string, JobStats>, total: nat, reruns: nat)
    ensures fresh(stats.Values) && Separate(stats)
    ensures Values(stats) == Tallied(runs) && total == |runs| && reruns == Reruns(runs)
  {
    stats, total, reruns := map[], |runs|, 0;
    for r := 0 to |runs|
      invariant fresh(stats.Values) && Separate(stats)
      invariant Values(stats) == Tallied(runs[..r]) && reruns == Reruns(runs[..r])
    {
      assert runs[..r + 1][..r] == runs[..r];
      var attempts := runs[r];
      if |attempts| > 1 {
        reruns := reruns + 1;
      }
      var seen: set<string> := {};
      var index := |attempts|;
      ghost var before := Values(stats);
      while index > 0
        invariant 0 <= index <= |attempts|
        invariant fresh(stats.Values) && Separate(stats)
        invariant (Values(stats), seen) == Attempts(before, attempts, index)
      {
        index := index - 1;
        stats, seen := CountAttempt(stats, seen, attempts[index], index == |attempts| - 1);
      }
    }
    assert runs[..|runs|] == runs;
  }

  // ----- counting by definition -----

  predicate Relevant(j: Job, name: string) {
    j.name == name && j.conclusion != "skipped" && j.conclusion != "cancelled"
  }

  predicate Fails(j: Job, name: string) {
    j.name == name && (j.conclusion == "failure" || j.conclusion == "timed_out" || j.conclusion == "startup_failure")
  }

  predicate Present(jobs: seq<Job>, name: string) {
    exists i :: 0 <= i < |jobs| && Relevant(jobs[i], name)
  }

  /** Links of the failing entries of one list, in order. */
  function Links(jobs: seq<Job>, name: string): seq<string> {
    if jobs == [] then []
    else Links(jobs[..|jobs| - 1], name) + if Fails(jobs[|jobs| - 1], name) then [jobs[|jobs| - 1].url] else []
  }

  /** Links of a run from its newest attempt down to attempt `k`. */
  function NewestFirst(run: Run, name: string, k: nat): seq<string>
    requires k <= |run|
    decreases |run| - k
  {
    if k == |run| then [] else NewestFirst(run, name, k + 1) + Links(run[k], name)
  }

  predicate PresentFrom(run: Run, name: string, k: nat) {
    exists j :: k <= j < |run| && Present(run[j], name)
  }

  function AllLinks(runs: seq<Run>, name: string): seq<string> {
    if runs == [] then [] else AllLinks(runs[..|runs| - 1], name) + NewestFirst(runs[|runs| - 1], name, 0)
  }

  function RunsWith(runs: seq<Run>, name: string): nat {
    if runs == [] then 0 else RunsWith(runs[..|runs| - 1], name) + if PresentFrom(runs[|runs| - 1], name, 0) then 1 else 0
  }

  /** Failing entries in the last attempt of each run. */
  function LastFailures(runs: seq<Run>, name: string): nat {
    if runs == [] then 0
    else
      var run := runs[|runs| - 1];
      LastFailures(runs[..|runs| - 1], name) + if run == [] then 0 else |Links(run[|run| - 1], name)|
  }

  /** All entries of all runs in the order of the input. */
  function AllEntries(runs: seq<Run>): seq<Job> {
    if runs == [] then [] else AllEntries(runs[..|runs| - 1]) + RunEntries(runs[|runs| - 1])
  }

  function RunEntries(run: Run): seq<Job> {
    if run == [] then [] else RunEntries(run[..|run| - 1]) + run[|run| - 1]
  }

  // ----- the tally is these counts -----

  /** One entry, on the record of any name. */
  lemma EntryCount(m: map<string, Stats>, seen: set<string>, job: Job, final: bool, name: string)
    ensures var s, t := At(m, name), At(Entry(m, seen, job, final), name);
            var fails: nat := if Fails(job, name) then 1 else 0;
            && (name in Seen(seen, job) <==> name in seen || Relevant(job, name))
            && (name in Entry(m, seen, job, final) <==> name in m || Relevant(job, name))
            && t.runs == s.runs + (if name !in seen && Relevant(job, name) then 1 else 0)
            && t.finalFailures == s.finalFailures + (if final then fails else 0)
            && t.rerunFailures == s.rerunFailures + (if final then 0 else fails)
            && t.links == s.links + if Fails(job, name) then [job.url] else []
  {
    FailedNotIgnored(job.conclusion);
    ByDefinition(job, name);
    hide Failed, Ignored, Fails, Relevant;
  }

  lemma {:induction false} EntriesCount(m: map<string, Stats>, seen: set<string>, jobs: seq<Job>, final: bool, name: string)
    ensures var r := Entries(m, seen, jobs, final);
            var s, t := At(m, name), At(r.0, name);
            && (name in r.1 <==> name in seen || Present(jobs, name))
            && (name in r.0 <==> name in m || Present(jobs, name))
            && t.runs == s.runs + (if name !in seen && Present(jobs, name) then 1 else 0)
            && t.finalFailures == s.finalFailures + (if final then |Links(jobs, name)| else 0)
            && t.rerunFailures == s.rerunFailures + (if final then 0 else |Links(jobs, name)|)
            && t.links == s.links + Links(jobs, name)
  {
    if jobs == [] {
      assert !Present(jobs, name);
    } else {
      hide Entry, Seen, At, Present, Relevant, Fails;
      var init, job := jobs[..|jobs| - 1], jobs[|jobs| - 1];
      EntriesCount(m, seen, init, final, name);
      var before := Entries(m, seen, init, final);
      EntryCount(before.0, before.1, job, final, name);
      PresentSnoc(init, job, name);
      assert init + [job] == jobs;
    }
  }

  lemma FailedNotIgnored(c: string)
    ensures Failed(c) ==> !Ignored(c)
  {
    assert "failure"[0] == 'f' && "timed_out"[0] == 't' && "startup_failure"[1] == 't';
    assert "skipped"[0] == 's' && "skipped"[1] == 'k' && "cancelled"[0] == 'c';
  }

  lemma ByDefinition(job: Job, name: string)
    ensures Relevant(job, name) <==> job.name == name && !Ignored(job.conclusion)
    ensures Fails(job, name) <==> job.name == name && Failed(job.conclusion)
  {
  }

  lemma PresentSnoc(init: seq<Job>, job: Job, name: string)
    ensures Present(init + [job], name) <==> Present(init, name) || Relevant(job, name)
  {
    var jobs := init + [job];
    assert jobs[|init|] == job;
    if i :| 0 <= i < |init| && Relevant(init[i], name) {
      assert jobs[i] == init[i];
    }
    if i :| 0 <= i < |jobs| && Relevant(jobs[i], name) {
      assert i < |init| ==> init[i] == jobs[i];
    }
  }

  lemma {:induction false} AttemptsCount(m: map<string, Stats>, run: Run, k: nat, name: string)
    requires k <= |run|
    ensures var r := Attempts(m, run, k);
            var s, t := At(m, name), At(r.0, name);
            && (name in r.1 <==> PresentFrom(run, name, k))
            && (name in r.0 <==> name in m || PresentFrom(run, name, k))
            && t.runs == s.runs + (if PresentFrom(run, name, k) then 1 else 0)
            && t.finalFailures == s.finalFailures + (if k < |run| then |Links(run[|run| - 1], name)| else 0)
            && t.finalFailures + t.rerunFailures == s.finalFailures + s.rerunFailures + |NewestFirst(run, name, k)|
            && t.links == s.links + NewestFirst(run, name, k)
    decreases |run| - k
  {
    hide Entries, Present, Links;
    if k < |run| {
      AttemptsCount(m, run, k + 1, name);
      var newer := Attempts(m, run, k + 1);
      EntriesCount(newer.0, newer.1, run[k], k == |run| - 1, name);
      assert PresentFrom(run, name, k) <==> Present(run[k], name) || PresentFrom(run, name, k + 1);
    }
  }

  /** Every count of the tally is the count by definition, and the links go newest attempt first
      within a run. */
  lemma {:induction false} TallyCounts(runs: seq<Run>, name: string)
    ensures var s := At(Tallied(runs), name);
            && (name in Tallied(runs) <==> RunsWith(runs, name) > 0)
            && s.runs == RunsWith(runs, name)
            && s.finalFailures == LastFailures(runs, name)
            && s.finalFailures + s.rerunFailures == |AllLinks(runs, name)|
            && s.links == AllLinks(runs, name)
  {
    hide Attempts, NewestFirst, PresentFrom, Links;
    if runs != [] {
      var init, run := runs[..|runs| - 1], runs[|runs| - 1];
      TallyCounts(init, name);
      AttemptsCount(Tallied(init), run, 0, name);
    }
  }

  /** The runs with more than one attempt. */
  function Repeated(runs: seq<Run>): set<nat> { set r: nat | r < |runs| && |runs[r]| >= 2 }

  /** `reruns` is the number of runs with more than one attempt. */
  lemma {:induction false} RerunsCounted(runs: seq<Run>)
    ensures Reruns(runs) == |Repeated(runs)|
  {
    if runs != [] {
      var n := |runs| - 1;
      RerunsCounted(runs[..n]);
      assert Repeated(runs) == Repeated(runs[..n]) + if |runs[n]| > 1 then {n} else {};
    }
  }

  // ----- the first link -----

  predicate NoFailure(jobs: seq<Job>, name: string) { forall i :: 0 <= i < |jobs| ==> !Fails(jobs[i], name) }

  predicate NoFailureIn(run: Run, name: string) { forall a :: 0 <= a < |run| ==> NoFailure(run[a], name) }

  lemma {:induction false} NoLinks(jobs: seq<Job>, name: string)
    requires NoFailure(jobs, name)
    ensures Links(jobs, name) == []
  {
    hide Fails;
    if jobs != [] {
      NoLinks(jobs[..|jobs| - 1], name);
    }
  }

  lemma {:induction false} FirstOfList(jobs: seq<Job>, name: string, i: nat)
    requires i < |jobs| && Fails(jobs[i], name) && NoFailure(jobs[..i], name)
    ensures [jobs[i].url] <= Links(jobs, name)
    decreases |jobs|
  {
    hide Fails;
    var n := |jobs| - 1;
    if i < n {
      assert jobs[..n][..i] == jobs[..i];
      FirstOfList(jobs[..n], name, i);
    } else {
      NoLinks(jobs[..n], name);
    }
  }

  lemma {:induction false} NoLinksFrom(run: Run, name: string, k: nat)
    requires k <= |run| && forall a :: k <= a < |run| ==> NoFailure(run[a], name)
    ensures NewestFirst(run, name, k) == []
    decreases |run| - k
  {
    hide NoFailure;
    if k < |run| {
      NoLinksFrom(run, name, k + 1);
      NoLinks(run[k], name);
    }
  }

  lemma {:induction false} FirstOfRun(run: Run, name: string, a: nat, k: nat)
    requires k <= a < |run| && forall b :: a < b < |run| ==> NoFailure(run[b], name)
    ensures Links(run[a], name) <= NewestFirst(run, name, k)
    decreases |run| - k
  {
    hide NoFailure, Links;
    if k < a {
      FirstOfRun(run, name, a, k + 1);
    } else {
      NoLinksFrom(run, name, a + 1);
    }
  }

  lemma {:induction false} NoLinksAtAll(runs: seq<Run>, name: string)
    requires forall r :: 0 <= r < |runs| ==> NoFailureIn(runs[r], name)
    ensures AllLinks(runs, name) == []
  {
    hide NoFailure;
    if runs != [] {
      var n := |runs| - 1;
      NoLinksAtAll(runs[..n], name);
      assert NoFailureIn(runs[n], name);
      NoLinksFrom(runs[n], name, 0);
    }
  }

  lemma {:induction false} FirstOfAll(runs: seq<Run>, name: string, r: nat)
    requires r < |runs| && forall q :: 0 <= q < r ==> NoFailureIn(runs[q], name)
    ensures NewestFirst(runs[r], name, 0) <= AllLinks(runs, name)
    decreases |runs|
  {
    hide NoFailureIn, NewestFirst;
    var n := |runs| - 1;
    if r < n {
      FirstOfAll(runs[..n], name, r);
    } else {
      NoLinksAtAll(runs[..n], name);
    }
  }

  /** The first link is the latest failure: in the first run of the list that has one, in the newest of
      its attempts that has one, the first failing entry. */
  lemma FirstLinkIsLatest(runs: seq<Run>, name: string, r: nat, a: nat, i: nat)
    requires r < |runs| && a < |runs[r]| && i < |runs[r][a]| && Fails(runs[r][a][i], name)
    requires forall q :: 0 <= q < r ==> NoFailureIn(runs[q], name)
    requires forall b :: a < b < |runs[r]| ==> NoFailure(runs[r][b], name)
    requires NoFailure(runs[r][a][..i], name)
    ensures var links := At(Tallied(runs), name).links; links != [] && links[0] == runs[r][a][i].url
  {
    hide Fails, NoFailure, NoFailureIn, Links, NewestFirst, AllLinks, Tallied;
    FirstOfList(runs[r][a], name, i);
    FirstOfRun(runs[r], name, a, 0);
    FirstOfAll(runs, name, r);
    TallyCounts(runs, name);
  }

  lemma {:induction false} LinksCat(a: seq<Job>, b: seq<Job>, name: string)
    ensures Links(a + b, name) == Links(a, name) + Links(b, name)
    decreases |b|
  {
    if b == [] {
      assert a + b == a;
    } else {
      var init := b[..|b| - 1];
      assert (a + b)[..|a + b| - 1] == a + init && (a + b)[|a + b| - 1] == b[|b| - 1];
      LinksCat(a, init, name);
    }
  }

  lemma {:induction false} RunLinks(run: Run, name: string, k: nat)
    requires k <= |run|
    ensures multiset(Links(RunEntries(run[..k]), name)) + multiset(NewestFirst(run, name, k)) == multiset(Links(RunEntries(run), name))
    decreases |run| - k
  {
    hide Links;
    if k == |run| {
      assert run[..k] == run;
    } else {
      RunLinks(run, name, k + 1);
      assert run[..k + 1][..k] == run[..k];
      LinksCat(RunEntries(run[..k]), run[k], name);
    }
  }

  lemma {:induction false} AllLinksSame(runs: seq<Run>, name: string)
    ensures multiset(AllLinks(runs, name)) == multiset(Links(AllEntries(runs), name))
  {
    hide NewestFirst, RunEntries;
    if runs != [] {
      var init, run := runs[..|runs| - 1], runs[|runs| - 1];
      AllLinksSame(init, name);
      LinksCat(AllEntries(init), RunEntries(run), name);
      RunLinks(run, name, 0);
      NoEntries(run, name);
    }
  }

  lemma NoEntries(run: Run, name: string)
    ensures Links(RunEntries(run[..0]), name) == []
  {
    assert run[..0] == [];
  }

  /** Conservation: final and rerun failures together are the failing entries of the whole input, one
      link for each of them, and nothing is counted twice or lost. */
  lemma FailuresConserved(runs: seq<Run>, name: string)
    ensures var s := At(Tallied(runs), name);
            && multiset(s.links) == multiset(Links(AllEntries(runs), name))
            && s.finalFailures + s.rerunFailures == |Links(AllEntries(runs), name)| == |s.links|
  {
    TallyCounts(runs, name);
    AllLinksSame(runs, name);
    assert |multiset(AllLinks(runs, name))| == |AllLinks(runs, name)|;
    assert |multiset(Links(AllEntries(runs), name))| == |Links(AllEntries(runs), name)|;
  }
}
