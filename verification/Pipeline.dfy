/** Selector, gate and gate check together: what a green gate says about the jobs of a workflow. */
module Pipeline {
  import opened Text
  import opened Selection
  import opened Gate
  import Workflow
  import Needs

  const SELECT := "select"

  /** `outputs` are outputs of the selection; the reusable workflow need not hand on all of them. */
  ghost predicate OutputsOf(t: Table, s: Selection, outputs: map<string, string>) {
    forall key :: key in outputs ==> Output(t, s, key) == Some(outputs[key])
  }

  /** What a workflow hands on that names the keys `forwarded`. */
  function Handed(t: Table, s: Selection, forwarded: set<string>): map<string, string> {
    map key | key in forwarded && Output(t, s, key).Some? :: Output(t, s, key).value
  }

  /** Handing on any choice of keys meets the assumption; no key needs to be among them. */
  lemma HandedAreOutputs(t: Table, s: Selection, forwarded: set<string>)
    ensures OutputsOf(t, s, Handed(t, s, forwarded))
  {
    hide Output;
  }

  /** The suites behind an output key of the selector. */
  function SuitesOf(t: Table, key: string): set<string> {
    if key in t.flags then {key}
    else if key == INTEGRATION then Prefixed(INTEGRATION, t.integration)
    else if key == E2E then Prefixed(E2E, t.e2e)
    else if key == EMDASH then {EMDASH}
    else {}
  }

  predicate SuiteKey(t: Table, key: string) {
    key in t.flags || key == INTEGRATION || key == E2E || key == EMDASH
  }

  lemma JsonListUnselected(names: seq<string>)
    ensures Unselected(JsonList(names)) <==> names == []
  {
    if names != [] {
      assert JsonList(names)[0] == '[' && JsonList(names)[1] == '"';
    }
  }

  lemma JsonBoolUnselected(b: bool)
    ensures Unselected(JsonBool(b)) <==> !b
  {
    assert "true"[0] == 't' && "false"[0] == 'f' && "[]"[0] == '[';
  }

  lemma ListedNothing(suites: set<string>, prefix: string, names: seq<string>)
    ensures Listed(suites, prefix, names) == [] <==> Prefixed(prefix, names) * suites == {}
  {
    var listed := Listed(suites, prefix, names);
    if listed != [] {
      assert listed[0] in listed;
      assert prefix + ":" + listed[0] in Prefixed(prefix, names) * suites;
    }
    if s :| s in Prefixed(prefix, names) && s in suites {
      var n :| n in names && s == prefix + ":" + n;
      assert n in listed;
    }
  }

  /** The gate reads an output as unselected exactly when no suite behind it is selected. */
  lemma UnselectedMeansNoSuite(t: Table, s: Selection, outputs: map<string, string>, key: string)
    requires WellFormed(t) && SuiteKey(t, key) && key in outputs && Output(t, s, key) == Some(outputs[key])
    ensures Selected(outputs, key) <==> SuitesOf(t, key) * s.suites != {}
  {
    if key in t.flags {
      JsonBoolUnselected(key in s.suites);
      SingleMeets(key, s.suites);
    } else if key == INTEGRATION {
      ListUnselected(s.suites, INTEGRATION, t.integration);
    } else if key == E2E {
      assert Output(t, s, E2E) == Some(JsonList(Listed(s.suites, E2E, t.e2e)));
      ListUnselected(s.suites, E2E, t.e2e);
    } else {
      JsonListUnselected(if EMDASH in s.suites then t.emdash else []);
      SingleMeets(EMDASH, s.suites);
    }
  }

  lemma SingleMeets(x: string, s: set<string>)
    ensures {x} * s != {} <==> x in s
  {
    if x in s {
      assert x in {x} * s;
    }
  }

  lemma ListUnselected(suites: set<string>, prefix: string, names: seq<string>)
    ensures Unselected(JsonList(Listed(suites, prefix, names))) <==> Prefixed(prefix, names) * suites == {}
  {
    JsonListUnselected(Listed(suites, prefix, names));
    ListedNothing(suites, prefix, names);
  }

  /** A run of a gated workflow. `results` are the outcomes of all its jobs; the platform hands the
      gate exactly the jobs its block needs, with their results and the selector's outputs. */
  datatype Run = Run(text: string, title: string, results: map<string, Outcome>, needs: map<string, Need>,
                     selectable: map<string, string>, maySkip: seq<string>)

  ghost predicate PlatformRun(r: Run, t: Table, s: Selection) {
    && r.needs.Keys == Needs.NeedsOf(Workflow.JobBlock(r.text, Needs.GATE))
    && (forall j :: j in r.needs ==> j in r.results && r.needs[j].result == r.results[j])
    && (SELECT in r.needs ==> OutputsOf(t, s, r.needs[SELECT].outputs))
  }

  predicate Green(r: Run) {
    && Needs.GateProblems(Workflow.JobBlock(r.text, Needs.GATE), Needs.Required(r.text), r.title) == []
    && AllOk(Rows(r.needs, r.selectable, r.maySkip, SELECT))
  }

  /** The selection leaves out what an output key stands for. */
  predicate LeftOut(t: Table, s: Selection, key: string) {
    (SuiteKey(t, key) && SuitesOf(t, key) * s.suites == {}) || (key == FULL && !s.full)
  }

  /** The job succeeded, or was skipped because the selection leaves out what it is keyed to, or was
      allowed to skip. */
  predicate Accounted(r: Run, t: Table, s: Selection, job: string)
    requires job in r.results
  {
    || r.results[job] == Success
    || (r.results[job] == Skipped && job != SELECT && job in r.selectable && LeftOut(t, s, r.selectable[job]))
    || (r.results[job] == Skipped && job != SELECT && job !in r.selectable && job in r.maySkip)
  }

  /** Main theorem: no skipped job hides a failure. */
  lemma NoSkippedJobHidesAFailure(r: Run, t: Table, event: string, paths: seq<string>, job: string)
    requires WellFormed(t)
    requires PlatformRun(r, t, SelectSpec(t, event, paths)) && Green(r)
    requires job in Workflow.JobsOf(r.text) && job !in Needs.OUTSIDE_GATE
    ensures job in r.results && Accounted(r, t, SelectSpec(t, event, paths), job)
    ensures event != PULL_REQUEST && job in r.selectable ==> r.results[job] == Success
  {
    var s := SelectSpec(t, event, paths);
    Needs.GateCovers(r.text, r.title);
    assert job in r.needs;
    Verdict(r.needs, r.selectable, r.maySkip, SELECT);
    if job != SELECT {
      assert Acceptable(r.needs, r.selectable, r.maySkip, SELECT, job);
      if job in r.selectable {
        KeyedJob(r, t, s, job);
        if event != PULL_REQUEST {
          EverythingSelected(t, s, r.selectable[job]);
        }
      }
    }
  }

  /** The same for a workflow that hands on the outputs `forwarded` of the selector, whichever these are. */
  lemma ForwardedRunAccounted(r: Run, t: Table, event: string, paths: seq<string>, forwarded: set<string>, job: string)
    requires WellFormed(t) && Green(r) && job in Workflow.JobsOf(r.text) && job !in Needs.OUTSIDE_GATE
    requires r.needs.Keys == Needs.NeedsOf(Workflow.JobBlock(r.text, Needs.GATE))
    requires forall j :: j in r.needs ==> j in r.results && r.needs[j].result == r.results[j]
    requires SELECT in r.needs ==> r.needs[SELECT].outputs == Handed(t, SelectSpec(t, event, paths), forwarded)
    ensures job in r.results && Accounted(r, t, SelectSpec(t, event, paths), job)
    ensures event != PULL_REQUEST && job in r.selectable ==> r.results[job] == Success
  {
    hide Green, Accounted, SelectSpec, WellFormed, Handed, OutputsOf;
    HandedAreOutputs(t, SelectSpec(t, event, paths), forwarded);
    NoSkippedJobHidesAFailure(r, t, event, paths, job);
  }

  /** The identifiers that the workflow reader sees are the names that the selector writes unescaped. */
  lemma SeenNamesArePlain(s: string)
    ensures Workflow.Name(s) <==> PlainName(s)
  {
  }

  lemma ReasonSelected(r: Reason)
    ensures !Unselected(ReasonText(r))
  {
    assert |ReasonText(r)| > 5;
  }

  /** What an output key decides: the gate waives a job exactly when the key is handed on and the
      selection leaves it out; a key that is no output, or not handed on, counts as selected. */
  lemma KeyedJob(r: Run, t: Table, s: Selection, job: string)
    requires WellFormed(t) && PlatformRun(r, t, s) && SELECT in r.needs
    requires job in r.selectable
    ensures !Selected(r.needs[SELECT].outputs, r.selectable[job]) <==>
            r.selectable[job] in r.needs[SELECT].outputs && LeftOut(t, s, r.selectable[job])
  {
    var key := r.selectable[job];
    var outputs := r.needs[SELECT].outputs;
    if key in outputs {
      assert Output(t, s, key) == Some(outputs[key]);
      if SuiteKey(t, key) {
        UnselectedMeansNoSuite(t, s, outputs, key);
      } else if key == FULL {
        JsonBoolUnselected(s.full);
      } else {
        assert key == REASON;
        ReasonSelected(s.reason);
      }
    }
  }

  lemma EverythingSelected(t: Table, s: Selection, key: string)
    requires WellFormed(t) && s.suites == Everything(t) && s.full
    ensures !LeftOut(t, s, key)
  {
    if SuiteKey(t, key) {
      assert t.integration[0] in t.integration && t.e2e[0] in t.e2e;
      if key in t.flags {
        assert key in SuitesOf(t, key) * s.suites;
      } else if key == INTEGRATION {
        assert INTEGRATION + ":" + t.integration[0] in Prefixed(INTEGRATION, t.integration) * s.suites;
      } else if key == E2E {
        assert E2E + ":" + t.e2e[0] in Prefixed(E2E, t.e2e) * s.suites;
      } else {
        assert EMDASH in SuitesOf(t, key) * s.suites;
      }
    }
  }
}
