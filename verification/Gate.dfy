/** The aggregate gate of `tools/ci/gate.py`: job results against the selector's outputs. */
module Gate {
  import opened Text
  import opened Sorting

  /** The `result` of a job; other texts fail like `Failure`. */
  datatype Outcome = Success | Failure | Cancelled | Skipped | Missing | Other(text: string)

  datatype Expectation = ExpectSuccess | ExpectSkipped | ExpectEither | ExpectListed

  /** One entry of `toJSON(needs)`: an absent result reads as `Missing`, outputs that are absent or
      no object read as none. */
  datatype Need = Need(result: Outcome, outputs: map<string, string>)

  datatype Row = Row(job: string, result: Outcome, expected: Expectation, ok: bool)

  predicate Unselected(output: string) {
    output == "" || output == "false" || output == "[]"
  }

  /** A missing output counts as selected. */
  predicate Selected(outputs: map<string, string>, key: string) {
    key !in outputs || !Unselected(outputs[key])
  }

  predicate Meets(result: Outcome, expected: Expectation) {
    match expected
    case ExpectSuccess => result == Success
    case ExpectSkipped => result == Skipped
    case ExpectEither => result == Success || result == Skipped
    case ExpectListed => false
  }

  function RowOf(needs: map<string, Need>, selectable: map<string, string>, maySkip: seq<string>, select: string, job: string): Row
    requires select in needs && job in needs
  {
    var result := needs[job].result;
    if job == select then Row(job, result, ExpectSuccess, result == Success)
    else if job in selectable then
      var expected := if Selected(needs[select].outputs, selectable[job]) then ExpectSuccess else ExpectSkipped;
      Row(job, result, expected, Meets(result, expected))
    else if job in maySkip then Row(job, result, ExpectEither, result == Success || result == Skipped)
    else Row(job, result, ExpectSuccess, result == Success)
  }

  function NeedRows(needs: map<string, Need>, selectable: map<string, string>, maySkip: seq<string>,
    select: string, jobs: seq<string>): seq<Row>
    requires select in needs && forall j :: j in jobs ==> j in needs
  {
    if jobs == [] then []
    else NeedRows(needs, selectable, maySkip, select, jobs[..|jobs| - 1])
         + [RowOf(needs, selectable, maySkip, select, jobs[|jobs| - 1])]
  }

  function UnlistedRows(jobs: seq<string>): seq<Row> {
    if jobs == [] then [] else UnlistedRows(jobs[..|jobs| - 1]) + [Row(jobs[|jobs| - 1], Missing, ExpectListed, false)]
  }

  /** The rows in the order of `evaluate`. */
  function Rows(needs: map<string, Need>, selectable: map<string, string>, maySkip: seq<string>, select: string): seq<Row> {
    if select !in needs then [Row(select, Missing, ExpectSuccess, false)]
    else NeedRows(needs, selectable, maySkip, select, Listing(needs.Keys)) + UnlistedRows(Listing(selectable.Keys - needs.Keys))
  }

  method Evaluate(needs: map<string, Need>, selectable: map<string, string>, maySkip: seq<string>, select: string)
    returns (rows: seq<Row>)
    ensures rows == Rows(needs, selectable, maySkip, select)
  {
    rows := [];
    if select !in needs {
      return [Row(select, Missing, ExpectSuccess, false)];
    }
    var outputs := needs[select].outputs;
    var jobs := Listing(needs.Keys);
    for i := 0 to |jobs|
      invariant rows == NeedRows(needs, selectable, maySkip, select, jobs[..i])
    {
      var job := jobs[i];
      var result := needs[job].result;
      assert jobs[..i + 1][..i] == jobs[..i];
      if job == select {
        rows := rows + [Row(job, result, ExpectSuccess, result == Success)];
      } else if job in selectable {
        var selected := Selected(outputs, selectable[job]);
        var expected := if selected then ExpectSuccess else ExpectSkipped;
        rows := rows + [Row(job, result, expected, Meets(result, expected))];
      } else if job in maySkip {
        rows := rows + [Row(job, result, ExpectEither, result == Success || result == Skipped)];
      } else {
        rows := rows + [Row(job, result, ExpectSuccess, result == Success)];
      }
    }
    assert jobs[..|jobs|] == jobs;
    var unlisted := Listing(selectable.Keys - needs.Keys);
    var tail := AddUnlisted(unlisted);
    rows := rows + tail;
  }

  /** The second loop of `evaluate`. */
  method AddUnlisted(unlisted: seq<string>) returns (rows: seq<Row>)
    ensures rows == UnlistedRows(unlisted)
  {
    rows := [];
    for i := 0 to |unlisted|
      invariant rows == UnlistedRows(unlisted[..i])
    {
      assert unlisted[..i + 1][..i] == unlisted[..i];
      rows := rows + [Row(unlisted[i], Missing, ExpectListed, false)];
    }
    assert unlisted[..|unlisted|] == unlisted;
  }

  predicate AllOk(rows: seq<Row>) {
    forall i :: 0 <= i < |rows| ==> rows[i].ok
  }

  /** The selector says that nothing behind this key has to run. */
  predicate LeftOut(outputs: map<string, string>, key: string) {
    key in outputs && (outputs[key] == "false" || outputs[key] == "[]" || outputs[key] == "")
  }

  /** What the gate demands of one job other than the selector. */
  predicate Acceptable(needs: map<string, Need>, selectable: map<string, string>, maySkip: seq<string>, select: string, job: string)
    requires select in needs && job in needs
  {
    var result := needs[job].result;
    if job in selectable then
      if LeftOut(needs[select].outputs, selectable[job]) then result == Skipped else result == Success
    else result == Success || (job in maySkip && result == Skipped)
  }

  lemma {:induction false} NeedRowsOk(needs: map<string, Need>, selectable: map<string, string>, maySkip: seq<string>,
    select: string, jobs: seq<string>)
    requires select in needs && forall j :: j in jobs ==> j in needs
    ensures AllOk(NeedRows(needs, selectable, maySkip, select, jobs)) <==>
            forall job :: job in jobs ==> RowOf(needs, selectable, maySkip, select, job).ok
  {
    if jobs != [] {
      var init, last := jobs[..|jobs| - 1], jobs[|jobs| - 1];
      NeedRowsOk(needs, selectable, maySkip, select, init);
      assert jobs == init + [last];
      var row := RowOf(needs, selectable, maySkip, select, last);
      AllOkCat(NeedRows(needs, selectable, maySkip, select, init), [row]);
      assert AllOk([row]) <==> row.ok by { assert [row][0] == row; }
      assert forall job :: job in jobs <==> job in init || job == last;
    }
  }

  lemma AllOkCat(a: seq<Row>, b: seq<Row>)
    ensures AllOk(a + b) <==> AllOk(a) && AllOk(b)
  {
    if AllOk(a + b) {
      assert forall i :: 0 <= i < |a| ==> a[i] == (a + b)[i];
      assert forall i :: 0 <= i < |b| ==> b[i] == (a + b)[|a| + i];
    }
  }

  lemma UnlistedRowsOk(jobs: seq<string>)
    ensures AllOk(UnlistedRows(jobs)) <==> jobs == []
  {
    if jobs != [] {
      assert !UnlistedRows(jobs)[|UnlistedRows(jobs)| - 1].ok;
    }
  }

  /** The verdict, both ways: the gate is green exactly when the selector succeeded, every selectable
      job is a need, and every need did what the selection allows. */
  lemma Verdict(needs: map<string, Need>, selectable: map<string, string>, maySkip: seq<string>, select: string)
    ensures AllOk(Rows(needs, selectable, maySkip, select)) <==>
            && select in needs && needs[select].result == Success
            && selectable.Keys <= needs.Keys
            && forall job :: job in needs && job != select ==> Acceptable(needs, selectable, maySkip, select, job)
  {
    if select !in needs {
      assert !Rows(needs, selectable, maySkip, select)[0].ok;
    } else {
      RowsVerdict(needs, selectable, maySkip, select);
      forall job | job in needs {
        RowMeaning(needs, selectable, maySkip, select, job);
      }
      if AllOk(Rows(needs, selectable, maySkip, select)) {
        assert RowOf(needs, selectable, maySkip, select, select).ok;
      }
    }
  }

  lemma RowMeaning(needs: map<string, Need>, selectable: map<string, string>, maySkip: seq<string>, select: string, job: string)
    requires select in needs && job in needs
    ensures RowOf(needs, selectable, maySkip, select, job).ok <==>
            if job == select then needs[select].result == Success
            else Acceptable(needs, selectable, maySkip, select, job)
  {
  }

  lemma RowsVerdict(needs: map<string, Need>, selectable: map<string, string>, maySkip: seq<string>, select: string)
    requires select in needs
    ensures AllOk(Rows(needs, selectable, maySkip, select)) <==>
            && selectable.Keys <= needs.Keys
            && forall job :: job in needs ==> RowOf(needs, selectable, maySkip, select, job).ok
  {
    var jobs, unlisted := Listing(needs.Keys), Listing(selectable.Keys - needs.Keys);
    NeedRowsOk(needs, selectable, maySkip, select, jobs);
    UnlistedRowsOk(unlisted);
    AllOkCat(NeedRows(needs, selectable, maySkip, select, jobs), UnlistedRows(unlisted));
    assert unlisted == [] <==> selectable.Keys - needs.Keys == {};
    assert forall job :: job in jobs <==> job in needs;
  }

  // ----- the rows of the report -----

  /** What the report expects of a job. */
  predicate Expects(needs: map<string, Need>, selectable: map<string, string>, maySkip: seq<string>, select: string, job: string,
    expected: Expectation)
    requires select in needs && job in needs
  {
    match expected
    case ExpectSkipped => job != select && job in selectable && LeftOut(needs[select].outputs, selectable[job])
    case ExpectEither => job != select && job !in selectable && job in maySkip
    case ExpectSuccess => job == select || (job in selectable && !LeftOut(needs[select].outputs, selectable[job])) ||
                          (job !in selectable && job !in maySkip)
    case ExpectListed => false
  }

  lemma {:induction false} NeedRowAt(needs: map<string, Need>, selectable: map<string, string>, maySkip: seq<string>,
    select: string, jobs: seq<string>, i: nat)
    requires select in needs && (forall j :: j in jobs ==> j in needs) && i < |jobs|
    ensures var rows := NeedRows(needs, selectable, maySkip, select, jobs);
            |rows| == |jobs| && rows[i] == RowOf(needs, selectable, maySkip, select, jobs[i])
  {
    hide RowOf;
    var n := |jobs| - 1;
    if i < n {
      NeedRowAt(needs, selectable, maySkip, select, jobs[..n], i);
    } else if n > 0 {
      NeedRowAt(needs, selectable, maySkip, select, jobs[..n], n - 1);
    }
  }

  lemma {:induction false} UnlistedRowAt(jobs: seq<string>, i: nat)
    requires i < |jobs|
    ensures |UnlistedRows(jobs)| == |jobs| && UnlistedRows(jobs)[i] == Row(jobs[i], Missing, ExpectListed, false)
  {
    var n := |jobs| - 1;
    if i < n {
      UnlistedRowAt(jobs[..n], i);
    } else if n > 0 {
      UnlistedRowAt(jobs[..n], n - 1);
    }
  }

  /** The row tells what the job did and what was expected of it, and whether that is what the gate demands. */
  predicate Reports(needs: map<string, Need>, selectable: map<string, string>, maySkip: seq<string>, select: string,
    job: string, row: Row)
    requires select in needs && job in needs
  {
    && row.job == job && row.result == needs[job].result
    && Expects(needs, selectable, maySkip, select, job, row.expected)
    && (row.ok <==> if job == select then needs[select].result == Success
                    else Acceptable(needs, selectable, maySkip, select, job))
  }

  /** One row for each need and then one for each unlisted job, in their order. */
  predicate ReportRows(needs: map<string, Need>, selectable: map<string, string>, maySkip: seq<string>, select: string,
    jobs: seq<string>, unlisted: seq<string>, rows: seq<Row>)
    requires select in needs
  {
    && |rows| == |jobs| + |unlisted|
    && (forall i :: 0 <= i < |jobs| ==> jobs[i] in needs && Reports(needs, selectable, maySkip, select, jobs[i], rows[i]))
    && (forall i :: 0 <= i < |unlisted| ==> rows[|jobs| + i] == Row(unlisted[i], Missing, ExpectListed, false))
  }

  lemma RowsExactly(needs: map<string, Need>, selectable: map<string, string>, maySkip: seq<string>, select: string)
    requires select in needs
    ensures ReportRows(needs, selectable, maySkip, select, Listing(needs.Keys), Listing(selectable.Keys - needs.Keys),
                       Rows(needs, selectable, maySkip, select))
  {
    hide RowOf, NeedRows, UnlistedRows, ReportRows;
    assert forall j :: j in Listing(needs.Keys) ==> j in needs;
    RowsOf(needs, selectable, maySkip, select, Listing(needs.Keys), Listing(selectable.Keys - needs.Keys));
  }

  lemma RowsOf(needs: map<string, Need>, selectable: map<string, string>, maySkip: seq<string>, select: string,
    jobs: seq<string>, unlisted: seq<string>)
    requires select in needs && forall j :: j in jobs ==> j in needs
    ensures ReportRows(needs, selectable, maySkip, select, jobs, unlisted,
                       NeedRows(needs, selectable, maySkip, select, jobs) + UnlistedRows(unlisted))
  {
    hide RowOf, Reports, NeedRows, UnlistedRows;
    NeedRowsLength(needs, selectable, maySkip, select, jobs);
    UnlistedRowsLength(unlisted);
    var a, b := NeedRows(needs, selectable, maySkip, select, jobs), UnlistedRows(unlisted);
    forall i | 0 <= i < |jobs| ensures jobs[i] in needs && Reports(needs, selectable, maySkip, select, jobs[i], (a + b)[i]) {
      NeedRowAt(needs, selectable, maySkip, select, jobs, i);
      RowReports(needs, selectable, maySkip, select, jobs[i]);
    }
    forall i | 0 <= i < |unlisted| ensures (a + b)[|jobs| + i] == Row(unlisted[i], Missing, ExpectListed, false) {
      UnlistedRowAt(unlisted, i);
    }
  }

  lemma RowReports(needs: map<string, Need>, selectable: map<string, string>, maySkip: seq<string>, select: string, job: string)
    requires select in needs && job in needs
    ensures Reports(needs, selectable, maySkip, select, job, RowOf(needs, selectable, maySkip, select, job))
  {
  }

  lemma NeedRowsLength(needs: map<string, Need>, selectable: map<string, string>, maySkip: seq<string>,
    select: string, jobs: seq<string>)
    requires select in needs && forall j :: j in jobs ==> j in needs
    ensures |NeedRows(needs, selectable, maySkip, select, jobs)| == |jobs|
  {
    if jobs != [] {
      NeedRowAt(needs, selectable, maySkip, select, jobs, 0);
    }
  }

  lemma UnlistedRowsLength(jobs: seq<string>)
    ensures |UnlistedRows(jobs)| == |jobs|
  {
    if jobs != [] {
      UnlistedRowAt(jobs, 0);
    }
  }

  // ----- the command line mapping -----

  /** `parse_selectable`: one `job=key` argument after the other, the last one wins. */
  function Selectable(values: seq<string>): Option<map<string, string>> {
    if values == [] then Some(map[])
    else
      var last := values[|values| - 1];
      var i := FirstIndex(last, '=');
      var before := Selectable(values[..|values| - 1]);
      if before.None? || i == |last| || i == 0 || i + 1 == |last| then None
      else Some(before.value[last[..i] := last[i + 1..]])
  }

  method ParseSelectable(values: seq<string>) returns (mapping: Option<map<string, string>>)
    ensures mapping == Selectable(values)
  {
    var m: map<string, string> := map[];
    for n := 0 to |values|
      invariant Selectable(values[..n]) == Some(m)
    {
      var value := values[n];
      assert values[..n + 1][..n] == values[..n];
      var i := FirstIndex(value, '=');
      if i == |value| || i == 0 || i + 1 == |value| {
        RejectedStays(values, n + 1);
        return None;
      }
      m := m[value[..i] := value[i + 1..]];
    }
    assert values[..|values|] == values;
    return Some(m);
  }

  lemma {:induction false} RejectedStays(values: seq<string>, n: nat)
    requires n <= |values| && Selectable(values[..n]).None?
    ensures Selectable(values).None?
    decreases |values| - n
  {
    if n == |values| {
      assert values[..n] == values;
    } else {
      assert values[..n + 1][..n] == values[..n];
      RejectedStays(values, n + 1);
    }
  }

  predicate IsPair(value: string, job: string, key: string) {
    job != "" && key != "" && Free(job, '=') && value == job + "=" + key
  }

  /** One argument: a job without equals sign and a key, both nonempty. */
  ghost predicate Argument(value: string) {
    exists job, key :: IsPair(value, job, key)
  }

  /** The arguments are accepted exactly when each of them names a job and a key. */
  lemma {:induction false} SelectableExactly(values: seq<string>)
    ensures Selectable(values).Some? <==> forall i :: 0 <= i < |values| ==> Argument(values[i])
  {
    hide Argument;
    if values != [] {
      var n := |values| - 1;
      SelectableExactly(values[..n]);
      ArgumentExactly(values[n]);
      assert forall i :: 0 <= i < n ==> values[..n][i] == values[i];
    }
  }

  lemma ArgumentExactly(value: string)
    ensures var i := FirstIndex(value, '='); Argument(value) <==> 0 < i && i + 1 < |value|
  {
    hide IsPair;
    var i := FirstIndex(value, '=');
    if 0 < i && i + 1 < |value| {
      CutAtEquals(value, i);
    }
    if job, key :| IsPair(value, job, key) {
      EqualsAt(value, job, key);
    }
  }

  lemma CutAtEquals(value: string, i: nat)
    requires 0 < i && i + 1 < |value| && value[i] == '=' && Free(value[..i], '=')
    ensures IsPair(value, value[..i], value[i + 1..])
  {
    assert value == value[..i] + "=" + value[i + 1..];
  }

  lemma EqualsAt(value: string, job: string, key: string)
    requires IsPair(value, job, key)
    ensures FirstIndex(value, '=') == |job| && 0 < |job| && |job| + 1 < |value|
  {
    assert value[..|job|] == job && value[|job|] == '=';
    FirstIndexUnique(value, '=', |job|);
  }

  function Arguments(pairs: seq<(string, string)>): (values: seq<string>)
    ensures |values| == |pairs|
  {
    if pairs == [] then []
    else
      var last := pairs[|pairs| - 1];
      Arguments(pairs[..|pairs| - 1]) + [last.0 + ['='] + last.1]
  }

  /** The dictionary of a list of pairs; the last pair of a key counts. */
  function Dict(pairs: seq<(string, string)>): map<string, string> {
    if pairs == [] then map[]
    else
      var last := pairs[|pairs| - 1];
      Dict(pairs[..|pairs| - 1])[last.0 := last.1]
  }

  /** Parsing undoes writing: the arguments of a mapping give the mapping back, and only the first
      equals sign separates. */
  lemma {:induction false} SelectableRoundTrip(pairs: seq<(string, string)>)
    requires forall p :: p in pairs ==> p.0 != [] && p.1 != [] && Free(p.0, '=')
    ensures Selectable(Arguments(pairs)) == Some(Dict(pairs))
  {
    if pairs != [] {
      var n := |pairs| - 1;
      SelectableRoundTrip(pairs[..n]);
      var (job, key) := pairs[n];
      assert pairs[n] in pairs;
      var values := Arguments(pairs);
      var last := job + ['='] + key;
      assert values[n] == last && values[..n] == Arguments(pairs[..n]);
      assert last[..|job|] == job && last[|job| + 1..] == key;
      FirstIndexUnique(last, '=', |job|);
    }
  }
}
