/** Authenticated restore receipts (`tools/backup/restore-state.py`): one signed state file, written by
    `prepare` and moved through its phases by later calls. The signature, the state of the containers
    and volumes, the configuration and the clock limit of each call are inputs of the call. */
module RestoreState {
  import opened Text

  // ----- data -----

  datatype Phase = Restored | Verified | Starting | Complete | OtherPhase

  /** A recovery cutoff as read from text: absent, an instant, or not a zoned instant. */
  datatype Cutoff = Unset | Instant(at: int) | Invalid

  datatype Binding = Binding(source: string, target: string, repositoryHash: string, configHash: string,
                             expectedManifestHash: Option<string>)

  /** Name, creation time and driver of each volume. */
  type Volumes = map<string, (string, string, string)>

  /** A payload with exactly the six keys, or any other document. */
  datatype Document =
    | Payload(schema: int, binding: Binding, manifestHash: string, volumes: Volumes, phase: Phase,
              requiredThrough: Cutoff)
    | OtherDocument(text: string)

  /** The state file; `Unreadable` also covers unsafe permissions, size and JSON errors. */
  datatype File = Unreadable | OtherFile | Envelope(payload: Document, signature: string)

  type Sign = (string, Document) -> string

  datatype Action = Prepare | Check | Verify | Start | Finish

  /** One call. `key` and `binding` come from the configuration, `manifest` is the hash of the manifest
      file, `resources` the volumes found; None where reading them raises an error. */
  datatype Call = Call(action: Action, key: Option<string>, binding: Binding, required: Cutoff,
                       manifest: Option<string>, resources: Option<Volumes>)

  datatype Error =
    | NoContext | NaiveCutoff | NoManifest | BackupMismatch | NoResources | UnsafeReceipt | InvalidEnvelope
    | NotAuthentic | BindingMismatch | CutoffBackwards | PhaseOrVolumesChanged | PhaseMismatch

  datatype Outcome = Refused(error: Error) | Checked | Written(file: File)

  // ----- one call -----

  function Signed(sign: Sign, key: string, payload: Document): File {
    Envelope(payload, sign(key, payload))
  }

  function Prepared(sign: Sign, c: Call): Outcome
    requires c.key.Some?
  {
    if c.manifest.None? then Refused(NoManifest)
    else if c.binding.expectedManifestHash.Some? && c.binding.expectedManifestHash != c.manifest then Refused(BackupMismatch)
    else if c.resources.None? then Refused(NoResources)
    else Written(Signed(sign, c.key.value,
                        Payload(1, c.binding, c.manifest.value, c.resources.value, Restored, c.required)))
  }

  predicate Backwards(previous: Cutoff, required: Cutoff) {
    previous.Instant? && (required.Unset? || (required.Instant? && required.at < previous.at))
  }

  function NextPhase(a: Action): Phase {
    match a
    case Verify => Verified
    case Start => Starting
    case Finish => Complete
    case _ => OtherPhase
  }

  /** What is decided once the receipt is known to be authentic. */
  function Advanced(sign: Sign, p: Document, c: Call): Outcome
    requires c.key.Some?
  {
    if !p.Payload? || p.schema != 1 || p.binding != c.binding then Refused(BindingMismatch)
    else if p.requiredThrough.Invalid? then Refused(NaiveCutoff)
    else if Backwards(p.requiredThrough, c.required) then Refused(CutoffBackwards)
    else if c.action != Finish && p.phase != Restored && p.phase != Verified then Refused(PhaseOrVolumesChanged)
    else if c.action != Finish && c.resources.None? then Refused(NoResources)
    else if c.action != Finish && Some(p.volumes) != c.resources then Refused(PhaseOrVolumesChanged)
    else if c.action == Finish && p.phase != Starting then Refused(PhaseMismatch)
    else if c.action == Check then Checked
    else Written(Signed(sign, c.key.value, p.(requiredThrough := c.required, phase := NextPhase(c.action))))
  }

  function Step(sign: Sign, file: File, c: Call): Outcome {
    if c.key.None? then Refused(NoContext)
    else if c.required.Invalid? then Refused(NaiveCutoff)
    else if c.action == Prepare then Prepared(sign, c)
    else if file.Unreadable? then Refused(UnsafeReceipt)
    else if file.OtherFile? then Refused(InvalidEnvelope)
    else if file.signature != sign(c.key.value, file.payload) then Refused(NotAuthentic)
    else Advanced(sign, file.payload, c)
  }

  function After(file: File, o: Outcome): File { if o.Written? then o.file else file }

  /** The directory entry that `receipt` reads and replaces. */
  class Store {
    var file: File

    constructor (initial: File)
      ensures file == initial
    {
      file := initial;
    }

    /** `receipt` */
    method Receipt(sign: Sign, c: Call) returns (outcome: Outcome)
      modifies this
      ensures outcome == Step(sign, old(file), c)
      ensures file == After(old(file), outcome)
    {
      if c.key.None? { return Refused(NoContext); }
      if c.required.Invalid? { return Refused(NaiveCutoff); }
      var payload: Document;
      if c.action == Prepare {
        if c.manifest.None? { return Refused(NoManifest); }
        var expected := if c.binding.expectedManifestHash.Some? then c.binding.expectedManifestHash else c.manifest;
        if expected != c.manifest { return Refused(BackupMismatch); }
        if c.resources.None? { return Refused(NoResources); }
        payload := Payload(1, c.binding, c.manifest.value, c.resources.value, Restored, c.required);
      } else {
        var envelope := file;
        if envelope.Unreadable? { return Refused(UnsafeReceipt); }
        if envelope.OtherFile? { return Refused(InvalidEnvelope); }
        payload := envelope.payload;
        if envelope.signature != sign(c.key.value, payload) { return Refused(NotAuthentic); }
        if !payload.Payload? || payload.schema != 1 || payload.binding != c.binding { return Refused(BindingMismatch); }
        var previous := payload.requiredThrough;
        if previous.Invalid? { return Refused(NaiveCutoff); }
        if previous.Instant? && (c.required.Unset? || c.required.at < previous.at) { return Refused(CutoffBackwards); }
        if c.action != Finish {
          if payload.phase != Restored && payload.phase != Verified { return Refused(PhaseOrVolumesChanged); }
          if c.resources.None? { return Refused(NoResources); }
          if payload.volumes != c.resources.value { return Refused(PhaseOrVolumesChanged); }
        } else if payload.phase != Starting {
          return Refused(PhaseMismatch);
        }
        if c.action == Check { return Checked; }
        payload := payload.(requiredThrough := c.required);
        payload := payload.(phase := NextPhase(c.action));
      }
      file := Signed(sign, c.key.value, payload);
      outcome := Written(file);
    }
  }

  // ----- runs -----

  /** The file after a sequence of calls, each with its own inputs. */
  function Run(sign: Sign, file: File, calls: seq<Call>): File
    decreases |calls|
  {
    if calls == [] then file else Run(sign, After(file, Step(sign, file, calls[0])), calls[1..])
  }

  /** The actions of the calls that wrote the file. */
  function Writes(sign: Sign, file: File, calls: seq<Call>): seq<Action>
    decreases |calls|
  {
    if calls == [] then []
    else
      var o := Step(sign, file, calls[0]);
      (if o.Written? then [calls[0].action] else []) + Writes(sign, After(file, o), calls[1..])
  }

  predicate NoPrepare(calls: seq<Call>) {
    forall i :: 0 <= i < |calls| ==> calls[i].action != Prepare
  }

  /** verified* followed by at most one starting and then at most one complete. */
  predicate Word(w: seq<Action>) {
    exists n :: 0 <= n <= |w| && (forall i :: 0 <= i < n ==> w[i] == Verify) && Ending(w[n..])
  }

  predicate Ending(w: seq<Action>) { w == [] || w == [Start] || w == [Start, Finish] }

  /** The writes that may follow a phase. */
  predicate WordFrom(phase: Phase, w: seq<Action>) {
    match phase
    case Restored => Word(w)
    case Verified => Word(w)
    case Starting => w == [] || w == [Finish]
    case _ => w == []
  }

  /** No cutoff counts as the lowest. */
  predicate NotBefore(later: Cutoff, earlier: Cutoff) {
    earlier.Instant? ==> later.Instant? && earlier.at <= later.at
  }

  predicate Holds(file: File) { file.Envelope? && file.payload.Payload? }

  /** What no call but `prepare` changes. */
  predicate SameRestore(a: Document, b: Document)
    requires a.Payload? && b.Payload?
  {
    a.schema == b.schema && a.binding == b.binding && a.manifestHash == b.manifestHash && a.volumes == b.volumes
  }

  lemma VerifyThenWord(w: seq<Action>)
    requires Word(w)
    ensures Word([Verify] + w)
  {
    var n :| 0 <= n <= |w| && (forall i :: 0 <= i < n ==> w[i] == Verify) && Ending(w[n..]);
    var v := [Verify] + w;
    assert v[n + 1..] == w[n..];
    assert forall i :: 0 <= i < n + 1 ==> v[i] == Verify;
  }

  lemma EndingIsWord(w: seq<Action>)
    requires Ending(w)
    ensures Word(w)
  {
    assert w[0..] == w;
  }

  /** One call: what it writes, and what it keeps. */
  lemma StepKeeps(sign: Sign, file: File, c: Call)
    requires Holds(file) && c.action != Prepare
    ensures var after := After(file, Step(sign, file, c));
            && Holds(after)
            && SameRestore(file.payload, after.payload)
            && NotBefore(after.payload.requiredThrough, file.payload.requiredThrough)
            && (Step(sign, file, c).Written? ==> after.payload.phase == NextPhase(c.action) && c.action != Check)
            && (Step(sign, file, c).Written? ==>
                  if c.action == Finish then file.payload.phase == Starting
                  else file.payload.phase == Restored || file.payload.phase == Verified)
            && (!Step(sign, file, c).Written? ==> after == file)
  {
  }

  /** From any receipt, whoever wrote it: over every run without a new `prepare` the accepted writes
      follow the phases, the restore stays the same one, and the cutoff never moves back. */
  lemma {:induction false} RunFollowsPhases(sign: Sign, file: File, calls: seq<Call>)
    requires Holds(file) && NoPrepare(calls)
    ensures var end := Run(sign, file, calls);
            && WordFrom(file.payload.phase, Writes(sign, file, calls))
            && Holds(end) && SameRestore(file.payload, end.payload)
            && NotBefore(end.payload.requiredThrough, file.payload.requiredThrough)
    decreases |calls|
  {
    if calls == [] {
      EndingIsWord([]);
    } else {
      var c := calls[0];
      StepKeeps(sign, file, c);
      var next := After(file, Step(sign, file, c));
      hide Step;
      RunFollowsPhases(sign, next, calls[1..]);
      var rest := Writes(sign, next, calls[1..]);
      if Step(sign, file, c).Written? {
        if c.action == Verify {
          VerifyThenWord(rest);
        } else if c.action == Start {
          EndingIsWord([Start] + rest);
        }
      } else {
        assert [] + rest == rest;
      }
    }
  }

  /** After an accepted `prepare`, in any file and with any later calls: the accepted writes are
      verified*, at most one starting, at most one complete; binding, manifest and volumes stay those
      of the `prepare`, and the cutoff is never below the one given then. */
  lemma PrepareThenWord(sign: Sign, before: File, prepare: Call, calls: seq<Call>)
    requires prepare.action == Prepare && Step(sign, before, prepare).Written? && NoPrepare(calls)
    ensures var file := After(before, Step(sign, before, prepare));
            var end := Run(sign, file, calls);
            && Word(Writes(sign, file, calls))
            && Holds(end)
            && end.payload.binding == prepare.binding
            && Some(end.payload.manifestHash) == prepare.manifest
            && Some(end.payload.volumes) == prepare.resources
            && NotBefore(end.payload.requiredThrough, prepare.required)
  {
    RunFollowsPhases(sign, After(before, Step(sign, before, prepare)), calls);
  }

  /** The cutoff never moves back between any two moments of such a run. */
  lemma CutoffMonotone(sign: Sign, file: File, calls: seq<Call>, i: nat, j: nat)
    requires Holds(file) && NoPrepare(calls) && i <= j <= |calls|
    ensures var a, b := Run(sign, file, calls[..i]), Run(sign, file, calls[..j]);
            Holds(a) && Holds(b) && NotBefore(b.payload.requiredThrough, a.payload.requiredThrough)
  {
    var early, late := calls[..i], calls[i..j];
    assert calls[..j] == early + late;
    RunSplit(sign, file, early, late);
    RunFollowsPhases(sign, file, early);
    RunFollowsPhases(sign, Run(sign, file, early), late);
  }

  lemma {:induction false} RunSplit(sign: Sign, file: File, early: seq<Call>, late: seq<Call>)
    ensures Run(sign, file, early + late) == Run(sign, Run(sign, file, early), late)
    decreases |early|
  {
    hide Step;
    if early == [] {
      assert early + late == late;
    } else {
      assert (early + late)[1..] == early[1..] + late;
      RunSplit(sign, After(file, Step(sign, file, early[0])), early[1..], late);
    }
  }

  /** A completed restore stays exactly as it is until a new `prepare`. */
  lemma {:induction false} CompleteIsFinal(sign: Sign, file: File, calls: seq<Call>)
    requires Holds(file) && NoPrepare(calls) && file.payload.phase == Complete
    ensures Writes(sign, file, calls) == [] && Run(sign, file, calls) == file
  {
    RunFollowsPhases(sign, file, calls);
    SilentRun(sign, file, calls);
  }

  lemma {:induction false} SilentRun(sign: Sign, file: File, calls: seq<Call>)
    requires Writes(sign, file, calls) == []
    ensures Run(sign, file, calls) == file
    decreases |calls|
  {
    if calls != [] {
      SilentRun(sign, file, calls[1..]);
    }
  }

  // ----- when a call is accepted, exactly -----

  /** What a call other than `prepare` needs, in terms of the file and of what the call finds. */
  predicate Acceptable(sign: Sign, file: File, c: Call) {
    && c.key.Some? && !c.required.Invalid?
    // an authentic receipt of this restore
    && file.Envelope? && file.signature == sign(c.key.value, file.payload)
    && file.payload.Payload? && file.payload.schema == 1 && file.payload.binding == c.binding
    // a recovery cutoff that is readable and not moved back
    && (file.payload.requiredThrough == Unset ||
        (file.payload.requiredThrough.Instant? && c.required.Instant? &&
         file.payload.requiredThrough.at <= c.required.at))
    // the phase, and the volumes as they were restored
    && (if c.action == Finish then file.payload.phase == Starting
        else file.payload.phase in {Restored, Verified} && c.resources == Some(file.payload.volumes))
  }

  /** A call other than `prepare` is accepted exactly when all of this holds; `check` then writes nothing,
      and the others write the same receipt with their phase and cutoff, signed with the same key. */
  lemma AcceptedExactly(sign: Sign, file: File, c: Call)
    requires c.action != Prepare
    ensures !Step(sign, file, c).Refused? <==> Acceptable(sign, file, c)
    ensures c.action == Check && Acceptable(sign, file, c) ==> Step(sign, file, c) == Checked
    ensures c.action != Check && Acceptable(sign, file, c) ==>
            var phase := match c.action case Verify => Verified case Start => Starting case _ => Complete;
            var p := file.payload;
            var q := Payload(1, p.binding, p.manifestHash, p.volumes, phase, c.required);
            Step(sign, file, c) == Written(Envelope(q, sign(c.key.value, q)))
  {
  }

  /** `prepare` is accepted exactly when manifest and volumes can be read and the manifest is the expected
      one; it writes a new receipt whatever the file held. */
  lemma PreparedExactly(sign: Sign, file: File, c: Call)
    requires c.action == Prepare
    ensures !Step(sign, file, c).Refused? <==>
            && c.key.Some? && !c.required.Invalid? && c.manifest.Some? && c.resources.Some?
            && (c.binding.expectedManifestHash == None || c.binding.expectedManifestHash == c.manifest)
    ensures !Step(sign, file, c).Refused? ==>
            var q := Payload(1, c.binding, c.manifest.value, c.resources.value, Restored, c.required);
            Step(sign, file, c) == Written(Envelope(q, sign(c.key.value, q)))
  {
  }

  /** Once other volumes are found than those of the `prepare`, every `check`, `verified` and `starting` is
      refused and writes nothing, at any moment until a new `prepare`. */
  lemma ChangedVolumesRefused(sign: Sign, before: File, prepare: Call, calls: seq<Call>, c: Call)
    requires prepare.action == Prepare && Step(sign, before, prepare).Written? && NoPrepare(calls)
    requires c.action == Check || c.action == Verify || c.action == Start
    requires c.resources != prepare.resources
    ensures var file := Run(sign, After(before, Step(sign, before, prepare)), calls);
            Step(sign, file, c).Refused? && After(file, Step(sign, file, c)) == file
  {
    hide Step, Run;
    var file := Run(sign, After(before, Step(sign, before, prepare)), calls);
    PrepareThenWord(sign, before, prepare, calls);
    AcceptedExactly(sign, file, c);
  }

  // ----- every word is possible -----

  /** A call in the unchanged situation of a receipt: the same key, binding and volumes, and a cutoff
      that is valid and not before the recorded one. */
  predicate Fitting(c: Call, key: string, p: Document)
    requires p.Payload?
  {
    c.key == Some(key) && c.binding == p.binding && c.resources == Some(p.volumes) && !c.required.Invalid? &&
    NotBefore(c.required, p.requiredThrough)
  }

  /** Calls that all carry one cutoff, in the situation of the receipt. */
  predicate AllFitting(calls: seq<Call>, key: string, p: Document, cutoff: Cutoff)
    requires p.Payload?
  {
    forall i :: 0 <= i < |calls| ==> Fitting(calls[i], key, p) && calls[i].required == cutoff
  }

  function Actions(calls: seq<Call>): seq<Action>
    decreases |calls|
  {
    if calls == [] then [] else [calls[0].action] + Actions(calls[1..])
  }

  predicate OnlyWrites(calls: seq<Call>) {
    forall i :: 0 <= i < |calls| ==> calls[i].action == Verify || calls[i].action == Start || calls[i].action == Finish
  }

  lemma WordTail(w: seq<Action>)
    requires Word(w) && w != []
    ensures w[0] == Verify ==> Word(w[1..])
    ensures w[0] != Verify ==> Ending(w)
  {
    var n :| 0 <= n <= |w| && (forall i :: 0 <= i < n ==> w[i] == Verify) && Ending(w[n..]);
    if n == 0 {
      assert w[0..] == w;
    } else {
      assert w[1..][n - 1..] == w[n..];
      assert forall i :: 0 <= i < n - 1 ==> w[1..][i] == Verify;
    }
  }

  /** In an unchanged situation the calls are all accepted exactly when their actions follow the phases. */
  lemma {:induction false} FittingCallsAccepted(sign: Sign, key: string, p: Document, calls: seq<Call>, cutoff: Cutoff)
    requires p.Payload? && p.schema == 1 && !p.requiredThrough.Invalid?
    requires AllFitting(calls, key, p, cutoff) && OnlyWrites(calls)
    ensures Writes(sign, Signed(sign, key, p), calls) == Actions(calls) <==> WordFrom(p.phase, Actions(calls))
    decreases |calls|
  {
    var file := Signed(sign, key, p);
    assert Holds(file) && NoPrepare(calls);
    RunFollowsPhases(sign, file, calls);
    if calls != [] && WordFrom(p.phase, Actions(calls)) {
      var c, rest := calls[0], calls[1..];
      AcceptedWhenFitting(sign, key, p, c, Actions(rest));
      var q := p.(requiredThrough := c.required, phase := NextPhase(c.action));
      assert AllFitting(rest, key, q, cutoff);
      FittingCallsAccepted(sign, key, q, rest, cutoff);
    }
  }

  lemma AcceptedWhenFitting(sign: Sign, key: string, p: Document, c: Call, rest: seq<Action>)
    requires p.Payload? && p.schema == 1 && !p.requiredThrough.Invalid? && Fitting(c, key, p)
    requires c.action == Verify || c.action == Start || c.action == Finish
    requires WordFrom(p.phase, [c.action] + rest)
    ensures Step(sign, Signed(sign, key, p), c) ==
            Written(Signed(sign, key, p.(requiredThrough := c.required, phase := NextPhase(c.action))))
    ensures WordFrom(NextPhase(c.action), rest)
  {
    var w := [c.action] + rest;
    assert w[1..] == rest && w[0] == c.action;
    if p.phase == Restored || p.phase == Verified {
      WordTail(w);
    }
  }

  // ----- authentication -----

  /** Signatures of different keys or payloads differ. */
  ghost predicate Unforgeable(sign: Sign) {
    forall k, p, l, q :: sign(k, p) == sign(l, q) ==> k == l && p == q
  }

  /** The file is no receipt signed with this key for this binding. */
  predicate NotFor(sign: Sign, file: File, key: string, binding: Binding) {
    file.Envelope? && file.payload.Payload? && file.payload.binding == binding ==>
      file.signature != sign(key, file.payload)
  }

  predicate PrepareFor(c: Call, key: string, binding: Binding) {
    c.action == Prepare && c.key == Some(key) && c.binding == binding
  }

  lemma StepNotFor(sign: Sign, file: File, c: Call, key: string, binding: Binding)
    requires Unforgeable(sign) && NotFor(sign, file, key, binding) && !PrepareFor(c, key, binding)
    ensures NotFor(sign, After(file, Step(sign, file, c)), key, binding)
    ensures c.key == Some(key) && c.binding == binding ==> Step(sign, file, c).Refused?
  {
  }

  /** No receipt comes from nothing: starting from any file that this key did not sign for this binding,
      over every run of calls without a `prepare` for that key and binding, whatever other keys and
      bindings write in between, every call with that key and binding is refused. */
  lemma {:induction false} NoReceiptWithoutPrepare(sign: Sign, file: File, calls: seq<Call>, c: Call, key: string)
    requires Unforgeable(sign) && NotFor(sign, file, key, c.binding)
    requires forall d :: d in calls ==> !PrepareFor(d, key, c.binding)
    requires c.key == Some(key) && c.action != Prepare
    ensures Step(sign, Run(sign, file, calls), c).Refused?
    decreases |calls|
  {
    hide Step, NotFor, PrepareFor, Unforgeable;
    if calls == [] {
      NotPrepare(c, key);
      StepNotFor(sign, file, c, key, c.binding);
    } else {
      assert calls[0] in calls;
      StepNotFor(sign, file, calls[0], key, c.binding);
      NoReceiptWithoutPrepare(sign, After(file, Step(sign, file, calls[0])), calls[1..], c, key);
    }
  }

  lemma NotPrepare(c: Call, key: string)
    requires c.action != Prepare
    ensures !PrepareFor(c, key, c.binding)
  {
  }

  /** A receipt prepared for one target, configuration or repository serves no other. */
  lemma OtherBindingRefused(sign: Sign, before: File, prepare: Call, calls: seq<Call>, c: Call)
    requires prepare.action == Prepare && Step(sign, before, prepare).Written? && NoPrepare(calls)
    requires c.action != Prepare && c.binding != prepare.binding
    ensures var file := Run(sign, After(before, Step(sign, before, prepare)), calls);
            Step(sign, file, c).Refused?
  {
    PrepareThenWord(sign, before, prepare, calls);
  }
}
