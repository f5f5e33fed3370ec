/** The recursive artifact sanitizer of `tools/ci/sanitize_artifacts.py`. Library calls (ZIP, UTF-8,
    JSON, path suffix) and the checks that do not matter for the recursion are parameters. */
module Archive {
  import opened Text
  import Redaction
  import Phone

  const MAX_ARCHIVE_DEPTH := 4
  const MAX_ARCHIVE_ENTRIES := 2000
  const MAX_ARCHIVE_UNCOMPRESSED_BYTES := 134217728
  const MAX_TEXT_BYTES := 33554432

  /** `data` is None when the entry cannot be read. */
  datatype Entry = Entry(name: string, encrypted: bool, symlink: bool, fileSize: nat, data: Option<string>,
                         comment: string, extra: string)
  {
    predicate IsDir() { name != [] && name[|name| - 1] == '/' }
  }

  datatype Zip = Zip(comment: string, entries: seq<Entry>)

  datatype Json = Scalar | Array(items: seq<Json>) | Object(fields: seq<(string, Json)>)

  datatype Kind = Text | Private | Recording | Other

  datatype Library = Library(
    isZip: string -> bool, read: string -> Option<Zip>, write: Zip -> string,
    utf8: string -> bool, json: string -> Option<Json>, suffix: string -> string, kind: string -> Kind,
    layers: string -> string, mailOrCanary: string -> bool, privateKey: string -> bool)

  datatype Failure =
    TextTooLarge | NotUtf8 | Signature | JsonUnreadable | PrivateField | UnsafePath | TooDeep | TooManyEntries |
    DuplicatePath | Encrypted | Symlink | TooLarge | Corrupt | Opaque | NotAllowed

  datatype Outcome = Accepted(payload: string, checked: nat, replacements: nat) | Blocked(failure: Failure)

  datatype EntriesOutcome = Written(entries: seq<Entry>, checked: nat, replacements: nat) | Refused(failure: Failure)

  // ----- leaves -----

  /** `reject_private_signatures` */
  predicate HasSignature(lib: Library, t: string) {
    Phone.HasPhone(t) || lib.mailOrCanary(t)
  }

  /** `reject_private_json_fields` */
  predicate HasPrivateField(lib: Library, v: Json) {
    match v
    case Scalar => false
    case Array(items) => exists i :: 0 <= i < |items| && HasPrivateField(lib, items[i])
    case Object(fields) => exists i :: 0 <= i < |fields| && (lib.privateKey(fields[i].0) || HasPrivateField(lib, fields[i].1))
  }

  function Redacted(lib: Library, secrets: seq<Redaction.Secret>, data: string): string {
    lib.layers(Redaction.Redact(data, secrets).0)
  }

  function SanitizeText(lib: Library, secrets: seq<Redaction.Secret>, data: string, suffix: string): Outcome {
    if |data| > MAX_TEXT_BYTES then Blocked(TextTooLarge)
    else if !lib.utf8(data) then Blocked(NotUtf8)
    else
      var text := Redacted(lib, secrets, data);
      if HasSignature(lib, text) then Blocked(Signature)
      else if suffix == ".json" then
        var value := lib.json(text);
        if value.None? then Blocked(JsonUnreadable)
        else if HasPrivateField(lib, value.value) then Blocked(PrivateField)
        else Accepted(text, 1, Redaction.Redact(data, secrets).1)
      else Accepted(text, 1, Redaction.Redact(data, secrets).1)
  }

  /** `safe_archive_name` */
  predicate SafePath(name: string) {
    !StartsWith(name, "/") && ".." !in Split(name, '/') && Free(name, '\0') && Free(name, '\\')
  }

  // ----- the recursion -----

  function Room(depth: nat): nat { if depth <= MAX_ARCHIVE_DEPTH then MAX_ARCHIVE_DEPTH + 1 - depth else 0 }

  /** `sanitize_payload` */
  function SanitizePayload(lib: Library, secrets: seq<Redaction.Secret>, data: string, name: string, depth: nat): Outcome
    decreases 2 * Room(depth) + 1, 0
  {
    if lib.suffix(name) == ".zip" || lib.isZip(data) then SanitizeZip(lib, secrets, data, depth + 1)
    else if lib.kind(lib.suffix(name)) == Text then SanitizeText(lib, secrets, data, lib.suffix(name))
    else if lib.kind(lib.suffix(name)) == Other then Blocked(NotAllowed)
    else Blocked(Opaque)
  }

  /** `sanitize_zip_bytes` */
  function SanitizeZip(lib: Library, secrets: seq<Redaction.Secret>, data: string, depth: nat): Outcome
    decreases if depth > MAX_ARCHIVE_DEPTH then 0 else 2 * Room(depth) + 2, 0
  {
    if depth > MAX_ARCHIVE_DEPTH then Blocked(TooDeep)
    else if lib.read(data).None? then Blocked(Corrupt)
    else
      var zip := lib.read(data).value;
      var comment := if zip.comment == "" then Accepted("", 0, 0) else SanitizeText(lib, secrets, zip.comment, ".txt");
      if comment.Blocked? then comment
      else if |zip.entries| > MAX_ARCHIVE_ENTRIES then Blocked(TooManyEntries)
      else
        match SanitizeEntries(lib, secrets, zip.entries, {}, 0, depth)
        case Refused(f) => Blocked(f)
        case Written(entries, checked, replacements) =>
          Accepted(lib.write(Zip(comment.payload, entries)), 1 + comment.checked + checked, comment.replacements + replacements)
  }

  /** The checks of one entry before its content, in the order of the source. */
  function EntryFailure(lib: Library, e: Entry, seen: set<string>, total: nat): Option<Failure> {
    if !SafePath(e.name) then Some(UnsafePath)
    else if HasSignature(lib, e.name) then Some(Signature)
    else if e.name in seen then Some(DuplicatePath)
    else if e.encrypted then Some(Encrypted)
    else if e.symlink then Some(Symlink)
    else if total + e.fileSize > MAX_ARCHIVE_UNCOMPRESSED_BYTES then Some(TooLarge)
    else None
  }

  function SanitizeContent(lib: Library, secrets: seq<Redaction.Secret>, e: Entry, depth: nat): Outcome
    decreases 2 * Room(depth) + 1, 1
  {
    if e.IsDir() then Accepted("", 0, 0)
    else if e.data.None? then Blocked(Corrupt)
    else SanitizePayload(lib, secrets, e.data.value, e.name, depth)
  }

  /** What `writestr` stores: the new data with its size, and neither comment nor extra field. */
  function Rewritten(e: Entry, payload: string): Entry {
    e.(data := Some(payload), fileSize := |payload|, comment := "", extra := "")
  }

  function SanitizeEntries(lib: Library, secrets: seq<Redaction.Secret>, entries: seq<Entry>,
    seen: set<string>, total: nat, depth: nat): EntriesOutcome
    decreases 2 * Room(depth) + 1, |entries| + 2
  {
    if entries == [] then Written([], 0, 0)
    else
      var e := entries[0];
      var failure := EntryFailure(lib, e, seen, total);
      if failure.Some? then Refused(failure.value)
      else
        match SanitizeContent(lib, secrets, e, depth)
        case Blocked(f) => Refused(f)
        case Accepted(payload, checked, replacements) =>
          match SanitizeEntries(lib, secrets, entries[1..], seen + {e.name}, total + e.fileSize, depth)
          case Refused(f) => Refused(f)
          case Written(rest, c, r) => Written([Rewritten(e, payload)] + rest, checked + c, replacements + r)
  }

  // ----- the same as methods: the loop over the entries with its counters -----

  method SanitizePayloadBytes(lib: Library, secrets: seq<Redaction.Secret>, data: string, name: string, depth: nat) returns (o: Outcome)
    ensures o == SanitizePayload(lib, secrets, data, name, depth)
    decreases 2 * Room(depth) + 1, 0
  {
    if lib.suffix(name) == ".zip" || lib.isZip(data) {
      o := SanitizeZipBytes(lib, secrets, data, depth + 1);
    } else if lib.kind(lib.suffix(name)) == Text {
      o := SanitizeText(lib, secrets, data, lib.suffix(name));
    } else if lib.kind(lib.suffix(name)) == Other {
      o := Blocked(NotAllowed);
    } else {
      o := Blocked(Opaque);
    }
  }

  method SanitizeZipBytes(lib: Library, secrets: seq<Redaction.Secret>, data: string, depth: nat) returns (o: Outcome)
    ensures o == SanitizeZip(lib, secrets, data, depth)
    decreases if depth > MAX_ARCHIVE_DEPTH then 0 else 2 * Room(depth) + 2, 0
  {
    hide SanitizeText, SanitizeEntries;
    if depth > MAX_ARCHIVE_DEPTH {
      return Blocked(TooDeep);
    }
    if lib.read(data).None? {
      return Blocked(Corrupt);
    }
    var zip := lib.read(data).value;
    var comment := if zip.comment == "" then Accepted("", 0, 0) else SanitizeText(lib, secrets, zip.comment, ".txt");
    if comment.Blocked? {
      return comment;
    }
    if |zip.entries| > MAX_ARCHIVE_ENTRIES {
      return Blocked(TooManyEntries);
    }
    var target := WriteEntries(lib, secrets, zip.entries, depth);
    match target
    case Refused(f) => return Blocked(f);
    case Written(entries, checked, replacements) =>
      return Accepted(lib.write(Zip(comment.payload, entries)), 1 + comment.checked + checked, comment.replacements + replacements);
  }

  /** What is left to do after `done` entries, put behind what is done. */
  function Continue(done: seq<Entry>, checked: nat, replacements: nat, rest: EntriesOutcome): EntriesOutcome {
    match rest
    case Refused(f) => Refused(f)
    case Written(entries, c, r) => Written(done + entries, checked + c, replacements + r)
  }

  /** The loop over the entries: names seen so far, bytes so far, and the archive written so far. */
  method WriteEntries(lib: Library, secrets: seq<Redaction.Secret>, entries: seq<Entry>, depth: nat) returns (o: EntriesOutcome)
    ensures o == SanitizeEntries(lib, secrets, entries, {}, 0, depth)
    decreases 2 * Room(depth) + 1, |entries| + 2
  {
    hide SanitizeEntries, EntryFailure, SanitizePayload;
    var checked: nat, replacements: nat, total: nat := 0, 0, 0;
    var seen: set<string> := {};
    var target: seq<Entry> := [];
    ghost var whole := SanitizeEntries(lib, secrets, entries, {}, 0, depth);
    assert entries[0..] == entries;
    ContinueNothing(whole);
    for i := 0 to |entries|
      invariant whole == Continue(target, checked, replacements, SanitizeEntries(lib, secrets, entries[i..], seen, total, depth))
    {
      var e := entries[i];
      OneMoreEntry(lib, secrets, entries, i, target, checked, replacements, seen, total, depth);
      var failure := EntryFailure(lib, e, seen, total);
      if failure.Some? {
        return Refused(failure.value);
      }
      seen := seen + {e.name};
      total := total + e.fileSize;
      var result := Accepted("", 0, 0);
      if !e.IsDir() {
        if e.data.None? {
          return Refused(Corrupt);
        }
        result := SanitizePayloadBytes(lib, secrets, e.data.value, e.name, depth);
        if result.Blocked? {
          return Refused(result.failure);
        }
      }
      checked := checked + result.checked;
      replacements := replacements + result.replacements;
      target := target + [Rewritten(e, result.payload)];
    }
    NoMoreEntries(lib, secrets, entries, seen, total, depth);
    assert target + [] == target;
    o := Written(target, checked, replacements);
  }

  lemma ContinueNothing(rest: EntriesOutcome)
    ensures Continue([], 0, 0, rest) == rest
  {
    if rest.Written? {
      assert [] + rest.entries == rest.entries;
    }
  }

  lemma NoMoreEntries(lib: Library, secrets: seq<Redaction.Secret>, entries: seq<Entry>,
    seen: set<string>, total: nat, depth: nat)
    ensures SanitizeEntries(lib, secrets, entries[|entries|..], seen, total, depth) == Written([], 0, 0)
  {
  }

  lemma OneMoreEntry(lib: Library, secrets: seq<Redaction.Secret>, entries: seq<Entry>, i: nat,
                     done: seq<Entry>, checked: nat, replacements: nat, seen: set<string>, total: nat, depth: nat)
    requires i < |entries|
    ensures Continue(done, checked, replacements, SanitizeEntries(lib, secrets, entries[i..], seen, total, depth)) ==
            var e := entries[i];
            var failure := EntryFailure(lib, e, seen, total);
            if failure.Some? then Refused(failure.value)
            else
              match SanitizeContent(lib, secrets, e, depth)
              case Blocked(f) => Refused(f)
              case Accepted(payload, c, r) =>
                Continue(done + [Rewritten(e, payload)], checked + c, replacements + r,
                         SanitizeEntries(lib, secrets, entries[i + 1..], seen + {e.name}, total + e.fileSize, depth))
  {
    var e := entries[i];
    var rest := SanitizeEntries(lib, secrets, entries[i + 1..], seen + {e.name}, total + e.fileSize, depth);
    assert entries[i..][0] == e && entries[i..][1..] == entries[i + 1..];
    hide EntryFailure, SanitizeContent;
    var o := SanitizeContent(lib, secrets, e, depth);
    if o.Accepted? && rest.Written? {
      assert done + ([Rewritten(e, o.payload)] + rest.entries) == done + [Rewritten(e, o.payload)] + rest.entries;
    }
  }

  // ----- which trees are accepted -----

  predicate IsArchive(lib: Library, name: string, data: string) {
    lib.isZip(data) || lib.suffix(name) == ".zip"
  }

  /** The value at a path of positions. */
  function At(v: Json, path: seq<nat>): Option<Json> {
    if path == [] then Some(v)
    else
      match v
      case Scalar => None
      case Array(items) => if path[0] < |items| then At(items[path[0]], path[1..]) else None
      case Object(fields) => if path[0] < |fields| then At(fields[path[0]].1, path[1..]) else None
  }

  /** At the path stands an object whose field `i` has a private key. */
  predicate PrivateAt(lib: Library, v: Json, path: seq<nat>, i: nat) {
    var w := At(v, path);
    w.Some? && w.value.Object? && i < |w.value.fields| && lib.privateKey(w.value.fields[i].0)
  }

  ghost predicate HidesPrivate(lib: Library, v: Json) { exists path, i :: PrivateAt(lib, v, path, i) }

  /** The recursive search finds a private field exactly when one stands anywhere in the value. */
  lemma {:induction false} PrivateFieldExactly(lib: Library, v: Json)
    ensures HasPrivateField(lib, v) <==> HidesPrivate(lib, v)
  {
    if HasPrivateField(lib, v) {
      PrivateFound(lib, v);
    }
    if path, i :| PrivateAt(lib, v, path, i) {
      PrivateNoticed(lib, v, path, i);
    }
  }

  lemma {:induction false} PrivateFound(lib: Library, v: Json)
    requires HasPrivateField(lib, v)
    ensures HidesPrivate(lib, v)
  {
    match v
    case Array(items) =>
      var k: nat :| k < |items| && HasPrivateField(lib, items[k]);
      PrivateFound(lib, items[k]);
      var path, i :| PrivateAt(lib, items[k], path, i);
      assert ([k] + path)[1..] == path;
      assert PrivateAt(lib, v, [k] + path, i);
    case Object(fields) =>
      var k: nat :| k < |fields| && (lib.privateKey(fields[k].0) || HasPrivateField(lib, fields[k].1));
      if lib.privateKey(fields[k].0) {
        assert PrivateAt(lib, v, [], k);
      } else {
        PrivateFound(lib, fields[k].1);
        var path, i :| PrivateAt(lib, fields[k].1, path, i);
        assert ([k] + path)[1..] == path;
        assert PrivateAt(lib, v, [k] + path, i);
      }
  }

  lemma {:induction false} PrivateNoticed(lib: Library, v: Json, path: seq<nat>, i: nat)
    requires PrivateAt(lib, v, path, i)
    ensures HasPrivateField(lib, v)
    decreases |path|
  {
    if path != [] {
      match v
      case Array(items) => PrivateNoticed(lib, items[path[0]], path[1..], i);
      case Object(fields) => PrivateNoticed(lib, fields[path[0]].1, path[1..], i);
    }
  }

  /** The path climbs: one of its parts between slashes is `..`. */
  ghost predicate Climbs(name: string) {
    IsPart(name, '/', "..")
  }

  /** A path is safe exactly when it is relative, does not climb and has neither NUL nor backslash. */
  lemma SafePathExactly(name: string)
    ensures SafePath(name) <==>
            (name == "" || name[0] != '/') && !Climbs(name) && forall i :: 0 <= i < |name| ==> name[i] != '\0' && name[i] != '\\'
  {
    hide Split;
    PartExactly(name, '/', "..");
  }

  /** What a published text satisfies: no phone number, mail address or canary, and for JSON a readable
      value without a private key anywhere. */
  ghost predicate PublicText(lib: Library, text: string, suffix: string) {
    && !Phone.HasPhone(text) && !lib.mailOrCanary(text)
    && (suffix == ".json" ==> lib.json(text).Some? && !HidesPrivate(lib, lib.json(text).value))
  }

  ghost predicate AcceptableText(lib: Library, secrets: seq<Redaction.Secret>, data: string, suffix: string) {
    |data| <= MAX_TEXT_BYTES && lib.utf8(data) && PublicText(lib, lib.layers(Redaction.Redact(data, secrets).0), suffix)
  }

  function TotalSize(entries: seq<Entry>): nat {
    if entries == [] then 0 else TotalSize(entries[..|entries| - 1]) + entries[|entries| - 1].fileSize
  }

  predicate DistinctNames(entries: seq<Entry>) {
    forall i, j :: 0 <= i < j < |entries| ==> entries[i].name != entries[j].name
  }

  predicate AcceptableHeader(lib: Library, e: Entry) {
    SafePath(e.name) && !Phone.HasPhone(e.name) && !lib.mailOrCanary(e.name) && !e.encrypted && !e.symlink
  }

  /** The tree can be published with at most `levels` archive levels: a definition by the shape of the
      tree, without any order of processing. */
  ghost predicate Acceptable(lib: Library, secrets: seq<Redaction.Secret>, data: string, name: string, levels: nat)
    decreases levels
  {
    if IsArchive(lib, name, data) then
      levels > 0 && lib.read(data).Some? &&
      var zip := lib.read(data).value;
      && (zip.comment == "" || AcceptableText(lib, secrets, zip.comment, ".txt"))
      && |zip.entries| <= MAX_ARCHIVE_ENTRIES && DistinctNames(zip.entries)
      && TotalSize(zip.entries) <= MAX_ARCHIVE_UNCOMPRESSED_BYTES
      && forall i :: 0 <= i < |zip.entries| ==>
        AcceptableHeader(lib, zip.entries[i]) &&
        (zip.entries[i].IsDir() ||
         (zip.entries[i].data.Some? && Acceptable(lib, secrets, zip.entries[i].data.value, zip.entries[i].name, levels - 1)))
    else lib.kind(lib.suffix(name)) == Text && AcceptableText(lib, secrets, data, lib.suffix(name))
  }

  ghost predicate AcceptableContent(lib: Library, secrets: seq<Redaction.Secret>, e: Entry, levels: nat) {
    e.IsDir() || (e.data.Some? && Acceptable(lib, secrets, e.data.value, e.name, levels))
  }

  ghost predicate AcceptableEntries(lib: Library, secrets: seq<Redaction.Secret>, entries: seq<Entry>, levels: nat) {
    forall i :: 0 <= i < |entries| ==> AcceptableHeader(lib, entries[i]) && AcceptableContent(lib, secrets, entries[i], levels)
  }

  predicate FreshNames(entries: seq<Entry>, seen: set<string>) {
    DistinctNames(entries) && forall i :: 0 <= i < |entries| ==> entries[i].name !in seen
  }

  lemma TextVerdict(lib: Library, secrets: seq<Redaction.Secret>, data: string, suffix: string)
    ensures SanitizeText(lib, secrets, data, suffix).Accepted? <==> AcceptableText(lib, secrets, data, suffix)
    ensures var o := SanitizeText(lib, secrets, data, suffix);
            o.Accepted? ==>
              o.payload == lib.layers(Redaction.Redact(data, secrets).0) && o.checked == 1 &&
              o.replacements == Redaction.Redact(data, secrets).1
  {
    hide HasPrivateField, HidesPrivate, Phone.HasPhone, Redaction.Redact;
    var value := lib.json(Redacted(lib, secrets, data));
    if value.Some? {
      PrivateFieldExactly(lib, value.value);
    }
  }

  lemma {:induction false} TotalSizeCons(entries: seq<Entry>)
    requires entries != []
    ensures TotalSize(entries) == entries[0].fileSize + TotalSize(entries[1..])
  {
    var n := |entries| - 1;
    if n > 0 {
      TotalSizeCons(entries[..n]);
      assert entries[..n][1..] == entries[1..][..n - 1];
    } else {
      assert entries[..0] == [] && entries[1..] == [];
    }
  }

  lemma FreshCons(entries: seq<Entry>, seen: set<string>)
    requires entries != []
    ensures FreshNames(entries, seen) <==> entries[0].name !in seen && FreshNames(entries[1..], seen + {entries[0].name})
  {
    var tail := entries[1..];
    if FreshNames(entries, seen) {
      assert forall i :: 0 <= i < |tail| ==> tail[i] == entries[i + 1];
    }
    if entries[0].name !in seen && FreshNames(tail, seen + {entries[0].name}) {
      forall i, j | 0 <= i < j < |entries| ensures entries[i].name != entries[j].name {
        assert entries[j] == tail[j - 1];
        if i > 0 { assert entries[i] == tail[i - 1]; }
      }
      forall i | 0 <= i < |entries| ensures entries[i].name !in seen {
        if i > 0 { assert entries[i] == tail[i - 1]; }
      }
    }
  }

  lemma EntriesCons(lib: Library, secrets: seq<Redaction.Secret>, entries: seq<Entry>, levels: nat)
    requires entries != []
    ensures AcceptableEntries(lib, secrets, entries, levels) <==>
            AcceptableHeader(lib, entries[0]) && AcceptableContent(lib, secrets, entries[0], levels) &&
            AcceptableEntries(lib, secrets, entries[1..], levels)
  {
    hide AcceptableHeader, AcceptableContent;
    var tail := entries[1..];
    assert forall i :: 0 <= i < |tail| ==> tail[i] == entries[i + 1];
    assert forall i :: 1 <= i < |entries| ==> entries[i] == tail[i - 1];
  }

  /** Acceptance, both ways: a payload is accepted exactly when its tree is acceptable. */
  lemma {:induction false} PayloadVerdict(lib: Library, secrets: seq<Redaction.Secret>, data: string, name: string, depth: nat)
    requires depth <= MAX_ARCHIVE_DEPTH
    ensures SanitizePayload(lib, secrets, data, name, depth).Accepted? <==>
            Acceptable(lib, secrets, data, name, MAX_ARCHIVE_DEPTH - depth)
    decreases MAX_ARCHIVE_DEPTH - depth, 0
  {
    hide AcceptableText, SanitizeText, AcceptableHeader, SanitizeEntries, AcceptableEntries, DistinctNames, TotalSize;
    if IsArchive(lib, name, data) {
      if depth < MAX_ARCHIVE_DEPTH && lib.read(data).Some? {
        var zip := lib.read(data).value;
        TextVerdict(lib, secrets, zip.comment, ".txt");
        EntriesVerdict(lib, secrets, zip.entries, {}, 0, depth + 1);
        FreshNone(zip.entries);
        EntriesOfZip(lib, secrets, zip, MAX_ARCHIVE_DEPTH - depth - 1);
      }
    } else {
      TextVerdict(lib, secrets, data, lib.suffix(name));
    }
  }

  lemma FreshNone(entries: seq<Entry>)
    ensures FreshNames(entries, {}) <==> DistinctNames(entries)
  {
  }

  lemma EntriesOfZip(lib: Library, secrets: seq<Redaction.Secret>, zip: Zip, levels: nat)
    ensures AcceptableEntries(lib, secrets, zip.entries, levels) <==>
            forall i :: 0 <= i < |zip.entries| ==>
              AcceptableHeader(lib, zip.entries[i]) &&
              (zip.entries[i].IsDir() ||
               (zip.entries[i].data.Some? && Acceptable(lib, secrets, zip.entries[i].data.value, zip.entries[i].name, levels)))
  {
    hide AcceptableHeader, Acceptable;
  }

  lemma {:induction false} EntriesVerdict(lib: Library, secrets: seq<Redaction.Secret>, entries: seq<Entry>,
    seen: set<string>, total: nat, depth: nat)
    requires 1 <= depth <= MAX_ARCHIVE_DEPTH && total <= MAX_ARCHIVE_UNCOMPRESSED_BYTES
    ensures SanitizeEntries(lib, secrets, entries, seen, total, depth).Written? <==>
            AcceptableEntries(lib, secrets, entries, MAX_ARCHIVE_DEPTH - depth) && FreshNames(entries, seen) &&
            total + TotalSize(entries) <= MAX_ARCHIVE_UNCOMPRESSED_BYTES
    decreases MAX_ARCHIVE_DEPTH - depth, 1, |entries|
  {
    hide SanitizePayload, Acceptable, AcceptableEntries, FreshNames, TotalSize, Phone.HasPhone, SafePath;
    if entries == [] {
      NoEntries(lib, secrets, seen, MAX_ARCHIVE_DEPTH - depth);
    } else {
      var e := entries[0];
      EntriesCons(lib, secrets, entries, MAX_ARCHIVE_DEPTH - depth);
      FreshCons(entries, seen);
      TotalSizeCons(entries);
      if e.data.Some? {
        PayloadVerdict(lib, secrets, e.data.value, e.name, depth);
      }
      if total + e.fileSize <= MAX_ARCHIVE_UNCOMPRESSED_BYTES {
        EntriesVerdict(lib, secrets, entries[1..], seen + {e.name}, total + e.fileSize, depth);
      }
    }
  }

  lemma NoEntries(lib: Library, secrets: seq<Redaction.Secret>, seen: set<string>, levels: nat)
    ensures AcceptableEntries(lib, secrets, [], levels) && FreshNames([], seen) && TotalSize([]) == 0
  {
  }

  // ----- what is published -----

  /** A ZIP file keeps no longer archive comment; the library cuts it. */
  const MAX_COMMENT := 65535

  function Cut(comment: string): string { if |comment| <= MAX_COMMENT then comment else comment[..MAX_COMMENT] }

  /** What the sanitizer writes: readable entries with safe names and no entry comment or extra field. */
  predicate Storable(z: Zip) {
    forall i :: 0 <= i < |z.entries| ==>
      SafePath(z.entries[i].name) && z.entries[i].data.Some? && z.entries[i].comment == "" && z.entries[i].extra == ""
  }

  /** The same names, data, comments and extra fields of entries in the same order, and the archive
      comment, cut where it is too long. Sizes and flags of the headers are not compared. */
  predicate SameContents(read: Option<Zip>, z: Zip) {
    && read.Some? && |read.value.entries| == |z.entries|
    && read.value.comment == Cut(z.comment)
    && forall i :: 0 <= i < |z.entries| ==> SameEntry(read.value.entries[i], z.entries[i])
  }

  predicate SameEntry(a: Entry, b: Entry) {
    a.name == b.name && a.data == b.data && a.comment == b.comment && a.extra == b.extra
  }

  /** Reading back what the sanitizer writes gives its contents. */
  ghost predicate Faithful(lib: Library) {
    forall z :: Storable(z) ==> SameContents(lib.read(lib.write(z)), z)
  }

  /** The limits of an archive of its own: number of entries, and safe, distinct names without signature. */
  predicate WithinLimits(lib: Library, z: Zip) {
    && |z.entries| <= MAX_ARCHIVE_ENTRIES && DistinctNames(z.entries)
    && forall i :: 0 <= i < |z.entries| ==> SafePath(z.entries[i].name) && !Phone.HasPhone(z.entries[i].name) && !lib.mailOrCanary(z.entries[i].name)
  }

  /** The comment of a published archive is the redacted one, cut where it grew over the format's limit:
      public when it was not cut, and otherwise exactly when that prefix is. */
  ghost predicate PublishedComment(lib: Library, secrets: seq<Redaction.Secret>, before: string, after: string) {
    if before == "" then after == ""
    else
      var redacted := lib.layers(Redaction.Redact(before, secrets).0);
      after == Cut(redacted) && (|redacted| <= MAX_COMMENT ==> PublicText(lib, after, ".txt"))
  }

  /** A comment that fits the format can be redacted to one that passes the phone check and still exposes
      a number by being cut: the marker is longer than the secret. */
  lemma CutCommentExposes() returns (comment: string, secrets: seq<Redaction.Secret>)
    ensures |comment| <= MAX_COMMENT
    ensures var redacted := Redaction.Redact(comment, secrets).0;
            |redacted| > MAX_COMMENT && !Phone.HasPhone(redacted) && Phone.HasPhone(Cut(redacted))
  {
    var x := Redaction.Secret("API_TOKEN", "SSSSSSSS");
    TokenMarker(x);
    secrets, comment := [x], Numbered(x.value, MAX_COMMENT - 35, "1234567890123", "45678");
    hide *;
    GrownCommentExposes(x, MAX_COMMENT - 35, "1234567890123", "45678");
  }

  function Numbered(front: string, n: nat, d: string, tail: string): string {
    front + (Phone.Blanks(n) + " 0" + d + tail)
  }

  lemma TokenMarker(x: Redaction.Secret)
    requires x == Redaction.Secret("API_TOKEN", "SSSSSSSS")
    ensures |Redaction.Marker(x.key)| == 20 && Phone.Digitless(Redaction.Marker(x.key))
    ensures Redaction.Bracketless(x.value)
  {
    assert Redaction.Marker(x.key) == "[REDACTED:API_TOKEN]";
  }

  lemma GrownCommentExposes(x: Redaction.Secret, n: nat, d: string, tail: string)
    requires x.value != [] && Redaction.Bracketless(x.value) && x.value[0] != ' ' && !Phone.Digit(x.value[0])
    requires |Redaction.Marker(x.key)| + n + 15 == MAX_COMMENT && |x.value| + n + 15 + |tail| <= MAX_COMMENT
    requires Phone.Digitless(Redaction.Marker(x.key)) && |d| == 13 && d[0] != '0' && |tail| >= 5
    requires (forall i :: 0 <= i < 13 ==> Phone.Digit(d[i])) && forall i :: 0 <= i < |tail| ==> Phone.Digit(tail[i])
    ensures var comment := Numbered(x.value, n, d, tail);
            var redacted := Redaction.Redact(comment, [x]).0;
            && |comment| <= MAX_COMMENT < |redacted|
            && !Phone.HasPhone(redacted) && Phone.HasPhone(Cut(redacted))
  {
    hide Phone.HasPhone, Redaction.Redact, Redaction.Marker;
    var blanks, marker := Phone.Blanks(n), Redaction.Marker(x.key);
    var rest := blanks + " 0" + d + tail;
    forall i | 0 <= i < |rest| ensures rest[i] != x.value[0] {
      RestAt(blanks, d, tail, i);
    }
    FrontRedacted(x, rest);
    Phone.CutExposesNumber(marker + blanks, d, tail);
    assert marker + rest == (marker + blanks) + " 0" + d + tail;
  }

  lemma RestAt(blanks: string, d: string, tail: string, i: nat)
    requires i < |blanks + " 0" + d + tail| && forall k :: 0 <= k < |blanks| ==> blanks[k] == ' '
    requires (forall k :: 0 <= k < |d| ==> Phone.Digit(d[k])) && forall k :: 0 <= k < |tail| ==> Phone.Digit(tail[k])
    ensures var c := (blanks + " 0" + d + tail)[i]; c == ' ' || Phone.Digit(c)
  {
  }

  lemma FrontRedacted(x: Redaction.Secret, rest: string)
    requires x.value != [] && Redaction.Bracketless(x.value) && Free(rest, x.value[0])
    ensures Redaction.Redact(x.value + rest, [x]).0 == Redaction.Marker(x.key) + rest
  {
    var s, secrets := x.value + rest, [x];
    assert Find(s, x.value) == Some(0);
    assert s[..0] == "" && s[0 + |x.value|..] == rest && secrets[1..] == [];
    Redaction.RedactFirst(s, secrets);
    Redaction.RedactNone("");
    Redaction.RedactNone(Redaction.Marker(x.key));
    forall i ensures !Redaction.OccursAt(rest, x.value, i) {
      if 0 <= i < |rest| { assert rest[i..][0] == rest[i]; }
    }
    Redaction.RedactUntouched(rest, secrets);
  }

  /** The output tree of an input tree: at every level an archive within the limits, with the same entry
      names in the same order, directories empty, no entry comments or extra fields, and every leaf and
      archive comment redacted and public. */
  ghost predicate Published(lib: Library, secrets: seq<Redaction.Secret>, data: string, name: string, levels: nat, output: string)
    decreases levels
  {
    if IsArchive(lib, name, data) then
      levels > 0 && lib.read(data).Some? && lib.read(output).Some? &&
      var a, b := lib.read(data).value, lib.read(output).value;
      && WithinLimits(lib, b)
      && PublishedComment(lib, secrets, a.comment, b.comment)
      && |a.entries| == |b.entries|
      && forall i :: 0 <= i < |a.entries| ==> PublishedEntry(lib, secrets, a.entries[i], levels, b.entries[i])
    else output == lib.layers(Redaction.Redact(data, secrets).0) && PublicText(lib, output, lib.suffix(name))
  }

  ghost predicate PublishedEntry(lib: Library, secrets: seq<Redaction.Secret>, a: Entry, levels: nat, b: Entry)
    requires levels > 0
    decreases levels, 0
  {
    b.name == a.name && b.comment == "" && b.extra == "" && b.data.Some? &&
    if a.IsDir() then b.data.value == ""
    else a.data.Some? && Published(lib, secrets, a.data.value, a.name, levels - 1, b.data.value)
  }

  /** Main theorem: every accepted payload is published as required. */
  lemma {:induction false} AcceptedIsPublished(lib: Library, secrets: seq<Redaction.Secret>, data: string, name: string, depth: nat)
    requires Faithful(lib) && depth <= MAX_ARCHIVE_DEPTH
    requires SanitizePayload(lib, secrets, data, name, depth).Accepted?
    ensures Published(lib, secrets, data, name, MAX_ARCHIVE_DEPTH - depth, SanitizePayload(lib, secrets, data, name, depth).payload)
    decreases MAX_ARCHIVE_DEPTH - depth, 0
  {
    hide *;
    if IsArchive(lib, name, data) {
      AcceptedZip(lib, secrets, data, name, depth);
      PayloadVerdict(lib, secrets, data, name, depth);
      AcceptableZip(lib, secrets, data, name, MAX_ARCHIVE_DEPTH - depth);
      var zip := lib.read(data).value;
      WrittenArePublished(lib, secrets, zip.entries, {}, 0, depth + 1);
      ZipPublished(lib, secrets, zip, WrittenComment(lib, secrets, zip),
                   SanitizeEntries(lib, secrets, zip.entries, {}, 0, depth + 1).entries, MAX_ARCHIVE_DEPTH - depth);
      PublishedLevel(lib, secrets, data, name, MAX_ARCHIVE_DEPTH - depth, SanitizePayload(lib, secrets, data, name, depth).payload);
    } else {
      LeafPublished(lib, secrets, data, name, depth);
    }
  }

  lemma LeafPublished(lib: Library, secrets: seq<Redaction.Secret>, data: string, name: string, depth: nat)
    requires !IsArchive(lib, name, data) && depth <= MAX_ARCHIVE_DEPTH
    requires SanitizePayload(lib, secrets, data, name, depth).Accepted?
    ensures Published(lib, secrets, data, name, MAX_ARCHIVE_DEPTH - depth, SanitizePayload(lib, secrets, data, name, depth).payload)
  {
    hide SanitizeText, SanitizeZip, PublicText, Redaction.Redact;
    PublicOutput(lib, secrets, data, lib.suffix(name));
  }

  lemma PublishedLevel(lib: Library, secrets: seq<Redaction.Secret>, data: string, name: string, levels: nat, output: string)
    requires IsArchive(lib, name, data) && levels > 0 && lib.read(data).Some? && lib.read(output).Some?
    requires var a, b := lib.read(data).value, lib.read(output).value;
             && WithinLimits(lib, b) && PublishedComment(lib, secrets, a.comment, b.comment) && |a.entries| == |b.entries|
             && forall i :: 0 <= i < |a.entries| ==> PublishedEntry(lib, secrets, a.entries[i], levels, b.entries[i])
    ensures Published(lib, secrets, data, name, levels, output)
  {
    hide IsArchive, WithinLimits, PublishedComment, PublishedEntry;
  }

  function WrittenComment(lib: Library, secrets: seq<Redaction.Secret>, zip: Zip): string {
    if zip.comment == "" then ""
    else
      match SanitizeText(lib, secrets, zip.comment, ".txt")
      case Accepted(payload, _, _) => payload
      case Blocked(_) => ""
  }

  lemma AcceptedZip(lib: Library, secrets: seq<Redaction.Secret>, data: string, name: string, depth: nat)
    requires IsArchive(lib, name, data) && SanitizePayload(lib, secrets, data, name, depth).Accepted?
    ensures depth < MAX_ARCHIVE_DEPTH && lib.read(data).Some?
    ensures var zip := lib.read(data).value;
            var w := SanitizeEntries(lib, secrets, zip.entries, {}, 0, depth + 1);
            && w.Written? && (zip.comment != "" ==> SanitizeText(lib, secrets, zip.comment, ".txt").Accepted?)
            && SanitizePayload(lib, secrets, data, name, depth).payload ==
               lib.write(Zip(WrittenComment(lib, secrets, zip), w.entries))
  {
    hide SanitizeEntries, SanitizeText;
  }

  lemma AcceptableZip(lib: Library, secrets: seq<Redaction.Secret>, data: string, name: string, levels: nat)
    requires Acceptable(lib, secrets, data, name, levels) && IsArchive(lib, name, data)
    ensures levels > 0 && lib.read(data).Some? && WithinLimits(lib, lib.read(data).value)
  {
    hide AcceptableText, Phone.HasPhone, SafePath, DistinctNames, TotalSize;
  }

  /** One level: what was written for the entries of `zip` is read back within the limits. */
  lemma ZipPublished(lib: Library, secrets: seq<Redaction.Secret>, zip: Zip, comment: string, written: seq<Entry>, levels: nat)
    requires Faithful(lib) && levels > 0 && WithinLimits(lib, zip) && |written| == |zip.entries|
    requires comment == WrittenComment(lib, secrets, zip)
    requires zip.comment != "" ==> SanitizeText(lib, secrets, zip.comment, ".txt").Accepted?
    requires forall i :: 0 <= i < |written| ==> PublishedEntry(lib, secrets, zip.entries[i], levels, written[i])
    ensures var b := lib.read(lib.write(Zip(comment, written)));
            && b.Some? && WithinLimits(lib, b.value) && PublishedComment(lib, secrets, zip.comment, b.value.comment)
            && |b.value.entries| == |zip.entries|
            && forall i :: 0 <= i < |zip.entries| ==> PublishedEntry(lib, secrets, zip.entries[i], levels, b.value.entries[i])
  {
    hide PublicText, SanitizeText, Phone.HasPhone, SafePath, Published, Redaction.Redact;
    var z := Zip(comment, written);
    assert Storable(z) by {
      forall i | 0 <= i < |z.entries|
        ensures SafePath(z.entries[i].name) && z.entries[i].data.Some? && z.entries[i].comment == "" && z.entries[i].extra == ""
      {
        assert PublishedEntry(lib, secrets, zip.entries[i], levels, written[i]);
      }
    }
    var b := lib.read(lib.write(z));
    assert SameContents(b, z);
    forall i | 0 <= i < |zip.entries|
      ensures b.value.entries[i].name == zip.entries[i].name
      ensures PublishedEntry(lib, secrets, zip.entries[i], levels, b.value.entries[i])
    {
      assert PublishedEntry(lib, secrets, zip.entries[i], levels, written[i]);
      assert SameEntry(b.value.entries[i], written[i]);
    }
    if zip.comment != "" {
      TextVerdict(lib, secrets, zip.comment, ".txt");
      PublicOutput(lib, secrets, zip.comment, ".txt");
    }
  }

  lemma PublicOutput(lib: Library, secrets: seq<Redaction.Secret>, data: string, suffix: string)
    ensures var o := SanitizeText(lib, secrets, data, suffix);
            o.Accepted? ==> PublicText(lib, o.payload, suffix) && o.payload == lib.layers(Redaction.Redact(data, secrets).0)
  {
    TextVerdict(lib, secrets, data, suffix);
  }

  lemma {:induction false} WrittenArePublished(lib: Library, secrets: seq<Redaction.Secret>, entries: seq<Entry>,
    seen: set<string>, total: nat, depth: nat)
    requires Faithful(lib) && 1 <= depth <= MAX_ARCHIVE_DEPTH
    requires SanitizeEntries(lib, secrets, entries, seen, total, depth).Written?
    ensures var w := SanitizeEntries(lib, secrets, entries, seen, total, depth).entries;
            |w| == |entries| &&
            forall i :: 0 <= i < |entries| ==> PublishedEntry(lib, secrets, entries[i], MAX_ARCHIVE_DEPTH - depth + 1, w[i])
    decreases MAX_ARCHIVE_DEPTH - depth, 1, |entries|
  {
    hide Faithful, PublishedEntry;
    if entries != [] {
      var e := entries[0];
      WrittenArePublished(lib, secrets, entries[1..], seen + {e.name}, total + e.fileSize, depth);
      WrittenEntry(lib, secrets, e, depth);
      hide PublishedEntry, SanitizeContent, EntryFailure;
      var w := SanitizeEntries(lib, secrets, entries, seen, total, depth).entries;
      var rest := SanitizeEntries(lib, secrets, entries[1..], seen + {e.name}, total + e.fileSize, depth).entries;
      assert w == [Rewritten(e, SanitizeContent(lib, secrets, e, depth).payload)] + rest;
      forall i | 0 <= i < |entries| ensures PublishedEntry(lib, secrets, entries[i], MAX_ARCHIVE_DEPTH - depth + 1, w[i]) {
        if i > 0 { assert entries[i] == entries[1..][i - 1] && w[i] == rest[i - 1]; }
      }
    }
  }

  lemma {:induction false} WrittenEntry(lib: Library, secrets: seq<Redaction.Secret>, e: Entry, depth: nat)
    requires Faithful(lib) && 1 <= depth <= MAX_ARCHIVE_DEPTH
    requires SanitizeContent(lib, secrets, e, depth).Accepted?
    ensures PublishedEntry(lib, secrets, e, MAX_ARCHIVE_DEPTH - depth + 1,
                           Rewritten(e, SanitizeContent(lib, secrets, e, depth).payload))
    decreases MAX_ARCHIVE_DEPTH - depth, 1, 0
  {
    hide Published, SanitizePayload, Faithful;
    if !e.IsDir() {
      AcceptedIsPublished(lib, secrets, e.data.value, e.name, depth);
    }
  }

  // ----- no secret is published -----

  /** No leaf of the published tree holds a secret, and no archive comment, neither before nor after it is cut. */
  ghost predicate HoldsNoSecret(lib: Library, secrets: seq<Redaction.Secret>, data: string, name: string, levels: nat, output: string)
    decreases levels
  {
    if IsArchive(lib, name, data) then
      levels > 0 && lib.read(data).Some? && lib.read(output).Some? &&
      var a, b := lib.read(data).value, lib.read(output).value;
      && Redaction.Clean(b.comment, secrets)
      && (a.comment != "" ==> Redaction.Clean(lib.layers(Redaction.Redact(a.comment, secrets).0), secrets))
      && |a.entries| == |b.entries|
      && forall i :: 0 <= i < |a.entries| ==>
        b.entries[i].data.Some? && Redaction.Clean(b.entries[i].comment, secrets) &&
        if a.entries[i].IsDir() then b.entries[i].data.value == ""
        else
          a.entries[i].data.Some? &&
          HoldsNoSecret(lib, secrets, a.entries[i].data.value, a.entries[i].name, levels - 1, b.entries[i].data.value)
    else Redaction.Clean(output, secrets)
  }

  /** Shortening the layer names brings in no secret. */
  ghost predicate LayersKeepClean(lib: Library, secrets: seq<Redaction.Secret>) {
    forall s: string :: Redaction.Clean(s, secrets) ==> Redaction.Clean(lib.layers(s), secrets)
  }

  lemma RedactedClean(lib: Library, secrets: seq<Redaction.Secret>, s: string)
    requires Redaction.BracketlessSecrets(secrets) && Redaction.MarkersSafe(secrets) && LayersKeepClean(lib, secrets)
    ensures Redaction.Clean(lib.layers(Redaction.Redact(s, secrets).0), secrets)
  {
    hide Redaction.MarkersSafe, Redaction.Clean, Redaction.Redact;
    Redaction.LeaksNothing(secrets);
  }

  lemma PrefixOccurs(s: string, n: nat, p: string, i: int)
    requires n <= |s| && Redaction.OccursAt(s[..n], p, i)
    ensures Redaction.OccursAt(s, p, i)
  {
    assert s[i..] == s[..n][i..] + s[n..];
  }

  lemma PrefixClean(s: string, n: nat, secrets: seq<Redaction.Secret>)
    requires n <= |s| && Redaction.Clean(s, secrets)
    ensures Redaction.Clean(s[..n], secrets)
  {
    forall x | x in secrets ensures !Redaction.Occurs(s[..n], x.value) {
      if i :| Redaction.OccursAt(s[..n], x.value, i) {
        PrefixOccurs(s, n, x.value, i);
      }
    }
  }

  lemma EmptyClean(secrets: seq<Redaction.Secret>)
    requires Redaction.BracketlessSecrets(secrets)
    ensures Redaction.Clean("", secrets)
  {
  }

  lemma CommentClean(lib: Library, secrets: seq<Redaction.Secret>, before: string, after: string)
    requires Redaction.BracketlessSecrets(secrets) && Redaction.MarkersSafe(secrets) && LayersKeepClean(lib, secrets)
    requires PublishedComment(lib, secrets, before, after)
    ensures Redaction.Clean(after, secrets)
    ensures before != "" ==> Redaction.Clean(lib.layers(Redaction.Redact(before, secrets).0), secrets)
  {
    hide Redaction.MarkersSafe, Redaction.Clean, Redaction.Redact, Redaction.BracketlessSecrets, LayersKeepClean, PublicText;
    EmptyClean(secrets);
    RedactedClean(lib, secrets, before);
    var redacted := lib.layers(Redaction.Redact(before, secrets).0);
    if |redacted| > MAX_COMMENT {
      PrefixClean(redacted, MAX_COMMENT, secrets);
    }
  }

  /** When the markers are safe for the secrets, no content of the published tree holds a secret. */
  lemma {:induction false} PublishedHoldsNoSecret(lib: Library, secrets: seq<Redaction.Secret>,
    data: string, name: string, levels: nat, output: string)
    requires Redaction.BracketlessSecrets(secrets) && Redaction.MarkersSafe(secrets) && LayersKeepClean(lib, secrets)
    requires Published(lib, secrets, data, name, levels, output)
    ensures HoldsNoSecret(lib, secrets, data, name, levels, output)
    decreases levels
  {
    hide Redaction.MarkersSafe, Redaction.Clean, Redaction.Redact, Redaction.BracketlessSecrets, LayersKeepClean,
         IsArchive, WithinLimits, PublishedComment, PublicText;
    if IsArchive(lib, name, data) {
      var a, b := lib.read(data).value, lib.read(output).value;
      CommentClean(lib, secrets, a.comment, b.comment);
      EmptyClean(secrets);
      forall i | 0 <= i < |a.entries| && !a.entries[i].IsDir()
        ensures PublishedEntry(lib, secrets, a.entries[i], levels, b.entries[i])
        ensures HoldsNoSecret(lib, secrets, a.entries[i].data.value, a.entries[i].name, levels - 1, b.entries[i].data.value)
      {
        PublishedHoldsNoSecret(lib, secrets, a.entries[i].data.value, a.entries[i].name, levels - 1, b.entries[i].data.value);
      }
    } else {
      RedactedClean(lib, secrets, data);
    }
  }

  /** Main theorem: what the sanitizer accepts is written without any secret. */
  lemma AcceptedHoldsNoSecret(lib: Library, secrets: seq<Redaction.Secret>, data: string, name: string, depth: nat)
    requires Faithful(lib) && depth <= MAX_ARCHIVE_DEPTH
    requires Redaction.BracketlessSecrets(secrets) && Redaction.MarkersSafe(secrets) && LayersKeepClean(lib, secrets)
    requires SanitizePayload(lib, secrets, data, name, depth).Accepted?
    ensures HoldsNoSecret(lib, secrets, data, name, MAX_ARCHIVE_DEPTH - depth, SanitizePayload(lib, secrets, data, name, depth).payload)
  {
    hide *;
    AcceptedIsPublished(lib, secrets, data, name, depth);
    PublishedHoldsNoSecret(lib, secrets, data, name, MAX_ARCHIVE_DEPTH - depth, SanitizePayload(lib, secrets, data, name, depth).payload);
  }

  /** No entry name of the tree holds a secret. */
  ghost predicate NamesClean(lib: Library, secrets: seq<Redaction.Secret>, data: string, name: string, levels: nat)
    decreases levels
  {
    IsArchive(lib, name, data) ==>
      levels > 0 && lib.read(data).Some? &&
      forall i :: 0 <= i < |lib.read(data).value.entries| ==>
        var e := lib.read(data).value.entries[i];
        Redaction.Clean(e.name, secrets) &&
        (e.IsDir() || (e.data.Some? && NamesClean(lib, secrets, e.data.value, e.name, levels - 1)))
  }

  /** No entry name of the published tree holds a secret. */
  ghost predicate PublishedNamesClean(lib: Library, secrets: seq<Redaction.Secret>, data: string, name: string, levels: nat, output: string)
    requires Published(lib, secrets, data, name, levels, output)
    decreases levels
  {
    IsArchive(lib, name, data) ==>
      var a, b := lib.read(data).value, lib.read(output).value;
      forall i :: 0 <= i < |b.entries| ==>
        PublishedEntry(lib, secrets, a.entries[i], levels, b.entries[i]) &&
        Redaction.Clean(b.entries[i].name, secrets) &&
        (a.entries[i].IsDir() ||
         PublishedNamesClean(lib, secrets, a.entries[i].data.value, a.entries[i].name, levels - 1, b.entries[i].data.value))
  }

  /** Entry names are not redacted: the published names hold no secret exactly when those of the artifact
      hold none. */
  lemma {:induction false} NamesExactly(lib: Library, secrets: seq<Redaction.Secret>,
    data: string, name: string, levels: nat, output: string)
    requires Published(lib, secrets, data, name, levels, output)
    ensures PublishedNamesClean(lib, secrets, data, name, levels, output) <==> NamesClean(lib, secrets, data, name, levels)
    decreases levels
  {
    hide Redaction.Clean, Redaction.Redact, IsArchive, WithinLimits, PublishedComment, PublicText;
    if IsArchive(lib, name, data) {
      var a, b := lib.read(data).value, lib.read(output).value;
      forall i | 0 <= i < |a.entries| && !a.entries[i].IsDir()
        ensures PublishedEntry(lib, secrets, a.entries[i], levels, b.entries[i])
        ensures PublishedNamesClean(lib, secrets, a.entries[i].data.value, a.entries[i].name, levels - 1, b.entries[i].data.value) <==>
                NamesClean(lib, secrets, a.entries[i].data.value, a.entries[i].name, levels - 1)
      {
        NamesExactly(lib, secrets, a.entries[i].data.value, a.entries[i].name, levels - 1, b.entries[i].data.value);
      }
    }
  }

  /** A directory whose name is a secret is written under that name. */
  lemma NameKeepsSecret(lib: Library) returns (e: Entry, x: Redaction.Secret)
    requires !lib.mailOrCanary("QWERTZUI/")
    ensures SanitizeEntries(lib, [x], [e], {}, 0, 1) == Written([Rewritten(e, "")], 0, 0)
    ensures Redaction.Occurs(Rewritten(e, "").name, x.value)
  {
    hide SanitizeEntries, EntryFailure, SafePath, Phone.HasPhone, Redaction.Occurs;
    x := Redaction.Secret("API_TOKEN", "QWERTZUI");
    e := Entry("QWERTZUI/", false, false, 0, None, "", "");
    SafeDirectory(e.name);
    StartsWithSecret(e.name, x.value);
    DirectoryPasses(lib, e);
    OneDirectory(lib, [x], e);
  }

  lemma StartsWithSecret(name: string, value: string)
    requires name == value + "/"
    ensures Redaction.Occurs(name, value) && name[|name| - 1] == '/'
  {
    assert Redaction.OccursAt(name, value, 0);
  }

  lemma DirectoryPasses(lib: Library, e: Entry)
    requires SafePath(e.name) && !Phone.HasPhone(e.name) && !lib.mailOrCanary(e.name)
    requires !e.encrypted && !e.symlink && e.fileSize == 0 && e.name != [] && e.name[|e.name| - 1] == '/'
    ensures e.IsDir() && EntryFailure(lib, e, {}, 0).None?
  {
    hide SafePath, Phone.HasPhone;
  }

  lemma OneDirectory(lib: Library, secrets: seq<Redaction.Secret>, e: Entry)
    requires e.IsDir() && EntryFailure(lib, e, {}, 0).None?
    ensures SanitizeEntries(lib, secrets, [e], {}, 0, 1) == Written([Rewritten(e, "")], 0, 0)
  {
    hide EntryFailure;
    assert [e][1..] == [];
    assert SanitizeEntries(lib, secrets, [], {} + {e.name}, 0 + e.fileSize, 1) == Written([], 0, 0);
  }

  lemma SafeDirectory(name: string)
    requires name == "QWERTZUI/"
    ensures SafePath(name) && !Phone.HasPhone(name)
  {
    assert Free(name, '.') && Free(name, '\0') && Free(name, '\\') && Phone.Digitless(name) && name[0] == 'Q';
    hide Phone.HasPhone, Split;
    Phone.DigitlessIsNone(name);
    PointFree(name);
  }

  lemma PointFree(name: string)
    requires Free(name, '.')
    ensures ".." !in Split(name, '/')
  {
    hide Split, StandsAt;
    PartExactly(name, '/', "..");
    forall a, b ensures !StandsAt(name, '/', a, "..", b) {
      PointAt(name, a, b);
    }
  }

  lemma PointAt(name: string, a: string, b: string)
    ensures StandsAt(name, '/', a, "..", b) ==> |a| < |name| && name[|a|] == '.'
  {
  }

  // ----- how much is replaced -----

  /** Replacements over all leaves and nonempty archive comments of the tree. */
  function Replacements(lib: Library, secrets: seq<Redaction.Secret>, data: string, name: string, levels: nat): nat
    decreases levels, 0
  {
    if IsArchive(lib, name, data) then
      if levels == 0 || lib.read(data).None? then 0
      else
        var zip := lib.read(data).value;
        (if zip.comment == "" then 0 else Redaction.Redact(zip.comment, secrets).1) +
        EntryReplacements(lib, secrets, zip.entries, levels)
    else Redaction.Redact(data, secrets).1
  }

  function EntryReplacements(lib: Library, secrets: seq<Redaction.Secret>, entries: seq<Entry>, levels: nat): nat
    requires levels > 0
    decreases levels - 1, |entries| + 1
  {
    if entries == [] then 0
    else
      var e := entries[0];
      (if e.IsDir() || e.data.None? then 0 else Replacements(lib, secrets, e.data.value, e.name, levels - 1))
      + EntryReplacements(lib, secrets, entries[1..], levels)
  }

  /** `replacements` is the sum over all leaves and comments, at every depth. */
  lemma {:induction false} ReplacementsSummed(lib: Library, secrets: seq<Redaction.Secret>, data: string, name: string, depth: nat)
    requires depth <= MAX_ARCHIVE_DEPTH && SanitizePayload(lib, secrets, data, name, depth).Accepted?
    ensures SanitizePayload(lib, secrets, data, name, depth).replacements ==
            Replacements(lib, secrets, data, name, MAX_ARCHIVE_DEPTH - depth)
    decreases MAX_ARCHIVE_DEPTH - depth, 0
  {
    hide SanitizeText;
    if IsArchive(lib, name, data) {
      var zip := lib.read(data).value;
      TextVerdict(lib, secrets, zip.comment, ".txt");
      EntriesReplaced(lib, secrets, zip.entries, {}, 0, depth + 1);
      hide EntryReplacements, SanitizeEntries, Redaction.Redact;
    } else {
      TextVerdict(lib, secrets, data, lib.suffix(name));
    }
  }

  lemma {:induction false} EntriesReplaced(lib: Library, secrets: seq<Redaction.Secret>, entries: seq<Entry>,
    seen: set<string>, total: nat, depth: nat)
    requires 1 <= depth <= MAX_ARCHIVE_DEPTH
    requires SanitizeEntries(lib, secrets, entries, seen, total, depth).Written?
    ensures SanitizeEntries(lib, secrets, entries, seen, total, depth).replacements ==
            EntryReplacements(lib, secrets, entries, MAX_ARCHIVE_DEPTH - depth + 1)
    decreases MAX_ARCHIVE_DEPTH - depth, 1, |entries|
  {
    hide SanitizePayload, Replacements, EntryFailure;
    if entries != [] {
      var e := entries[0];
      if !e.IsDir() {
        ReplacementsSummed(lib, secrets, e.data.value, e.name, depth);
      }
      EntriesReplaced(lib, secrets, entries[1..], seen + {e.name}, total + e.fileSize, depth);
    }
  }

  // ----- how much is checked -----

  /** Archives, nonempty archive comments and leaves of the tree. */
  function Parts(lib: Library, data: string, name: string, levels: nat): nat
    decreases levels, 0
  {
    if IsArchive(lib, name, data) then
      if levels == 0 || lib.read(data).None? then 0
      else
        var zip := lib.read(data).value;
        1 + (if zip.comment == "" then 0 else 1) + EntryParts(lib, zip.entries, levels)
    else 1
  }

  function EntryParts(lib: Library, entries: seq<Entry>, levels: nat): nat
    requires levels > 0
    decreases levels - 1, |entries| + 1
  {
    if entries == [] then 0
    else
      var e := entries[0];
      (if e.IsDir() || e.data.None? then 0 else Parts(lib, e.data.value, e.name, levels - 1))
      + EntryParts(lib, entries[1..], levels)
  }

  /** Most parts of a tree with `levels` archive levels of at most 2000 entries each. */
  function MostParts(levels: nat): nat {
    if levels == 0 then 1 else 2 + MAX_ARCHIVE_ENTRIES * MostParts(levels - 1)
  }

  /** `checked` counts exactly the parts, and stays under the bound that the limits imply. */
  lemma {:induction false} CheckedCountsParts(lib: Library, secrets: seq<Redaction.Secret>, data: string, name: string, depth: nat)
    requires depth <= MAX_ARCHIVE_DEPTH && SanitizePayload(lib, secrets, data, name, depth).Accepted?
    ensures var checked := SanitizePayload(lib, secrets, data, name, depth).checked;
            checked == Parts(lib, data, name, MAX_ARCHIVE_DEPTH - depth) && checked <= MostParts(MAX_ARCHIVE_DEPTH - depth)
    decreases MAX_ARCHIVE_DEPTH - depth, 0
  {
    hide SanitizeText;
    if IsArchive(lib, name, data) {
      var zip := lib.read(data).value;
      TextVerdict(lib, secrets, zip.comment, ".txt");
      EntriesChecked(lib, secrets, zip.entries, {}, 0, depth + 1);
      MoreTimes(|zip.entries|, MAX_ARCHIVE_ENTRIES, MostParts(MAX_ARCHIVE_DEPTH - depth - 1));
      hide EntryParts, SanitizeEntries, Redaction.Redact;
    } else {
      TextVerdict(lib, secrets, data, lib.suffix(name));
      MostPartsPositive(MAX_ARCHIVE_DEPTH - depth);
    }
  }

  /** Four levels of at most 2000 entries: no artifact has more parts than this. */
  lemma CheckedAtMost(lib: Library, secrets: seq<Redaction.Secret>, data: string, name: string)
    requires SanitizePayload(lib, secrets, data, name, 0).Accepted?
    ensures SanitizePayload(lib, secrets, data, name, 0).checked <= 16016008004002
  {
    hide SanitizePayload, Parts;
    CheckedCountsParts(lib, secrets, data, name, 0);
    assert MostParts(1) == 2002 && MostParts(2) == 4004002 && MostParts(3) == 8008004002;
  }

  lemma MoreTimes(few: nat, many: nat, each: nat)
    requires few <= many
    ensures few * each <= many * each
  {
  }

  lemma {:induction false} MostPartsPositive(levels: nat)
    ensures MostParts(levels) >= 1
  {
    if levels > 0 {
      MostPartsPositive(levels - 1);
    }
  }

  lemma {:induction false} EntriesChecked(lib: Library, secrets: seq<Redaction.Secret>, entries: seq<Entry>,
    seen: set<string>, total: nat, depth: nat)
    requires 1 <= depth <= MAX_ARCHIVE_DEPTH
    requires SanitizeEntries(lib, secrets, entries, seen, total, depth).Written?
    ensures var checked := SanitizeEntries(lib, secrets, entries, seen, total, depth).checked;
            checked == EntryParts(lib, entries, MAX_ARCHIVE_DEPTH - depth + 1) &&
            checked <= |entries| * MostParts(MAX_ARCHIVE_DEPTH - depth)
    decreases MAX_ARCHIVE_DEPTH - depth, 1, |entries|
  {
    hide SanitizePayload, Parts, MostParts, EntryFailure;
    if entries != [] {
      var e := entries[0];
      if !e.IsDir() {
        CheckedCountsParts(lib, secrets, e.data.value, e.name, depth);
      }
      EntriesChecked(lib, secrets, entries[1..], seen + {e.name}, total + e.fileSize, depth);
      var most := MostParts(MAX_ARCHIVE_DEPTH - depth);
      assert |entries| * most == most + (|entries| - 1) * most;
    }
  }
}
