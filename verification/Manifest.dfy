/** The manifest of a backup (`tools/backup/manifest.py`): hashing files in pieces, creating the manifest
    and verifying a directory against it. The hash, the check of the bootstrap archive and the size of
    the written JSON text are parameters. */
module Manifest {
  import opened Text
  import Sorting
  import KeyFormat

  // ----- data -----

  type Hash = string -> string

  /** A directory entry: a regular file with its bytes, unchanged or not while it is read, a symbolic
      link to a regular file, a directory, or a device. */
  datatype Entry = Regular(content: string, steady: bool) | Link | Folder | Special

  /** The metadata of one file; None for a missing value or one of another type. */
  datatype Meta = Meta(size: Option<int>, sha256: Option<string>)

  datatype Document = Document(
    schemaVersion: Option<int>, sourceProject: Option<string>, createdAt: Option<string>,
    files: Option<map<string, Option<Meta>>>, keySha256: Option<string>)

  /** `manifest.json`: unreadable also covers links, size, duplicate keys and other JSON errors. */
  datatype ManifestFile = Absent | Unreadable | Parsed(document: Document)

  datatype Error =
    | ManifestUnreadable | SchemaUnsupported | TopologyMismatch | FingerprintMissing | KeyInvalid | KeyMismatch
    | SourceMismatch | TimestampMissing | FilesInvalid | InventoryIncomplete
    | MetadataNotObject(name: string) | MetadataInvalid(name: string)
    | FileUnreadable | FileNotRegular | FileChanged | SizeMismatch(name: string) | HashMismatch(name: string)
    | BootstrapRefused | CreateFailed

  /** What the caller gives to `verify` and `create`. */
  datatype Request = Request(sourceProject: string, topology: string, key: Option<string>, requireKey: bool)

  const LEGACY := "legacy"
  const EMDASH := "emdash"
  const BOOTSTRAP := "cms-bootstrap-state.tar"
  const REQUIRED_FILES: set<string> := {"core.dump", "rustfs-data.tar", "twenty-storage.tar", "twenty.dump"}
  const CMS_REQUIRED_FILES: set<string> := REQUIRED_FILES + {"emdash.dump", BOOTSTRAP}
  const OPTIONAL_FILES: set<string> := {"caddy-data.tar"}

  function Versions(topology: string): Option<int> {
    if topology == LEGACY then Some(1) else if topology == EMDASH then Some(2) else None
  }

  function RequiredFiles(version: int): set<string> {
    if version == 2 then CMS_REQUIRED_FILES else REQUIRED_FILES
  }

  type Entries = map<string, Entry>

  function Found(dir: Entries, name: string): Option<Entry> { if name in dir then Some(dir[name]) else None }

  // ----- one file -----

  datatype Digested = Digested(size: nat, sha256: string) | Failed(error: Error)

  function DigestOf(h: Hash, e: Option<Entry>): Digested {
    match e
    case Some(Regular(content, steady)) => if steady then Digested(|content|, h(content)) else Failed(FileChanged)
    case Some(Special) => Failed(FileNotRegular)
    case _ => Failed(FileUnreadable)
  }

  const CHUNK := 1048576

  /** `file_digest`: the pieces, in order, are the file. */
  method FileDigest(h: Hash, e: Option<Entry>) returns (r: Digested)
    ensures r == DigestOf(h, e)
  {
    if e.None? || e.value.Link? || e.value.Folder? { return Failed(FileUnreadable); }
    if e.value.Special? { return Failed(FileNotRegular); }
    var content := e.value.content;
    var hashed, size: nat := "", 0;
    var position := 0;
    while true
      invariant 0 <= position <= |content| && hashed == content[..position] && size == position
      decreases |content| - position
    {
      var end := if position + CHUNK <= |content| then position + CHUNK else |content|;
      var chunk := content[position..end];
      if chunk == "" { break; }
      hashed := hashed + chunk;
      size := size + |chunk|;
      position := end;
    }
    assert content[..|content|] == content;
    if !e.value.steady { return Failed(FileChanged); }
    r := Digested(size, h(hashed));
  }

  // ----- verify -----

  predicate UsableMeta(meta: Option<Meta>) {
    meta.Some? && meta.value.size.Some? && meta.value.size.value >= 0 &&
    meta.value.sha256.Some? && Hex64(meta.value.sha256.value)
  }

  function FileError(h: Hash, name: string, meta: Option<Meta>, e: Option<Entry>): Option<Error> {
    if meta.None? then Some(MetadataNotObject(name))
    else if !UsableMeta(meta) then Some(MetadataInvalid(name))
    else
      match DigestOf(h, e)
      case Failed(error) => Some(error)
      case Digested(size, sha256) =>
        if Some(size) != meta.value.size then Some(SizeMismatch(name))
        else if Some(sha256) != meta.value.sha256 then Some(HashMismatch(name))
        else None
  }

  /** The first error among the files, in the order of their names. */
  function FirstError(h: Hash, names: seq<string>, files: map<string, Option<Meta>>, dir: Entries): Option<Error>
    requires forall n :: n in names ==> n in files
  {
    if names == [] then None
    else
      var e := FileError(h, names[0], files[names[0]], Found(dir, names[0]));
      if e.Some? then e else FirstError(h, names[1..], files, dir)
  }

  function HeaderError(h: Hash, d: Document, q: Request): Option<Error> {
    if d.schemaVersion != Some(1) && d.schemaVersion != Some(2) then Some(SchemaUnsupported)
    else if d.schemaVersion != Versions(q.topology) then Some(TopologyMismatch)
    else if d.schemaVersion == Some(2) && (d.keySha256.None? || !Hex64(d.keySha256.value)) then Some(FingerprintMissing)
    else if d.schemaVersion == Some(2) && q.requireKey && KeyFormat.KeyFingerprint(q.key, h).None? then Some(KeyInvalid)
    else if d.schemaVersion == Some(2) && q.requireKey && KeyFormat.KeyFingerprint(q.key, h) != d.keySha256 then Some(KeyMismatch)
    else if d.sourceProject != Some(q.sourceProject) then Some(SourceMismatch)
    else if d.createdAt.None? || d.createdAt.value == "" then Some(TimestampMissing)
    else if d.files.None? then Some(FilesInvalid)
    else if d.files.value.Keys - OPTIONAL_FILES != RequiredFiles(d.schemaVersion.value) then Some(InventoryIncomplete)
    else None
  }

  type Bootstrap = Option<Entry> -> bool

  function VerifyError(h: Hash, bootstrap: Bootstrap, dir: Entries, m: ManifestFile, q: Request): Option<Error> {
    if !m.Parsed? then Some(ManifestUnreadable)
    else if HeaderError(h, m.document, q).Some? then HeaderError(h, m.document, q)
    else
      var files := m.document.files.value;
      var e := FirstError(h, Sorting.Listing(files.Keys), files, dir);
      if e.Some? then e
      else if m.document.schemaVersion == Some(2) && !bootstrap(Found(dir, BOOTSTRAP)) then Some(BootstrapRefused)
      else None
  }

  /** `verify` */
  method Verify(h: Hash, bootstrap: Bootstrap, dir: Entries, m: ManifestFile, q: Request) returns (error: Option<Error>)
    ensures error == VerifyError(h, bootstrap, dir, m, q)
  {
    if !m.Parsed? { return Some(ManifestUnreadable); }
    var d := m.document;
    error := HeaderError(h, d, q);
    if error.Some? { return; }
    var files := d.files.value;
    var names := Sorting.Listing(files.Keys);
    for i := 0 to |names|
      invariant FirstError(h, names, files, dir) == FirstError(h, names[i..], files, dir)
    {
      hide Hex64, HeaderError;
      var name := names[i];
      assert names[i..][1..] == names[i + 1..];
      if files[name].None? { return Some(MetadataNotObject(name)); }
      if !UsableMeta(files[name]) { return Some(MetadataInvalid(name)); }
      var digested := FileDigest(h, Found(dir, name));
      if digested.Failed? { return Some(digested.error); }
      if files[name].value.size != Some(digested.size) { return Some(SizeMismatch(name)); }
      if files[name].value.sha256 != Some(digested.sha256) { return Some(HashMismatch(name)); }
    }
    if d.schemaVersion == Some(2) && !bootstrap(Found(dir, BOOTSTRAP)) {
      return Some(BootstrapRefused);
    }
    error := None;
  }

  // ----- create -----

  predicate IsFile(dir: Entries, name: string) { name in dir && (dir[name].Regular? || dir[name].Link?) }

  function FilesToWrite(dir: Entries, topology: string): set<string> {
    RequiredFiles(if topology == EMDASH then 2 else 1) + set n | n in OPTIONAL_FILES && IsFile(dir, n)
  }

  function FirstUnreadable(h: Hash, names: seq<string>, dir: Entries): Option<Error> {
    if names == [] then None
    else
      match DigestOf(h, Found(dir, names[0]))
      case Failed(error) => Some(error)
      case Digested(_, _) => FirstUnreadable(h, names[1..], dir)
  }

  function MetaOf(h: Hash, dir: Entries, name: string): Option<Meta> {
    match DigestOf(h, Found(dir, name))
    case Digested(size, sha256) => Some(Meta(Some(size), Some(sha256)))
    case Failed(_) => None
  }

  function Metas(h: Hash, wanted: set<string>, dir: Entries): map<string, Option<Meta>> {
    map n | n in wanted :: MetaOf(h, dir, n)
  }

  function Written(h: Hash, dir: Entries, q: Request, now: string): Document {
    Document(Versions(q.topology), Some(q.sourceProject), Some(now),
             Some(Metas(h, FilesToWrite(dir, q.topology), dir)),
             if q.topology == EMDASH then KeyFormat.KeyFingerprint(q.key, h) else None)
  }

  /** The error before anything is written. */
  function CreateError(h: Hash, bootstrap: Bootstrap, dir: Entries, m: ManifestFile, q: Request): Option<Error> {
    if Versions(q.topology).None? then Some(TopologyMismatch)
    else if q.topology == EMDASH && KeyFormat.KeyFingerprint(q.key, h).None? then Some(KeyInvalid)
    else if q.topology == EMDASH && !bootstrap(Found(dir, BOOTSTRAP)) then Some(BootstrapRefused)
    else
      var e := FirstUnreadable(h, Sorting.Listing(FilesToWrite(dir, q.topology)), dir);
      if e.Some? then e else if m != Absent then Some(CreateFailed) else None
  }

  /** A backup directory: its archives and its manifest. */
  class Directory {
    var entries: Entries
    var manifest: ManifestFile

    /** `create`; `fits` tells whether the written text is within what `read_manifest` reads. */
    method Create(h: Hash, bootstrap: Bootstrap, q: Request, now: string, fits: Document -> bool) returns (error: Option<Error>)
      modifies this`manifest
      ensures var refused := CreateError(h, bootstrap, entries, old(manifest), q);
              var document := Written(h, entries, q, now);
              if refused.Some? then error == refused && manifest == old(manifest)
              else
                && manifest == (if fits(document) then Parsed(document) else Unreadable)
                && error == VerifyError(h, bootstrap, entries, manifest, q.(key := None, requireKey := false))
    {
      hide Versions, FirstUnreadable, FilesToWrite, MetaOf, VerifyError, KeyFormat.KeyFingerprint;
      if Versions(q.topology).None? { return Some(TopologyMismatch); }
      var fingerprint: Option<string> := None;
      if q.topology == EMDASH {
        fingerprint := KeyFormat.KeyFingerprint(q.key, h);
        if fingerprint.None? { return Some(KeyInvalid); }
        if !bootstrap(Found(entries, BOOTSTRAP)) { return Some(BootstrapRefused); }
      }
      var failed, files := DigestAll(h, FilesToWrite(entries, q.topology), entries);
      if failed.Some? { return failed; }
      if manifest != Absent { return Some(CreateFailed); }
      var document := Document(Versions(q.topology), Some(q.sourceProject), Some(now), Some(files), fingerprint);
      manifest := if fits(document) then Parsed(document) else Unreadable;
      error := Verify(h, bootstrap, entries, manifest, q.(key := None, requireKey := false));
    }
  }

  method DigestAll(h: Hash, wanted: set<string>, dir: Entries) returns (failed: Option<Error>, files: map<string, Option<Meta>>)
    ensures failed == FirstUnreadable(h, Sorting.Listing(wanted), dir)
    ensures failed.None? ==> files == Metas(h, wanted, dir)
  {
    hide MetaOf, Metas, DigestOf;
    var names := Sorting.Listing(wanted);
    files := map[];
    NoMetas(h, dir);
    assert names[..0] == [] && names[0..] == names;
    for i := 0 to |names|
      invariant FirstUnreadable(h, names, dir) == FirstUnreadable(h, names[i..], dir)
      invariant files == Metas(h, Members(names[..i]), dir)
    {
      var name := names[i];
      assert names[i..][1..] == names[i + 1..];
      assert names[..i + 1] == names[..i] + [name];
      var digested := FileDigest(h, Found(dir, name));
      if digested.Failed? { return Some(digested.error), files; }
      MetaDigested(h, dir, name);
      OneMoreMeta(h, names[..i], name, dir);
      files := files[name := Some(Meta(Some(digested.size), Some(digested.sha256)))];
    }
    failed := None;
    assert names[..|names|] == names;
    assert Members(names) == wanted;
  }

  function Members(names: seq<string>): set<string> { set n | n in names }

  lemma NoMetas(h: Hash, dir: Entries)
    ensures Metas(h, Members([]), dir) == map[]
  {
  }

  lemma OneMoreMeta(h: Hash, names: seq<string>, name: string, dir: Entries)
    ensures Metas(h, Members(names + [name]), dir) == Metas(h, Members(names), dir)[name := MetaOf(h, dir, name)]
  {
    hide MetaOf;
  }

  lemma MetaDigested(h: Hash, dir: Entries, name: string)
    requires DigestOf(h, Found(dir, name)).Digested?
    ensures var d := DigestOf(h, Found(dir, name)); MetaOf(h, dir, name) == Some(Meta(Some(d.size), Some(d.sha256)))
  {
  }

  // ----- what a fitting header is -----

  const LEGACY_LISTING: set<string> := {"core.dump", "twenty.dump", "rustfs-data.tar", "twenty-storage.tar"}
  const EMDASH_LISTING: set<string> := LEGACY_LISTING + {"cms-bootstrap-state.tar", "emdash.dump"}

  /** The manifest records the fingerprint of an acceptable key, of the given one where it is asked for. */
  predicate KeyFits(h: Hash, d: Document, q: Request) {
    && d.keySha256.Some? && Hex64(d.keySha256.value)
    && (q.requireKey ==> KeyFormat.KeyFingerprint(q.key, h).Some? && d.keySha256 == Some(h(q.key.value)))
  }

  predicate HeaderFits(h: Hash, d: Document, q: Request) {
    && ((q.topology == "legacy" && d.schemaVersion == Some(1)) ||
        (q.topology == "emdash" && d.schemaVersion == Some(2) && KeyFits(h, d, q)))
    && d.sourceProject == Some(q.sourceProject) && d.createdAt.Some? && d.createdAt.value != "" && d.files.Some?
    && var listed := d.files.value.Keys;
       var required := if q.topology == "legacy" then LEGACY_LISTING else EMDASH_LISTING;
       required <= listed <= required + {"caddy-data.tar"}
  }

  /** The header checks pass exactly when every part fits: version and topology together, the fingerprint,
      the source, the time and the list of files. */
  lemma HeaderExactly(h: Hash, d: Document, q: Request)
    ensures HeaderError(h, d, q).None? <==> HeaderFits(h, d, q)
  {
    hide RequiredFiles, KeyFormat.KeyFingerprint, Hex64, LEGACY_LISTING, EMDASH_LISTING;
    assert "legacy" != "emdash";
    FingerprintIsHash(q.key, h);
    if d.schemaVersion == Some(1) || d.schemaVersion == Some(2) {
      RequiredListing(d.schemaVersion.value);
      RequiredNotOptional(d.schemaVersion.value);
    }
  }

  lemma FingerprintIsHash(key: Option<string>, h: Hash)
    ensures KeyFormat.KeyFingerprint(key, h).Some? ==> key.Some? && KeyFormat.KeyFingerprint(key, h) == Some(h(key.value))
  {
    hide KeyFormat.MatchesKey, KeyFormat.Encode, KeyFormat.Decode;
  }

  lemma RequiredListing(version: int)
    ensures RequiredFiles(version) == if version == 2 then EMDASH_LISTING else LEGACY_LISTING
  {
  }

  // ----- what a verified directory is -----

  /** The entry is a regular file, unchanged while read, with the recorded size and hash. */
  predicate Matches(h: Hash, meta: Option<Meta>, e: Option<Entry>) {
    UsableMeta(meta) && e.Some? && e.value.Regular? && e.value.steady &&
    meta.value.size.value == |e.value.content| && meta.value.sha256.value == h(e.value.content)
  }

  ghost predicate ListedMatch(h: Hash, d: Document, dir: Entries) {
    d.files.Some? && forall n :: n in d.files.value ==> Matches(h, d.files.value[n], Found(dir, n))
  }

  lemma {:induction false} FirstErrorNone(h: Hash, names: seq<string>, files: map<string, Option<Meta>>, dir: Entries)
    requires forall n :: n in names ==> n in files
    ensures FirstError(h, names, files, dir).None? <==> forall n :: n in names ==> Matches(h, files[n], Found(dir, n))
  {
    hide Hex64;
    if names != [] {
      FirstErrorNone(h, names[1..], files, dir);
      assert forall n :: n in names <==> n == names[0] || n in names[1..];
    }
  }

  /** `verify` accepts exactly the directories that hold every listed file as recorded, under a manifest
      for this source and topology that lists all required files and at most the optional ones besides. */
  lemma VerifyAcceptsExactly(h: Hash, bootstrap: Bootstrap, dir: Entries, m: ManifestFile, q: Request)
    ensures VerifyError(h, bootstrap, dir, m, q).None? <==>
            && m.Parsed? && HeaderFits(h, m.document, q) && ListedMatch(h, m.document, dir)
            && (q.topology == EMDASH ==> bootstrap(Found(dir, BOOTSTRAP)))
  {
    hide FirstError, Matches, KeyFormat.KeyFingerprint, Hex64;
    if m.Parsed? { HeaderExactly(h, m.document, q); }
    hide HeaderFits;
    if m.Parsed? && HeaderError(h, m.document, q).None? {
      var files := m.document.files.value;
      FirstErrorNone(h, Sorting.Listing(files.Keys), files, dir);
    }
  }

  lemma AcceptedLists(h: Hash, bootstrap: Bootstrap, dir: Entries, m: ManifestFile, q: Request)
    requires VerifyError(h, bootstrap, dir, m, q).None?
    ensures m.Parsed? && m.document.files.Some? && Versions(q.topology).Some?
    ensures RequiredFiles(Versions(q.topology).value) <= m.document.files.value.Keys <=
            RequiredFiles(Versions(q.topology).value) + OPTIONAL_FILES
  {
    hide FirstError, KeyFormat.KeyFingerprint, Hex64, RequiredFiles;
  }

  /** Two directories accepted under the same manifest have the same bytes in every listed file, unless
      the hash collides on a pair of them: no listed archive can be exchanged unnoticed. */
  lemma VerifiedIsSameBackup(h: Hash, bootstrap: Bootstrap, a: Entries, b: Entries, m: ManifestFile, q: Request, r: Request, name: string)
    requires VerifyError(h, bootstrap, a, m, q).None? && VerifyError(h, bootstrap, b, m, r).None?
    requires m.Parsed? && m.document.files.Some? && name in m.document.files.value
    ensures name in a && name in b && a[name].Regular? && b[name].Regular?
    ensures a[name] == b[name] ||
            (a[name].content != b[name].content && h(a[name].content) == h(b[name].content) && |a[name].content| == |b[name].content|)
  {
    VerifyAcceptsExactly(h, bootstrap, a, m, q);
    VerifyAcceptsExactly(h, bootstrap, b, m, r);
    hide VerifyError, HeaderError, HeaderFits, Hex64;
    assert Matches(h, m.document.files.value[name], Found(a, name));
    assert Matches(h, m.document.files.value[name], Found(b, name));
  }

  /** A hash gives 64 lower-case hexadecimal digits. */
  ghost predicate HexHash(h: Hash) { forall s :: Hex64(h(s)) }

  lemma {:induction false} FirstUnreadableNone(h: Hash, names: seq<string>, dir: Entries)
    ensures FirstUnreadable(h, names, dir).None? <==> forall n :: n in names ==> DigestOf(h, Found(dir, n)).Digested?
  {
    if names != [] {
      FirstUnreadableNone(h, names[1..], dir);
      assert forall n :: n in names <==> n == names[0] || n in names[1..];
    }
  }

  lemma WrittenMatches(h: Hash, dir: Entries, name: string)
    requires HexHash(h) && DigestOf(h, Found(dir, name)).Digested?
    ensures Matches(h, MetaOf(h, dir, name), Found(dir, name))
  {
  }

  lemma WrittenHeader(h: Hash, dir: Entries, q: Request, now: string)
    requires HexHash(h) && now != "" && Versions(q.topology).Some?
    requires q.topology == EMDASH ==> KeyFormat.KeyFingerprint(q.key, h).Some?
    ensures HeaderError(h, Written(h, dir, q, now), q).None?
  {
    hide Hex64;
    var d := Written(h, dir, q, now);
    FilesAreRequired(dir, q.topology);
    assert d.files.value.Keys == FilesToWrite(dir, q.topology);
    if q.topology == EMDASH {
      assert d.keySha256 == Some(h(q.key.value));
    }
  }

  /** `create` writes exactly when the topology is known, its key and bootstrap archive are acceptable, every
      file to list is a steady regular file, and there is no manifest yet. */
  lemma CreateExactly(h: Hash, bootstrap: Bootstrap, dir: Entries, m: ManifestFile, q: Request)
    ensures CreateError(h, bootstrap, dir, m, q).None? <==>
            && (q.topology == "legacy" || q.topology == "emdash")
            && (q.topology == "emdash" ==> KeyFormat.KeyFingerprint(q.key, h).Some? && bootstrap(Found(dir, "cms-bootstrap-state.tar")))
            && m == Absent
            && forall n :: n in FilesToWrite(dir, q.topology) ==> n in dir && dir[n].Regular? && dir[n].steady
  {
    hide KeyFormat.KeyFingerprint, FilesToWrite;
    var wanted := FilesToWrite(dir, q.topology);
    FirstUnreadableNone(h, Sorting.Listing(wanted), dir);
    assert forall n :: n in Sorting.Listing(wanted) <==> n in wanted;
    hide FirstUnreadable;
    forall n ensures DigestOf(h, Found(dir, n)).Digested? <==> n in dir && dir[n].Regular? && dir[n].steady {}
  }

  /** The written manifest lists the files of the topology, and the certificates where the directory has them. */
  lemma WrittenLists(h: Hash, dir: Entries, q: Request, now: string)
    requires Versions(q.topology).Some?
    ensures var d := Written(h, dir, q, now);
            && d.createdAt == Some(now) && d.sourceProject == Some(q.sourceProject) && d.files.Some?
            && d.files.value.Keys ==
               (if q.topology == "legacy" then LEGACY_LISTING else EMDASH_LISTING) +
               (if IsFile(dir, "caddy-data.tar") then {"caddy-data.tar"} else {})
  {
    hide KeyFormat.KeyFingerprint, MetaOf, RequiredFiles, LEGACY_LISTING, EMDASH_LISTING, IsFile;
    RequiredListing(Versions(q.topology).value);
    ListedKeys(h, dir, q.topology);
    OptionalFiles(dir);
    TopologiesDiffer();
  }

  lemma TopologiesDiffer()
    ensures "legacy" != "emdash" && "legacy"[0] == 'l' && "emdash"[0] == 'e'
  {
  }

  lemma ListedKeys(h: Hash, dir: Entries, topology: string)
    ensures Metas(h, FilesToWrite(dir, topology), dir).Keys == FilesToWrite(dir, topology)
  {
    hide MetaOf, FilesToWrite;
  }

  lemma OptionalFiles(dir: Entries)
    ensures (set n | n in OPTIONAL_FILES && IsFile(dir, n)) == if IsFile(dir, "caddy-data.tar") then {"caddy-data.tar"} else {}
  {
    hide IsFile;
  }

  lemma FilesAreRequired(dir: Entries, topology: string)
    requires Versions(topology).Some?
    ensures FilesToWrite(dir, topology) - OPTIONAL_FILES == RequiredFiles(Versions(topology).value)
  {
    RequiredNotOptional(Versions(topology).value);
    var extra := set n | n in OPTIONAL_FILES && IsFile(dir, n);
    assert extra <= OPTIONAL_FILES;
    assert LEGACY != EMDASH;
  }

  lemma RequiredNotOptional(version: int)
    ensures RequiredFiles(version) * OPTIONAL_FILES == {}
  {
    Apart("caddy-data.tar", "core.dump", 1);
    Apart("caddy-data.tar", "rustfs-data.tar", 0);
    Apart("caddy-data.tar", "twenty-storage.tar", 0);
    Apart("caddy-data.tar", "twenty.dump", 0);
    Apart("caddy-data.tar", "emdash.dump", 0);
    Apart("caddy-data.tar", BOOTSTRAP, 1);
  }

  lemma Apart(a: string, b: string, i: nat)
    requires i < |a| && i < |b| && a[i] != b[i]
    ensures a != b
  {
  }

  /** Round trip: a manifest that `create` wrote is accepted by `verify` for the same source, topology and
      key, with and without the key being required, as long as its text is small enough to be read. */
  lemma CreatedIsVerified(h: Hash, bootstrap: Bootstrap, dir: Entries, m: ManifestFile, q: Request, now: string)
    requires HexHash(h) && now != ""
    requires CreateError(h, bootstrap, dir, m, q).None?
    ensures VerifyError(h, bootstrap, dir, Parsed(Written(h, dir, q, now)), q).None?
    ensures VerifyError(h, bootstrap, dir, Parsed(Written(h, dir, q, now)), q.(key := None, requireKey := false)).None?
  {
    hide VerifyError, HeaderError, HeaderFits, ListedMatch, FirstUnreadable, FilesToWrite, HexHash, Written, KeyFormat.KeyFingerprint;
    var d := Written(h, dir, q, now);
    var plain := q.(key := None, requireKey := false);
    WrittenHeader(h, dir, q, now);
    HeaderWithoutKey(h, d, q);
    HeaderExactly(h, d, q);
    HeaderExactly(h, d, plain);
    WrittenListed(h, dir, q, now);
    VerifyAcceptsExactly(h, bootstrap, dir, Parsed(d), q);
    VerifyAcceptsExactly(h, bootstrap, dir, Parsed(d), plain);
  }

  lemma WrittenListed(h: Hash, dir: Entries, q: Request, now: string)
    requires HexHash(h) && FirstUnreadable(h, Sorting.Listing(FilesToWrite(dir, q.topology)), dir).None?
    ensures ListedMatch(h, Written(h, dir, q, now), dir)
  {
    hide Matches, DigestOf, FilesToWrite, MetaOf, HexHash, KeyFormat.KeyFingerprint;
    var names := Sorting.Listing(FilesToWrite(dir, q.topology));
    FirstUnreadableNone(h, names, dir);
    forall n | n in FilesToWrite(dir, q.topology) ensures Matches(h, MetaOf(h, dir, n), Found(dir, n)) {
      assert n in names;
      WrittenMatches(h, dir, n);
    }
  }

  lemma HeaderWithoutKey(h: Hash, d: Document, q: Request)
    requires HeaderError(h, d, q).None?
    ensures HeaderError(h, d, q.(key := None, requireKey := false)).None?
  {
    hide Hex64, KeyFormat.KeyFingerprint, RequiredFiles;
  }

  /** With the key required, only a key with the recorded fingerprint is accepted: another key passes only
      where the hash collides on the two key texts. */
  lemma OnlyTheSameKey(h: Hash, bootstrap: Bootstrap, dir: Entries, q: Request, now: string, other: Request)
    requires q.topology == EMDASH && KeyFormat.KeyFingerprint(q.key, h).Some?
    requires other.requireKey && VerifyError(h, bootstrap, dir, Parsed(Written(h, dir, q, now)), other).None?
    ensures other.key.Some? && h(other.key.value) == h(q.key.value)
  {
    hide FirstError, Hex64, RequiredFiles;
    assert LEGACY != EMDASH;
  }

  /** A changed or added entry of an accepted directory goes unnoticed exactly when the manifest does not
      list it or records it as it now is, and the bootstrap archive still passes its own check. */
  lemma ChangeUnnoticedExactly(h: Hash, bootstrap: Bootstrap, dir: Entries, m: ManifestFile, q: Request, name: string, e: Entry)
    requires VerifyError(h, bootstrap, dir, m, q).None? && m.Parsed? && m.document.files.Some?
    ensures VerifyError(h, bootstrap, dir[name := e], m, q).None? <==>
            && (name in m.document.files.value ==> Matches(h, m.document.files.value[name], Some(e)))
            && (name == BOOTSTRAP && q.topology == EMDASH ==> bootstrap(Some(e)))
  {
    VerifyAcceptsExactly(h, bootstrap, dir, m, q);
    VerifyAcceptsExactly(h, bootstrap, dir[name := e], m, q);
    hide VerifyError, HeaderError, HeaderFits, Matches;
    forall n ensures Found(dir[name := e], n) == if n == name then Some(e) else Found(dir, n) {
    }
  }

  /** Files the manifest does not list are not looked at. */
  lemma UnlistedFileUnnoticed(h: Hash, bootstrap: Bootstrap, dir: Entries, m: ManifestFile, q: Request, name: string, e: Entry)
    requires VerifyError(h, bootstrap, dir, m, q).None? && name != BOOTSTRAP
    requires m.Parsed? && m.document.files.Some? && name !in m.document.files.value
    ensures VerifyError(h, bootstrap, dir[name := e], m, q).None?
  {
    hide VerifyError, Matches;
    ChangeUnnoticedExactly(h, bootstrap, dir, m, q, name, e);
  }
}
