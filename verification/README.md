# LeonAid verification

Dafny models of the algorithms and state machines that keep LeonAid's CI, published artifacts, PWA
stylesheets, backups and database rows correct, with proofs of what they are relied on for. Check the
whole project with `dafny verify dfyconfig.toml`.

Code that works step by step is a method over the same variables, records or arrays, proved equal to a
function of its inputs; the lemmas are about that function. Code that only computes is a function.

- **Selecting CI suites** (`Regex`, `Glob`, `Selection`). The loop that translates a path glob into a
  regular expression preserves the meaning of the glob, segment by segment, also for paths with
  newlines. The selection is a union over the changed paths, ignores their order, fails closed, and its
  outputs lose nothing.
- **The gate** (`Gate`, `Workflow`, `Needs`, `Pipeline`). Slicing a workflow into jobs and reading the
  three forms of `needs` undo writing them. Selector, gate and gate check together: a green gate
  accounts for every job of the workflow whose identifier the workflow reader sees, those of lower-case
  letters, digits and hyphens.
- **Public artifacts** (`Redaction`, `Phone`, `Archive`). Sequential redaction leaks no secret, exactly
  when its markers do not; a phone match never overlaps a machine identifier; an archive is accepted
  exactly when its whole tree is acceptable, and what is published keeps names and order and holds no
  secret in its contents; phone numbers are found exactly in their documented forms.
- **Column queries** (`MediaList`, `WidthFeatures`, `ColumnQueries`). Splitting a media list undoes
  joining it, a condition is classified by exactly what is written in it, and the rewriting of `@media`
  rules preserves the cascade, nested rules included.
- **Keys, secrets, backups** (`KeyFormat`, `EnvFile`, `EnvLines`, `EnvTokens`, `Manifest`, `Inventory`,
  `RestoreState`). One key text for each 32-byte key; generating secrets twice changes nothing, and every
  new key gets the value drawn for it; a manifest pins the bytes of every listed file; a database digest
  names the tables and the multiset of rows of each; restore receipts follow their phases, and none is
  accepted for other volumes.
- **Bookkeeping** (`FlakeSummary`). Pagination returns the whole job list, and the tally over mutable
  records conserves failures.
- **Rows in the database** (`InvitationChain`, `InvitationBackfill`, `GeneratedDocument`). Over every run
  of inserts, updates and deletes of one or several rows, replacements stay a set of chains exactly when
  no batch of inserts holds a cycle and no change of keys leads the pointers around in one; statuses and
  snapshots stay, stored documents keep their object, sent ones never change. The data migrations
  establish the constraints they add exactly under stated conditions.

`Text` and `Sorting` hold what several models need: splitting, trimming, hexadecimal text, order by code
point.

## Where the code does less than its purpose

Each of these is a lemma with a concrete case, next to a lemma with the exact condition under which the
purpose is met.

- A secret that is spelled inside its own key name survives in its own marker
  (`Redaction.MarkerCanLeak`; exactly: `Redaction.LeaksNothing`).
- An empty query as the only viewport condition beside a width condition becomes an empty parameter
  list, which always applies (`ColumnQueries.DegenerateFails`; exactly: `ColumnQueries.RuleFaithful`).
  The comment at `apps/pwa/column-queries.ts:59-60` promises that other conditions are kept.
- A template that spells the CMS key as 64 hexadecimal digits is re-encoded only by the second run
  (`EnvFile.HexTemplateIsNotIdempotent`; exactly: `EnvFile.SecondRunByInputs`).
- A list without lines and one blank line have the same digest (exactly:
  `Inventory.DigestStandsForMultiset`); the row count of a table keeps them apart.
- A dotted schema name can hide a table behind the key of another (`Inventory.DottedSchemaHidesATable`;
  exactly: `Inventory.NothingHiddenWhateverTheRows`, `Inventory.CountIsExact`).
- `manifest.py` verifies the listed files only; an unlisted file stays unnoticed
  (`Manifest.UnlistedFileUnnoticed`; exactly: `Manifest.ChangeUnnoticedExactly`).
- One insert of two invitations that supersede each other is accepted and makes a cycle
  (`InvitationChain.TwoRowsMakeACycle`; exactly: `InvitationChain.BatchExactly`). So is one update that
  moves a key that is referred to from one row to another (`InvitationChain.TwoKeysMakeACycle`; exactly:
  `InvitationChain.KeyChangeExactly` and, for one such key, `InvitationChain.OneKeyTaken`). Over runs:
  `InvitationChain.ReplacementsAreChains`.
- A job whose identifier has a capital or an underscore is never reported as missing from the gate
  (`Needs.UnseenJobChangesNothing`; exactly: `Needs.CoverageExactly`).
- An archive comment that redaction makes longer than the format keeps is cut, and the cut can expose a
  phone number (`Archive.CutCommentExposes`; exactly: `Archive.AcceptedIsPublished`, the published
  comment is that prefix).
- Entry names of an archive are published as they are, also when they spell a secret
  (`Archive.NameKeepsSecret`; exactly: `Archive.NamesExactly`).
- A deleted document can become available again (`GeneratedDocument.DeletedCanReturn`; exactly:
  `GeneratedDocument.DeletedReturnsExactly`), and the storage migration fails exactly when some older
  document is not an invoice PDF (`GeneratedDocument.MigrationSucceedsForInvoices`).

## Model

| member | source | states |
|---|---|---|
| Glob.CompilePattern | tools/ci/select_suites.py:514-532 | the index loop terminates and builds the concatenation of the fragments of the pattern |
| Glob.CompilePreservesMeaning | tools/ci/select_suites.py:514-536 | for every pattern whose `**` are whole segments and every path, the expression accepts exactly what the segment-wise glob accepts: `*` within a segment, inner `**` zero or more segments, trailing `**` one or more, no newline in a spanned segment |
| Selection.FirstMatchWins | tools/ci/select_suites.py:545-551 | the first rule that matches decides suites and reason |
| Selection.MatchesBySegments | tools/ci/select_suites.py:535-536 | a path matches a list exactly when some pattern of it, wherever it stands, matches segment by segment |
| Selection.SelectPath | tools/ci/select_suites.py:545-551 | for patterns whose `**` are whole segments: the first rule with a pattern whose segments match the path gives the reason, and a suite is selected exactly when that rule, the path lists of `api` and `pins` (lines 589-596), or the lack of any rule asks for it |
| Selection.PathWanted | tools/ci/select_suites.py:545-596 | the suites of a path are exactly those that its first matching rule, `api`, `pins` or the lack of a rule ask for, all by segments |
| Selection.Select | tools/ci/select_suites.py:579-601 | the loop over the sorted, stripped, distinct paths computes the specified selection, both early returns included |
| Selection.SelectedExactly | tools/ci/select_suites.py:579-601 | of a readable diff a suite is selected exactly when some stripped path of it asks for the suite |
| Selection.UnionHomomorphism | tools/ci/select_suites.py:579-601 | on readable path lists the suites of two lists together are the union of the suites of each |
| Selection.OrderAndRepetition | tools/ci/select_suites.py:582-601 | the selection depends on the set of stripped paths only |
| Sorting.LeExactly | tools/ci/select_suites.py:582 | the order of sorted names is decided at their first difference, a prefix coming first |
| Selection.FailsClosed | tools/ci/select_suites.py:539-601 | any event but a pull request, an unreadable diff or one unmapped path selects everything, and `full` holds exactly when the set is everything |
| Selection.SuitesInside | tools/ci/select_suites.py:579-601 | no selection leaves the universe of suites |
| Selection.OutputsLossless | tools/ci/select_suites.py:561-576 | selections with equal outputs have equal suites and equal `full` |
| Selection.JsonListInjective | tools/ci/select_suites.py:562-563 | the JSON text of a list of names determines the list |
| Gate.Evaluate | tools/ci/gate.py:27-60 | both loops append exactly the specified rows |
| Gate.Verdict | tools/ci/gate.py:27-60 | all rows are ok exactly when the selector succeeded, every selectable job is a need, and every other need did what the selection allows; a missing output counts as selected |
| Gate.RowsExactly | tools/ci/gate.py:27-60 | the report has a row for each sorted need, with its name, its result, what was expected and whether that came, and then one for each sorted unlisted job |
| Gate.ParseSelectable | tools/ci/gate.py:63-72 | the loop computes the mapping or refuses |
| Gate.SelectableExactly | tools/ci/gate.py:63-72 | the arguments are accepted exactly when each is a nonempty job without equals sign, an equals sign and a nonempty key |
| Gate.SelectableRoundTrip | tools/ci/gate.py:63-72 | parsing written `job=key` arguments gives their dictionary, the last pair of a job winning |
| Workflow.SlicingRoundTrip | tools/ci/workflow_contract.py:118-133 | for every workflow text with distinct jobs, `jobs_of` lists the jobs and `job_block` returns each one's header and body |
| Needs.NeedsRoundTrip | tools/ci/workflow_contract.py:136-146 | in each of the three forms, reading the needs of a block gives back exactly the names written |
| Needs.CheckGate | tools/ci/workflow_contract.py:316-337 | no problem exactly when the gate has its title, runs after failures, evaluates its needs, and every job is exempt or needed; a reported list of missing jobs is the sorted list of exactly those that escape the gate |
| Needs.GateCovers | tools/ci/workflow_contract.py:332-336 | without a problem every job is outside the gate by name or needed by it |
| Needs.GateVerdict | tools/ci/workflow_contract.py:316-337 | the same verdict for the specified list of problems, both ways |
| Needs.SoundExactly | tools/ci/workflow_contract.py:316-337 | what a sound gate is, in its texts: title line, condition, command and environment stand in its block, and every job is one of the four exempt names or needed |
| Needs.ProblemsExactly | tools/ci/workflow_contract.py:316-337 | each problem is reported exactly for its reason, and only the missing title hides the others |
| Needs.CoverageExactly | tools/ci/workflow_contract.py:118-146 | for workflows with any job identifiers: only jobs with identifiers of `[a-z0-9-]+` are ever reported, and without problems all jobs are covered exactly when those with other identifiers are |
| Needs.UnseenJobChangesNothing | tools/ci/workflow_contract.py:118-133 | adding a job with another identifier behind any job but the gate changes no problem |
| Workflow.SeenJobs | tools/ci/workflow_contract.py:118-133 | of a workflow with any job identifiers exactly the matching ones are listed, in order |
| Pipeline.SeenNamesArePlain | tools/ci/workflow_contract.py:118 | the identifiers that the workflow reader sees are the plain names of lower-case letters, digits and hyphens |
| Pipeline.UnselectedMeansNoSuite | tools/ci/gate.py:24-51 | a selector output that is handed on reads as unselected exactly when no suite behind it is selected |
| Pipeline.KeyedJob | tools/ci/gate.py:46-51 | the gate waives a keyed job exactly when its key is handed on and the selection leaves it out; an unknown key, or one that is not handed on, counts as selected |
| Pipeline.NoSkippedJobHidesAFailure | tools/ci/workflow_contract.py:316-337 | with no gate problem and a green gate on any outputs handed on from `select`, every job outside the exempt names succeeded, or was skipped because its key was left out, or may skip; for other events than a pull request no keyed job was skipped |
| Pipeline.ForwardedRunAccounted | tools/ci/select_suites.py:561-576 | the same for a run whose `select` job hands on any choice of the outputs of the selector (`.github/workflows/select-suites.yml`, lines 7-42) |
| Redaction.RedactKnownSecrets | tools/ci/sanitize_artifacts.py:131-141 | the loop computes the redacted text and the count |
| Redaction.LeaksNothing | tools/ci/sanitize_artifacts.py:131-141 | for secrets and keys without square brackets: no text keeps a secret exactly when every marker that can appear is clean after the later secrets |
| Redaction.MarkerCanLeak | tools/ci/sanitize_artifacts.py:131-141 | a secret spelled in its own key survives |
| Redaction.RedactionIsInterval | tools/ci/sanitize_artifacts.py:131-141 | the intervals that are found from the left, secret by secret, account for result and count of every text exactly when no marker that can appear holds a later secret |
| Redaction.NoOtherIntervals | tools/ci/sanitize_artifacts.py:131-141 | for key names without brackets the same holds of any choice of disjoint intervals: some intervals account for every text exactly under that condition |
| Redaction.BodiesCleanSuffices | tools/ci/sanitize_artifacts.py:131-141 | when no marker body holds a secret, every text and every order of secrets comes out clean, as intervals and markers |
| Phone.NumberShape | tools/ci/sanitize_artifacts.py:69-74 | a match holds at most 18 digits, ends in a digit and holds no letter |
| Phone.NumberExactly | tools/ci/sanitize_artifacts.py:69-73 | the expression accepts exactly the numbers written over characters: `+49` or `0049`, any separators, an optional 0 with separators, or `0`, or `0)` with blanks; then 8 to 13 digits, the first not 0, with separators before the third and later ones |
| Phone.PhoneExactly | tools/ci/sanitize_artifacts.py:53-74 | a text holds a phone number exactly when such a number stands in it between open sides: no word character, no hexadecimal digit behind a hyphen, no digit behind a point |
| Phone.DocumentedFormsFound | tools/ci/sanitize_artifacts.py:53-74 | every documented form is found between blanks in any text |
| Phone.NoMatchOverlapsToken | tools/ci/sanitize_artifacts.py:58-74 | no match overlaps a hyphen-joined hexadecimal token with more than 18 hexadecimal digits, in any surrounding text |
| Phone.NoMatchOverlapsUuid | tools/ci/sanitize_artifacts.py:58-74 | no match overlaps a full 8-4-4-4-12 UUID between non-word bytes |
| Phone.NationalNumberFound | tools/ci/sanitize_artifacts.py:53-74 | a national number of 8 to 13 digits between blanks is found in any text |
| Archive.SanitizePayloadBytes | tools/ci/sanitize_artifacts.py:210-234 | terminates, and dispatches as specified |
| Archive.SanitizeZipBytes | tools/ci/sanitize_artifacts.py:237-312 | terminates by depth limit minus depth, and rewrites one archive as specified |
| Archive.WriteEntries | tools/ci/sanitize_artifacts.py:268-305 | the loop with its counters and seen names writes the specified entries or the first failure |
| Archive.TextVerdict | tools/ci/sanitize_artifacts.py:173-199 | a text is accepted exactly when size, encoding, signatures and JSON fields of its redacted form allow, and that form is what comes out, with the count of its replacements |
| Archive.PrivateFieldExactly | tools/ci/sanitize_artifacts.py:159-170 | the recursive search refuses a JSON value exactly when an object with a private key stands at some path in it |
| Archive.SafePathExactly | tools/ci/sanitize_artifacts.py:202-207 | an entry name is safe exactly when it is relative, has no `..` between slashes and neither NUL nor backslash |
| Archive.PayloadVerdict | tools/ci/sanitize_artifacts.py:210-312 | a payload is accepted exactly when its tree is acceptable by a definition without any order of processing: levels, entry limit, distinct safe names, sizes, leaves |
| Archive.AcceptedIsPublished | tools/ci/sanitize_artifacts.py:237-312 | an accepted payload is written as an archive that at every level keeps names and order, is itself within the limits (levels, entries, distinct safe names), holds no entry comments or extra fields, and whose leaves are the redacted ones and pass the checks; its comment is the redacted one, cut at what the format keeps, and passes them unless it was cut |
| Archive.AcceptedHoldsNoSecret | tools/ci/sanitize_artifacts.py:173-312 | when the markers are safe (as in `Redaction.LeaksNothing`) and shortening layer names brings in no secret: no leaf and no archive comment of the published tree, cut or not, holds a secret |
| Archive.NamesExactly | tools/ci/sanitize_artifacts.py:268-305 | entry names are not redacted: those of the published tree hold no secret exactly when those of the artifact hold none |
| Archive.NameKeepsSecret | tools/ci/sanitize_artifacts.py:268-287 | a directory whose name is a secret is written under that name |
| Archive.ReplacementsSummed | tools/ci/sanitize_artifacts.py:246-312 | `replacements` is the sum of the counts over all leaves and nonempty archive comments at every depth |
| Archive.CutCommentExposes | tools/ci/sanitize_artifacts.py:255-264 | a comment that fits the format is redacted to a longer one without phone number whose cut holds one |
| Archive.CheckedCountsParts | tools/ci/sanitize_artifacts.py:246-312 | `checked` is the number of archives, nonempty archive comments and leaves, and is under the bound of 2000 entries on each remaining level |
| Archive.CheckedAtMost | tools/ci/sanitize_artifacts.py:246-312 | no accepted artifact has more than 16016008004002 parts: four levels of 2000 entries |
| MediaList.SplitList | apps/pwa/column-queries.ts:102-118 | the loop over the characters computes the conditions |
| MediaList.SplitShape | apps/pwa/column-queries.ts:102-118 | every text splits into trimmed parts without top-level comma, a balanced text into balanced parts |
| MediaList.JoinThenSplit | apps/pwa/column-queries.ts:92-118 | splitting a joined list gives it back but for an empty last part, exactly |
| MediaList.SplitUndoesJoin | apps/pwa/column-queries.ts:92-118 | nonempty, trimmed, balanced parts without top-level comma come back unchanged |
| MediaList.WidthCondition | apps/pwa/column-queries.ts:31-40 | the loop over the conjuncts classifies a condition as specified; what that means is `WidthFeatures.KindExactly` |
| WidthFeatures.FeatureRead | apps/pwa/column-queries.ts:8-24 | each of the seven written forms, with any spaces, any case and any length text, is read as the bound it means |
| WidthFeatures.FeatureWritten | apps/pwa/column-queries.ts:8-24 | whatever is read as a feature is written in one of the seven forms |
| WidthFeatures.FeatureExactly | apps/pwa/column-queries.ts:8-24 | a text is read as a bound exactly when it is written in a form that means the bound |
| WidthFeatures.ConditionExactly | apps/pwa/column-queries.ts:31-38 | a condition has given bounds exactly when it is written with them: features with these meanings, joined by `and` in any case, with spaces around |
| WidthFeatures.KindExactly | apps/pwa/column-queries.ts:31-40 | "max" exactly for conditions written only in the three upper-bound forms, "other" exactly for the other conditions written in features, null for everything else |
| ColumnQueries.Keep | apps/pwa/column-queries.ts:78-83 | the filters keep the conditions of all kinds but one, in order |
| ColumnQueries.VisitMedia | apps/pwa/column-queries.ts:72-94 | the visitor rewrites one rule and its body as specified |
| ColumnQueries.WrittenHolds | apps/pwa/column-queries.ts:8-40 | a condition written in features holds at a width exactly when the width meets every one of them |
| ColumnQueries.RuleFaithful | apps/pwa/column-queries.ts:53-94 | the rewritten rule means what is intended in every environment exactly when the viewport list is not one empty query |
| ColumnQueries.DegenerateFails | apps/pwa/column-queries.ts:92-93 | in the excluded case an environment shows the difference |
| ColumnQueries.CascadePreserved | apps/pwa/column-queries.ts:65-98 | for every stylesheet, nested rules included, an element gets the intended declarations in order: width conditions judged at the column, others at the viewport, and outside the column exactly those not classified "other" |
| ColumnQueries.EqualWidths | apps/pwa/column-queries.ts:47-61 | in a column as wide as the viewport the intention is the unchanged stylesheet |
| ColumnQueries.NothingChangesAtEqualWidths | apps/pwa/column-queries.ts:65-98 | the rewriting then changes no declarations |
| ColumnQueries.MaxIsMonotone | apps/pwa/column-queries.ts:53-56 | an upper bound that holds at the viewport holds in the column |
| KeyFormat.DecodeEncode | tools/backup/manifest.py:41-51 | decoding undoes encoding (sections 3.5 and 5 of RFC 4648) |
| KeyFormat.EncodeDecode | tools/backup/manifest.py:45-50 | encoding undoes decoding exactly when no dropped bit is set |
| KeyFormat.EncodeTable | tools/backup/manifest.py:45-50 | every symbol is the one that the alphabet of section 5 of RFC 4648 has for its six bits of the 24-bit group |
| KeyFormat.AcceptsCanonicalKeys | tools/backup/manifest.py:41-51 | the accepted keys are exactly `emdash_enc_v1_` with the unpadded encoding of 32 bytes, and the fingerprint is the hash of the whole text |
| KeyFormat.OneTextPerKey | tools/backup/manifest.py:41-51 | different key bytes have different texts |
| KeyFormat.AcceptedByLastSymbol | tools/backup/manifest.py:34-50 | of the texts that match the pattern, those are accepted whose last symbol has its two spare bits clear |
| KeyFormat.UpgradedKeyAccepted | tools/dx/generate_secrets.py:93-99 | every 64-digit hexadecimal key is re-encoded to an accepted key with the same bytes |
| KeyFormat.HexDigits | tools/dx/generate_secrets.py:93-99 | every byte of a legacy key is its two hexadecimal digits, the high one first |
| KeyFormat.NeverLegacyAfter | tools/dx/generate_secrets.py:93-100 | a rewritten value is no legacy key |
| EnvFile.ParseEnv | tools/dx/generate_secrets.py:42-54 | the loop computes the values, or refuses a line without `=` and a second key |
| EnvLines.LinesExactly | tools/dx/generate_secrets.py:42-44 | a text has given lines exactly when it is these lines, each closed by a boundary, the last one optionally; a carriage return with a newline is one boundary |
| EnvLines.SkippedExactly | tools/dx/generate_secrets.py:44-47 | a line is skipped exactly when it is blank or a comment |
| EnvLines.LineExactly | tools/dx/generate_secrets.py:45-50 | a line gives a key and a value exactly when it is white space, the key without equals sign, an equals sign, the value, white space |
| EnvLines.ParseExactly | tools/dx/generate_secrets.py:42-54 | a file is read exactly when every line that is not skipped has a key of its own, and it then gives each key the value of its line and nothing else |
| EnvFile.DocumentLines | tools/dx/generate_secrets.py:83-115 | splitting rendered lines gives the lines back |
| EnvFile.GenerateSecrets | tools/dx/generate_secrets.py:57-133 | the loops compute the specified outcome: error, current, or the new content |
| EnvTokens.RunFailsExactly | tools/dx/generate_secrets.py:57-121 | a run fails exactly for an unreadable template or file, an unknown key in the file, a missing host port, or a token left in the rendered text |
| EnvTokens.RenderFailsExactly | tools/dx/generate_secrets.py:82-112 | rendering fails exactly when a new key wants a host port whose variable is missing or no number |
| EnvTokens.UnresolvedExactly | tools/dx/generate_secrets.py:116-121 | a text is refused exactly when some `__GENERATE_...__` with a nonempty body of capitals, digits and underscores stands in it |
| EnvTokens.SubstituteExactly | tools/dx/generate_secrets.py:112-113 | every occurrence of a token is replaced, each by a value drawn for it alone, and the text in between is kept |
| EnvTokens.GeneratedValue | tools/dx/generate_secrets.py:102-114 | a new key with one token has, after the run, the value drawn for its own line and token, within the text around the token |
| EnvTokens.PortValue | tools/dx/generate_secrets.py:103-111 | a new host port is the host variable of the same name, and is made of digits only |
| EnvTokens.PlainValue | tools/dx/generate_secrets.py:102-114 | a new key without tokens has the value of the template |
| EnvFile.RunKeepsValues | tools/dx/generate_secrets.py:82-114 | after a successful run the file has the template's keys and every existing value, a legacy CMS key in its re-encoding |
| EnvFile.SecondRun | tools/dx/generate_secrets.py:82-125 | whatever the random values and the host, the second run writes nothing exactly when the first left no legacy CMS key |
| EnvFile.SecondRunByInputs | tools/dx/generate_secrets.py:82-125 | the same in terms of the inputs of the first run: exactly when it does not fill in a new CMS key that is 64 hexadecimal digits |
| EnvFile.ExistingKeyIsSafe | tools/dx/generate_secrets.py:89-100 | a file that has the CMS key never meets the exception |
| EnvFile.SafeTemplateIsIdempotent | tools/dx/generate_secrets.py:82-125 | for a template whose CMS value is no hexadecimal text every successful run is idempotent, from any file |
| EnvFile.HexTemplateIsNotIdempotent | tools/dx/generate_secrets.py:93-114 | for a hexadecimal template value the second run writes again |
| Manifest.FileDigest | tools/backup/manifest.py:85-107 | the pieces read make up the file: size and hash of the whole content, or the error |
| Manifest.Verify | tools/backup/manifest.py:110-161 | the checks and the loop over the sorted names give the first error |
| Manifest.HeaderExactly | tools/backup/manifest.py:119-138 | the header checks pass exactly when version and topology belong together, the fingerprint is there and is that of the required key, the source is the same, the time is there, and the listed files are those of the topology with at most the certificates besides |
| Manifest.VerifyAcceptsExactly | tools/backup/manifest.py:110-161 | accepted exactly when every part of the header fits and every listed file is a steady regular file with the recorded size and hash, in any order of checking |
| Manifest.AcceptedLists | tools/backup/manifest.py:135-138 | an accepted manifest lists all required files and at most the optional ones besides |
| Manifest.VerifiedIsSameBackup | tools/backup/manifest.py:139-155 | two directories accepted under one manifest agree on every listed file unless the hash collides on the pair |
| Manifest.DigestAll | tools/backup/manifest.py:181-185 | the loop records size and hash of every file, or the first error |
| Manifest.Directory.Create | tools/backup/manifest.py:164-204 | writes the manifest only when nothing refuses, never over an existing one, and returns its verification |
| Manifest.CreateExactly | tools/backup/manifest.py:172-202 | a manifest is written exactly when topology, key and bootstrap archive are acceptable, every file to list is a steady regular file, and there is none yet |
| Manifest.WrittenLists | tools/backup/manifest.py:181-193 | it lists the files of the topology, and the certificates exactly where the directory has them, for the given source and time |
| Manifest.CreatedIsVerified | tools/backup/manifest.py:164-204 | a created manifest is accepted for the same source, topology and key, with and without the key required |
| Manifest.OnlyTheSameKey | tools/backup/manifest.py:124-129 | with the key required another key passes only where the hash collides |
| Manifest.ChangeUnnoticedExactly | tools/backup/manifest.py:135-160 | a changed or added entry goes unnoticed exactly when the manifest does not list it or records it as it now is, and the bootstrap archive still passes |
| Manifest.UnlistedFileUnnoticed | tools/backup/manifest.py:135-155 | adding or changing an unlisted file changes no verdict |
| Inventory.DigestStandsForMultiset | tools/backup/inventory.py:43-45 | equal digests of newline-free lists mean permutations, the blank pair, or a collision on the two payloads |
| Inventory.LineInjective | tools/backup/inventory.py:189-194 | the line of a table determines key, row count and digest, colons in the key included |
| Inventory.Collect | tools/backup/inventory.py:161-176 | the loop fills tables and public names; the dictionary order is a listing of the keys |
| Inventory.DatabaseInventory | tools/backup/inventory.py:146-199 | the result is the specified inventory or the sorted missing tables, independent of the order of the dictionary |
| Inventory.MissingExactly | tools/backup/inventory.py:182-185 | the inventory is refused exactly when a critical table is missing from the public schema, and names all missing ones in order |
| Inventory.DatabaseDigestStandsForContents | tools/backup/inventory.py:146-199 | without a collision between them, two databases have equal digests exactly when they have the same keys with the same multisets of rows |
| Inventory.CompareFindsEveryDifference | tools/backup/inventory.py:332-340 | the comparison of two captured databases that hold the critical tables succeeds exactly when they have the same keys with the same multisets of rows, unless the hash collides on a table |
| Inventory.CountIsExact | tools/backup/inventory.py:171-195 | the table count is the number of tables exactly when no two tables share a key |
| Inventory.NothingHiddenExactly | tools/backup/inventory.py:171-174 | on given rows every table counts with its own exactly when tables that share a key have the same rows |
| Inventory.NothingHiddenWhateverTheRows | tools/backup/inventory.py:171-174 | every table counts with its own rows, whatever they are, exactly when no two tables share a key |
| Inventory.DotFreeSchemas | tools/backup/inventory.py:171-174 | different tables of schemas without a dot meet that condition |
| Inventory.DottedSchemaHidesATable | tools/backup/inventory.py:171-174 | two tables can share a key, and the rows of the first do not count |
| RestoreState.Store.Receipt | tools/backup/restore-state.py:120-183 | one call gives the specified outcome, and the file changes only when it is written |
| RestoreState.AcceptedExactly | tools/backup/restore-state.py:139-183 | a call other than `prepare` is accepted exactly for an authentic receipt of the same binding, a cutoff not moved back, an allowed phase and, unless it is `complete`, the volumes of the receipt; it then writes that receipt with its own phase and cutoff |
| RestoreState.PreparedExactly | tools/backup/restore-state.py:120-134 | `prepare` is accepted exactly when manifest and volumes can be read and the manifest is the expected one, and writes a new receipt whatever the file held |
| RestoreState.ChangedVolumesRefused | tools/backup/restore-state.py:161-164 | once other volumes are found than at the `prepare`, every `check`, `verified` and `starting` is refused at any moment until a new `prepare` |
| RestoreState.StepKeeps | tools/backup/restore-state.py:139-183 | one accepted call moves the phase forward, keeps the restore and does not lower the cutoff; `check` and refusals write nothing |
| RestoreState.PrepareThenWord | tools/backup/restore-state.py:120-183 | after a `prepare`, over every later sequence of calls, the writes are verified*, at most one starting, at most one complete; binding, manifest and volumes are those of the `prepare`, and the cutoff is not below it |
| RestoreState.CutoffMonotone | tools/backup/restore-state.py:161-163 | the cutoff never moves back between any two moments of a run |
| RestoreState.CompleteIsFinal | tools/backup/restore-state.py:164-170 | a completed receipt stays as it is until a new `prepare` |
| RestoreState.FittingCallsAccepted | tools/backup/restore-state.py:139-183 | in an unchanged situation a sequence of writing calls is accepted as a whole exactly when it follows the phases |
| RestoreState.NoReceiptWithoutPrepare | tools/backup/restore-state.py:120-183 | from any file that a key did not sign for a binding, over every run without a `prepare` for that key and binding, whatever other keys write, every call for them is refused |
| RestoreState.OtherBindingRefused | tools/backup/restore-state.py:147-160 | a receipt serves no other target, configuration or repository, at any point of its run |
| FlakeSummary.JobsOfAttempt | tools/ci/flake_summary.py:54-67 | the pages together are the whole list, for every length including multiples of 100 |
| FlakeSummary.JobStats.CountJob | tools/ci/flake_summary.py:106-121 | one entry updates the fields of its record as specified |
| FlakeSummary.CountEntry | tools/ci/flake_summary.py:104-121 | one entry changes the record of its name only, making it on first use |
| FlakeSummary.CountAttempt | tools/ci/flake_summary.py:104-121 | the inner loop over mutable, separate records equals the fold over values |
| FlakeSummary.Tally | tools/ci/flake_summary.py:93-122 | the whole nested loop equals the specified tally, with the number of runs and of reruns |
| FlakeSummary.TallyCounts | tools/ci/flake_summary.py:93-122 | `runs` counts the runs with an entry that is neither skipped nor cancelled, final failures are the entries of last attempts that end in failure, timed_out or startup_failure, and the links go newest attempt first within a run |
| FlakeSummary.FirstLinkIsLatest | tools/ci/flake_summary.py:101-121 | the first link is the latest failure: in the first listed run that has one, its newest attempt that has one, the first failing entry |
| FlakeSummary.RerunsCounted | tools/ci/flake_summary.py:95-98 | reruns are the runs with more than one attempt |
| FlakeSummary.FailuresConserved | tools/ci/flake_summary.py:93-122 | final and rerun failures together are the failing entries of the whole input, with one link each |
| InvitationChain.InvitationTable.Insert | migrations/versions/0021_invitation_administration.py:21-40 | a row is added exactly when key, foreign key, uniqueness and check allow |
| InvitationChain.InvitationTable.Update | migrations/versions/0021_invitation_administration.py:42-88 | a row is replaced exactly when trigger and constraints allow; its key may change while nothing refers to it |
| InvitationChain.InvitationTable.Delete | migrations/versions/0021_invitation_administration.py:22-29 | a row is removed exactly when no row supersedes it |
| InvitationChain.InvitationTable.InsertMany | migrations/versions/0021_invitation_administration.py:21-40 | a batch is added exactly when its keys are free and the constraints hold once it is complete |
| InvitationChain.InvitationTable.UpdateMany | migrations/versions/0021_invitation_administration.py:21-88 | the loop changes row after row under trigger and primary key, and the whole update is kept exactly when the constraints hold at its end |
| InvitationChain.InvitationTable.DeleteMany | migrations/versions/0021_invitation_administration.py:22-29 | rows are removed exactly when no remaining row refers to one of them |
| InvitationChain.InsertExactly | migrations/versions/0021_invitation_administration.py:21-40 | an insert is accepted exactly when its key is free and it replaces nothing or a row of the table that nothing else replaces |
| InvitationChain.UpdateExactly | migrations/versions/0021_invitation_administration.py:21-88 | an update is accepted exactly when it changes the status only, out of pending if at all, and a new key is free while nothing replaces the old one |
| InvitationChain.InsertManyExactly | migrations/versions/0021_invitation_administration.py:21-40 | a batch is accepted exactly when its keys are free and each of its pointers goes to another row of table or batch that no other row replaces |
| InvitationChain.DeleteManyExactly | migrations/versions/0021_invitation_administration.py:22-29 | rows are deleted exactly when no row that stays replaces one of them |
| InvitationChain.BatchExactly | migrations/versions/0021_invitation_administration.py:21-40 | a batch keeps the pointers free of cycles exactly when its rows have none among themselves |
| InvitationChain.KeyChangeExactly | migrations/versions/0021_invitation_administration.py:21-88 | new keys for any rows of a table without cycles keep it so exactly when the pointers whose key passes to another row do not lead around in a circle |
| InvitationChain.KeptKeysUntangled | migrations/versions/0021_invitation_administration.py:21-88 | no cycle arises when every key that is referred to stays with its row |
| InvitationChain.OneKeyTaken | migrations/versions/0021_invitation_administration.py:21-88 | when one referred key passes to another row, a cycle arises exactly when the referring row stands on the chain down from the new holder |
| InvitationChain.StepKeepsChains | migrations/versions/0021_invitation_administration.py:21-88 | every statement, accepted or refused, keeps the constraints; a table without cycles stays so exactly when an accepted statement is orderly, and only an update or delete of several rows can take a cycle away |
| InvitationChain.ChainsExactly | migrations/versions/0021_invitation_administration.py:21-40 | under the constraints all rows lie on one chain each exactly when the pointers have no cycle |
| InvitationChain.EveryRowOnOneChain | migrations/versions/0021_invitation_administration.py:21-40 | under these invariants each row lies on one and only one chain from a newest member to a root |
| InvitationChain.ReplacementsAreChains | migrations/versions/0021_invitation_administration.py:21-88 | after the migration and any run of inserts, updates and deletes of one or several rows: at every moment each invitation lies on exactly one finite chain, exactly when each accepted batch has no cycle of its own and each accepted change of keys is untangled |
| InvitationChain.BatchesKeepChains | migrations/versions/0021_invitation_administration.py:21-88 | without updates and deletes of several rows the table at the end of the run decides, since no other statement takes a cycle away |
| InvitationChain.SingleRowsKeepChains | migrations/versions/0021_invitation_administration.py:21-88 | after any run of single-row inserts and updates and of any deletes every invitation lies on exactly one finite chain |
| InvitationChain.TwoRowsMakeACycle | migrations/versions/0021_invitation_administration.py:21-40 | one insert of two rows that supersede each other is accepted and makes a cycle |
| InvitationChain.TwoKeysMakeACycle | migrations/versions/0021_invitation_administration.py:21-88 | one update that moves row 1 to key 9 and row 3 to key 1 is accepted and makes a cycle of a chain |
| InvitationChain.ConstraintsAllowACycle | migrations/versions/0021_invitation_administration.py:21-40 | two rows that supersede each other meet all constraints |
| InvitationChain.RowKeepsSnapshot | migrations/versions/0021_invitation_administration.py:42-88 | as long as a row exists, through changes of its key, snapshot and pointer are the ones it had, and a status other than pending is its last |
| InvitationChain.StatusChangesOnce | migrations/versions/0021_invitation_administration.py:75-86 | a row changes its status at most once in a run, and only out of pending |
| InvitationBackfill.Fill | migrations/versions/0003_invitation_credentials.py:63-100 | the first UPDATE, in place, gives every row its specified values |
| InvitationBackfill.RevokeOlder | migrations/versions/0003_invitation_credentials.py:114-133 | the second UPDATE, in place, revokes the pending rows whose position, taken before any change, is above one |
| InvitationBackfill.Upgrade | migrations/versions/0003_invitation_credentials.py:63-204 | both passes in order, and whether all constraints hold afterwards |
| InvitationBackfill.BackfillEstablishesConstraints | migrations/versions/0003_invitation_credentials.py:63-204 | all constraints hold afterwards exactly when every accepted row's address has an account |
| InvitationBackfill.NoRowLost | migrations/versions/0003_invitation_credentials.py:63-133 | every row stays with its identity, and its status changes only from pending to revoked, exactly when a newer pending row has the same target |
| InvitationBackfill.RowMigrated | migrations/versions/0003_invitation_credentials.py:63-133 | every column of every row after both passes: display name, action and inviter from the tables joined, the account with the address for accepted rows, each time by status, revoked exactly when a newer pending row for the same action, address and role exists |
| InvitationBackfill.NewestStaysPending | migrations/versions/0003_invitation_credentials.py:114-133 | each target with a pending row keeps one, the newest by creation time, then id, and all other pending rows for the same action, address and role are revoked |
| GeneratedDocument.DocumentTable.Insert | migrations/versions/0013_generated_document_storage.py:99-140 | a row is added exactly when its key is free and the checks hold |
| GeneratedDocument.DocumentTable.Update | migrations/versions/0013_generated_document_storage.py:142-196 | a row is replaced exactly when trigger, key and checks allow |
| GeneratedDocument.DocumentTable.Delete | migrations/versions/0013_generated_document_storage.py:149-156 | a row is removed exactly when it was not sent |
| GeneratedDocument.CheckExactly | migrations/versions/0013_generated_document_storage.py:99-140 | the checks say: nothing stored while pending, afterwards everything with a positive size, a deletion time exactly when deleted, and no sending time of a deleted document |
| GeneratedDocument.UpdateExactly | migrations/versions/0013_generated_document_storage.py:99-190 | an update is accepted exactly when a sent row stays identical, a stored one changes only status and the times of update, sending and deletion, a pending one takes no used key, and the checks hold |
| GeneratedDocument.StoredStays | migrations/versions/0013_generated_document_storage.py:108-190 | trigger and check together keep a stored row stored, with the same object |
| GeneratedDocument.StoredObjectNeverChanges | migrations/versions/0013_generated_document_storage.py:108-199 | over every run a row once available or deleted is never pending again and is the same row but for status and the times of update, sending and deletion, until it is removed |
| GeneratedDocument.StoredIsComplete | migrations/versions/0013_generated_document_storage.py:108-140 | after every run a pending row has nothing stored and every other one has everything |
| GeneratedDocument.SentIsForever | migrations/versions/0013_generated_document_storage.py:142-199 | over every run a sent row is present and identical |
| GeneratedDocument.SentIsAvailable | migrations/versions/0013_generated_document_storage.py:108-140 | after every run a sent row is available with its whole object |
| GeneratedDocument.DeletedReturnsExactly | migrations/versions/0013_generated_document_storage.py:108-190 | a deleted row of any table becomes available exactly by clearing its deletion time and changing nothing else but the times of update and of sending |
| GeneratedDocument.DeletedCanReturn | migrations/versions/0013_generated_document_storage.py:149-190 | an unsent deleted row can be made available again |
| GeneratedDocument.ResetInvoices | migrations/versions/0013_generated_document_storage.py:66-76 | the UPDATE resets the invoice PDFs in place and leaves the other rows |
| GeneratedDocument.MigrationSucceedsForInvoices | migrations/versions/0013_generated_document_storage.py:66-140 | the checks can be added exactly when every older document is an invoice PDF; key, owner, type and version of every row stay |

## Left out

- Selection.Select: keeps the suites of each explained path as a set instead of a sorted tuple, and the reason as a value whose text is derived.
- The rule table, shard lists and path lists of the selector are parameters; only that rule suites lie in the universe and that names are plain is used.
- Glob.CompilePreservesMeaning: patterns with `**` inside a segment are not covered; the rule table has none.
- Pipeline.NoSkippedJobHidesAFailure: that the platform hands the gate exactly the jobs its block needs, with their results, is an assumption about GitHub Actions.
- Checks of workflow files other than the gate check, the gate's printed table and the selector's summary: independent text searches.
- Redaction.LeaksNothing: secrets with square brackets are not covered; the generators never write them.
- The Docker layer pattern, the mail and canary patterns, the private JSON keys, suffix tables and the ZIP, UTF-8, JSON and path codecs are parameters of `Archive`; only the phone pattern is spelled out.
- Reading secrets from files and writing artifacts atomically: I/O.
- Selectors, specificity, `!important` and the conversion of em and rem in stylesheets; a rule is its conditions and declarations, and an element sees the declarations of all rules that apply, in order.
- Random generators and host variables of the secret generator are parameters.
- EnvTokens.GeneratedValue: a value with several tokens, or a drawn value with a double underscore, is covered one token at a time by `EnvTokens.SubstituteExactly`.
- Manifest.Verify: JSON syntax, permissions and the bootstrap archive check are parameters; missing values and values of a wrong type are one case.
- Inventory.DatabaseInventory: validation of foreign keys is left out, as are the file and object inventories.
- Archive.AcceptedIsPublished: writing an archive is a total function; an entry name that no longer fits a ZIP header raises an error that is not modelled.
- The hash is a function parameter; each digest theorem names the pairs on which it must not collide.
- RestoreState.Store.Receipt: reading containers, volumes and configuration gives inputs of the call; locking and atomic replacement are left out, and so is putting back an older receipt that was validly signed.
- InvitationChain.ReplacementsAreChains: further constraints of the table only refuse more statements and are left out; a delete by cascade from a charity action is a delete of several rows.
- GeneratedDocument.DocumentTable.Update: foreign keys and the uniqueness of object keys and versions only refuse more statements and are left out; so are the outbox rows of the migration.
- InvitationBackfill.Upgrade: the downgrade and the lookup index are not modelled.
- Collecting the runs from the API and rendering the flake summary.
- Services under `src/leonaid`, contract scripts, settings validators and source linters.
