/** Generated documents (`migrations/versions/0013_generated_document_storage.py`): the storage-state
    check and the trigger that protects stored bytes and sent documents. */
module GeneratedDocument {
  import opened Text

  /** UUIDs, as numbers. */
  type Id = nat

  datatype Status = Pending | Available | Deleted

  datatype Row = Row(
    id: Id, actionId: Id, commitmentId: Option<Id>, invoiceId: Option<Id>,
    companyId: Option<Id>, personId: Option<Id>, documentType: string, mediaType: string,
    filename: Option<string>, bucket: Option<string>, objectKey: Option<string>, versionId: Option<string>,
    sizeBytes: Option<int>, sha256: Option<string>, renderVersion: Option<string>, version: int,
    createdAt: int, updatedAt: int, status: Status,
    availableAt: Option<int>, sentAt: Option<int>, deletedAt: Option<int>)

  // ----- check and trigger -----

  /** `ck_generated_document_size` */
  predicate SizeCheck(r: Row) { r.sizeBytes.Some? ==> r.sizeBytes.value > 0 }

  /** `ck_generated_document_storage_state` */
  predicate StorageState(r: Row) {
    || (&& r.status == Pending
        && r.filename.None? && r.bucket.None? && r.objectKey.None? && r.versionId.None? && r.sizeBytes.None?
        && r.sha256.None? && r.renderVersion.None? && r.availableAt.None? && r.sentAt.None? && r.deletedAt.None?)
    || (&& (r.status == Available || r.status == Deleted)
        && r.filename.Some? && r.bucket.Some? && r.objectKey.Some? && r.versionId.Some? && r.sizeBytes.Some?
        && r.sha256.Some? && r.renderVersion.Some? && r.availableAt.Some?
        && ((r.status == Available && r.deletedAt.None?) ||
            (r.status == Deleted && r.deletedAt.Some? && r.sentAt.None?)))
  }

  predicate Check(r: Row) { SizeCheck(r) && StorageState(r) }

  /** Everything the trigger compares on a stored row. */
  predicate SameObject(a: Row, b: Row) {
    && a.id == b.id && a.actionId == b.actionId && a.commitmentId == b.commitmentId && a.invoiceId == b.invoiceId
    && a.companyId == b.companyId && a.personId == b.personId && a.documentType == b.documentType
    && a.mediaType == b.mediaType && a.filename == b.filename && a.bucket == b.bucket
    && a.objectKey == b.objectKey && a.versionId == b.versionId && a.sizeBytes == b.sizeBytes
    && a.sha256 == b.sha256 && a.renderVersion == b.renderVersion && a.version == b.version
    && a.createdAt == b.createdAt && a.availableAt == b.availableAt
  }

  /** `protect_generated_document`, UPDATE */
  predicate UpdateAllowed(before: Row, after: Row) {
    && (before.sentAt.Some? ==> after == before)
    && (before.status == Available || before.status == Deleted ==> SameObject(before, after))
  }

  /** `protect_generated_document`, DELETE */
  predicate DeleteAllowed(before: Row) { before.sentAt.None? }

  // ----- single-row statements -----

  type Rows = map<Id, Row>

  ghost predicate Valid(t: Rows) { forall id :: id in t ==> t[id].id == id && Check(t[id]) }

  datatype Statement = Insert(row: Row) | Update(id: Id, row: Row) | Delete(id: Id)

  /** A statement that finds no row is accepted and changes nothing. */
  predicate Accepts(t: Rows, s: Statement) {
    match s
    case Insert(row) => row.id !in t && Check(row)
    case Update(id, row) => id in t ==> UpdateAllowed(t[id], row) && (row.id == id || row.id !in t) && Check(row)
    case Delete(id) => id in t ==> DeleteAllowed(t[id])
  }

  function Step(t: Rows, s: Statement): Rows {
    if !Accepts(t, s) then t
    else
      match s
      case Insert(row) => t[row.id := row]
      case Update(id, row) => if id in t then (t - {id})[row.id := row] else t
      case Delete(id) => t - {id}
  }

  class DocumentTable {
    var rows: Rows

    method Insert(row: Row) returns (accepted: bool)
      modifies this
      ensures accepted == Accepts(old(rows), Statement.Insert(row)) && rows == Step(old(rows), Statement.Insert(row))
    {
      accepted := row.id !in rows && Check(row);
      if accepted {
        rows := rows[row.id := row];
      }
    }

    /** The trigger raises in the order of its tests; key and check come after it. */
    method Update(id: Id, row: Row) returns (accepted: bool)
      modifies this
      ensures accepted == Accepts(old(rows), Statement.Update(id, row)) && rows == Step(old(rows), Statement.Update(id, row))
    {
      if id !in rows {
        return true;
      }
      var before := rows[id];
      if before.sentAt.Some? && row != before {
        return false;
      }
      if before.status != Pending && !SameObject(before, row) {
        return false;
      }
      if row.id != id && row.id in rows {
        return false;
      }
      accepted := Check(row);
      if accepted {
        rows := (rows - {id})[row.id := row];
      }
    }

    method Delete(id: Id) returns (accepted: bool)
      modifies this
      ensures accepted == Accepts(old(rows), Statement.Delete(id)) && rows == Step(old(rows), Statement.Delete(id))
    {
      accepted := true;
      if id in rows {
        if rows[id].sentAt.Some? {
          return false;
        }
        rows := rows - {id};
      }
    }
  }

  // ----- what is accepted -----

  predicate Blank(r: Row) {
    && r.filename.None? && r.bucket.None? && r.objectKey.None? && r.versionId.None? && r.sizeBytes.None?
    && r.sha256.None? && r.renderVersion.None? && r.availableAt.None? && r.sentAt.None? && r.deletedAt.None?
  }

  predicate Complete(r: Row) {
    && r.filename.Some? && r.bucket.Some? && r.objectKey.Some? && r.versionId.Some?
    && r.sizeBytes.Some? && r.sizeBytes.value >= 1
    && r.sha256.Some? && r.renderVersion.Some? && r.availableAt.Some?
  }

  /** The checks say: nothing stored while pending; afterwards everything, a deletion time exactly for a
      deleted document, and a sending time only for one that is not deleted. */
  lemma CheckExactly(r: Row)
    ensures Check(r) <==>
            if r.status == Pending then Blank(r)
            else Complete(r) && (r.status == Deleted <==> r.deletedAt.Some?) && (r.sentAt.Some? ==> r.status != Deleted)
  {
  }

  /** The row as another one leaves it, but for the four columns that may change once it is stored. */
  function Fixed(before: Row, after: Row): Row {
    before.(status := after.status, updatedAt := after.updatedAt, sentAt := after.sentAt, deletedAt := after.deletedAt)
  }

  /** An update is accepted exactly when a sent row stays identical, a stored one changes in the four
      columns only, a pending one takes no other row's key, and the checks hold of the result. */
  lemma UpdateExactly(t: Rows, id: Id, after: Row)
    requires Valid(t) && id in t
    ensures Accepts(t, Update(id, after)) <==>
            && Check(after)
            && if t[id].sentAt.Some? then after == t[id]
               else if t[id].status == Pending then after.id == id || after.id !in t
               else after == Fixed(t[id], after)
  {
    AtKey(t, id);
    hide Valid;
  }

  // ----- runs -----

  function Run(t: Rows, statements: seq<Statement>): Rows
    decreases |statements|
  {
    if statements == [] then t else Run(Step(t, statements[0]), statements[1..])
  }

  lemma StepValid(t: Rows, s: Statement)
    requires Valid(t)
    ensures Valid(Step(t, s))
  {
    hide Check, UpdateAllowed, DeleteAllowed;
  }

  /** Whether the row at `id` is removed somewhere in the run; a later row with the same key is another. */
  predicate Removed(t: Rows, statements: seq<Statement>, id: Id)
    decreases |statements|
  {
    statements != [] && (id !in Step(t, statements[0]) || Removed(Step(t, statements[0]), statements[1..], id))
  }

  predicate Stored(r: Row) { r.status == Available || r.status == Deleted }

  lemma StepStored(t: Rows, s: Statement, id: Id)
    requires Valid(t) && id in t && Stored(t[id]) && id in Step(t, s)
    ensures Stored(Step(t, s)[id]) && Step(t, s)[id] == Fixed(t[id], Step(t, s)[id])
  {
    if Accepts(t, s) && s.Update? && s.id in t {
      if s.id == id {
        StoredStays(t[id], s.row);
      } else {
        assert s.row.id != id;
      }
    }
  }

  /** The two rules together: the trigger keeps the file name, and the check wants none while pending. */
  lemma StoredStays(before: Row, after: Row)
    requires Check(before) && Stored(before) && UpdateAllowed(before, after) && Check(after)
    ensures Stored(after) && after == Fixed(before, after)
  {
  }

  /** Once available or deleted, never pending again: over every run, as long as the row is not removed,
      it keeps its key, its owner and its stored object. */
  lemma {:induction false} StoredObjectNeverChanges(t: Rows, statements: seq<Statement>, id: Id)
    requires Valid(t) && id in t && Stored(t[id]) && !Removed(t, statements, id)
    ensures id in Run(t, statements)
    ensures var after := Run(t, statements)[id]; after.status != Pending && after == Fixed(t[id], after)
    decreases |statements|
  {
    hide Step, Check;
    if statements != [] {
      StepValid(t, statements[0]);
      StepStored(t, statements[0], id);
      StoredObjectNeverChanges(Step(t, statements[0]), statements[1..], id);
    }
  }

  lemma StepSent(t: Rows, s: Statement, id: Id)
    requires Valid(t) && id in t && t[id].sentAt.Some?
    ensures id in Step(t, s) && Step(t, s)[id] == t[id]
  {
    hide Check, SameObject;
  }

  /** Once sent, the row is there, identical, after every run. */
  lemma {:induction false} SentIsForever(t: Rows, statements: seq<Statement>, id: Id)
    requires Valid(t) && id in t && t[id].sentAt.Some?
    ensures id in Run(t, statements) && Run(t, statements)[id] == t[id]
    decreases |statements|
  {
    hide Step, Check;
    if statements != [] {
      StepValid(t, statements[0]);
      StepSent(t, statements[0], id);
      SentIsForever(Step(t, statements[0]), statements[1..], id);
    }
  }

  lemma {:induction false} RunValid(t: Rows, statements: seq<Statement>)
    requires Valid(t)
    ensures Valid(Run(t, statements))
    decreases |statements|
  {
    hide Step, Valid;
    if statements != [] {
      StepValid(t, statements[0]);
      RunValid(Step(t, statements[0]), statements[1..]);
    }
  }

  /** After every run a pending document has nothing stored and every other one has everything. */
  lemma StoredIsComplete(t: Rows, statements: seq<Statement>, id: Id)
    requires Valid(t) && id in Run(t, statements)
    ensures var r := Run(t, statements)[id];
            if r.status == Pending then Blank(r) else Complete(r) && (r.status == Deleted <==> r.deletedAt.Some?)
  {
    RunValid(t, statements);
    AtKey(Run(t, statements), id);
    CheckExactly(Run(t, statements)[id]);
    hide Valid, Check;
  }

  /** Only an available document can be marked sent, and a sent one is neither pending nor deleted, after
      every run. */
  lemma SentIsAvailable(t: Rows, statements: seq<Statement>, id: Id)
    requires Valid(t) && id in Run(t, statements) && Run(t, statements)[id].sentAt.Some?
    ensures Run(t, statements)[id].status == Available && Complete(Run(t, statements)[id])
  {
    RunValid(t, statements);
  }

  /** A deleted row becomes available again exactly when the update clears its deletion time and changes
      nothing else but the time of the update and the time of sending. */
  lemma DeletedReturnsExactly(t: Rows, id: Id, after: Row)
    requires Valid(t) && id in t && t[id].status == Deleted
    ensures Accepts(t, Update(id, after)) && after.status == Available <==>
            after == t[id].(status := Available, deletedAt := None, updatedAt := after.updatedAt, sentAt := after.sentAt)
  {
    hide Valid;
    assert t[id].id == id && Check(t[id]) by { AtKey(t, id); }
  }

  lemma AtKey(t: Rows, id: Id)
    requires Valid(t) && id in t
    ensures t[id].id == id && Check(t[id])
  {
  }

  /** What the trigger leaves open: an unsent deleted row can be made available again. */
  lemma DeletedCanReturn(r: Row, now: int)
    requires Check(r) && r.status == Deleted
    ensures var back := r.(status := Available, deletedAt := None, updatedAt := now);
            Accepts(map[r.id := r], Update(r.id, back)) && Step(map[r.id := r], Update(r.id, back)) == map[r.id := back]
  {
    var t: Rows := map[r.id := r];
    assert t - {r.id} == map[];
  }

  // ----- the migration itself -----

  /** A row of the older table: its object key and hash are never null. */
  datatype LegacyRow = LegacyRow(
    id: Id, actionId: Id, commitmentId: Option<Id>, invoiceId: Option<Id>, companyId: Option<Id>,
    personId: Option<Id>, documentType: string, mediaType: string, objectKey: string, sha256: string,
    version: int, createdAt: int)

  /** The row after the new columns were added with their defaults. */
  function Widened(l: LegacyRow, now: int): Row {
    Row(l.id, l.actionId, l.commitmentId, l.invoiceId, l.companyId, l.personId, l.documentType, l.mediaType,
        None, None, Some(l.objectKey), None, None, Some(l.sha256), None, l.version,
        l.createdAt, now, Pending, None, None, None)
  }

  function Reset(r: Row, now: int): Row {
    if r.documentType == "invoice_pdf"
    then r.(objectKey := None, sha256 := None, status := Pending, updatedAt := now)
    else r
  }

  /** `UPDATE generated_document SET object_key = NULL ... WHERE document_type = 'invoice_pdf'` */
  method ResetInvoices(table: array<Row>, now: int)
    modifies table
    ensures forall i :: 0 <= i < table.Length ==> table[i] == Reset(old(table[i]), now)
  {
    for i := 0 to table.Length
      invariant forall k :: 0 <= k < i ==> table[k] == Reset(old(table[k]), now)
      invariant forall k :: i <= k < table.Length ==> table[k] == old(table[k])
    {
      if table[i].documentType == "invoice_pdf" {
        table[i] := table[i].(objectKey := None, sha256 := None, status := Pending, updatedAt := now);
      }
    }
  }

  /** The migration can add its checks exactly when every older document is an invoice PDF; it then
      keeps each of them as a pending document of the same owner, type and version. */
  lemma MigrationSucceedsForInvoices(legacy: seq<LegacyRow>, now: int)
    ensures (forall i :: 0 <= i < |legacy| ==> Check(Reset(Widened(legacy[i], now), now))) <==>
            (forall i :: 0 <= i < |legacy| ==> legacy[i].documentType == "invoice_pdf")
    ensures forall i :: 0 <= i < |legacy| ==> KeepsDocument(legacy[i], Reset(Widened(legacy[i], now), now), now)
  {
    forall i | 0 <= i < |legacy|
      ensures KeepsDocument(legacy[i], Reset(Widened(legacy[i], now), now), now)
      ensures Check(Reset(Widened(legacy[i], now), now)) <==> legacy[i].documentType == "invoice_pdf"
    {
      OneLegacyRow(legacy[i], now);
    }
  }

  /** Key, owner, type and version stay; of the object only an invoice PDF loses its key and its hash. */
  predicate KeepsDocument(l: LegacyRow, r: Row, now: int) {
    && r.id == l.id && r.actionId == l.actionId && r.commitmentId == l.commitmentId && r.invoiceId == l.invoiceId
    && r.companyId == l.companyId && r.personId == l.personId && r.documentType == l.documentType
    && r.mediaType == l.mediaType && r.version == l.version && r.createdAt == l.createdAt
    && r.status == Pending && r.updatedAt == now && r.availableAt.None? && r.sentAt.None? && r.deletedAt.None?
    && r.filename.None? && r.bucket.None? && r.versionId.None? && r.sizeBytes.None? && r.renderVersion.None?
    && (if l.documentType == "invoice_pdf" then r.objectKey.None? && r.sha256.None?
        else r.objectKey == Some(l.objectKey) && r.sha256 == Some(l.sha256))
  }

  lemma OneLegacyRow(l: LegacyRow, now: int)
    ensures KeepsDocument(l, Reset(Widened(l, now), now), now)
    ensures Check(Reset(Widened(l, now), now)) <==> l.documentType == "invoice_pdf"
  {
  }
}
