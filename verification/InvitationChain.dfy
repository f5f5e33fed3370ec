/** Replacement of invitations (`migrations/versions/0021_invitation_administration.py`): a table whose
    rows change by statements under a foreign key, a unique constraint, a check and a trigger. */
module InvitationChain {
  import opened Text

  /** UUIDs, as numbers. */
  type Id = nat

  datatype Status = Pending | Accepted | Expired | Revoked

  datatype Snapshot = Snapshot(
    actionId: Id, invitedBy: Id, email: string, displayName: string, actionName: string,
    invitedByName: string, role: string, tokenDigest: string, codeDigest: string, expiresAt: int)

  datatype Row = Row(status: Status, snapshot: Snapshot, supersedes: Option<Id>)

  /** The table by primary key. */
  type Rows = map<Id, Row>

  // ----- constraints and trigger -----

  predicate Referenced(t: Rows, id: Id) {
    exists k :: k in t && t[k].supersedes == Some(id)
  }

  /** The foreign key. */
  predicate Closed(t: Rows) {
    forall k :: k in t && t[k].supersedes.Some? ==> t[k].supersedes.value in t
  }

  /** `uq_action_invitation_supersedes` */
  predicate Unique(t: Rows) {
    forall a, b :: a in t && b in t && a != b && t[a].supersedes.Some? ==> t[a].supersedes != t[b].supersedes
  }

  /** `ck_action_invitation_not_self_superseding` */
  predicate NotSelf(t: Rows) {
    forall k :: k in t ==> t[k].supersedes != Some(k)
  }

  predicate Constraints(t: Rows) { Closed(t) && Unique(t) && NotSelf(t) }

  /** `enforce_action_invitation_transition` */
  predicate TriggerAllows(before: Row, after: Row) {
    after.snapshot == before.snapshot && after.supersedes == before.supersedes &&
    (after.status == before.status || (before.status == Pending && after.status != Pending))
  }

  // ----- statements -----

  datatype Statement =
    | Insert(id: Id, row: Row)
    | Update(id: Id, newId: Id, row: Row)
    | Delete(id: Id)
    | InsertMany(batch: Rows)
    | UpdateMany(changes: seq<Change>)
    | DeleteMany(ids: set<Id>)

  /** One row of an UPDATE of several rows: its key before and after, and its new contents. */
  datatype Change = Change(id: Id, newId: Id, row: Row)

  /** Each change names a row of the table, and no row is changed twice. */
  predicate OncePerRow(t: Rows, changes: seq<Change>) {
    (forall i :: 0 <= i < |changes| ==> changes[i].id in t) &&
    forall i, j :: 0 <= i < j < |changes| ==> changes[i].id != changes[j].id
  }

  /** The rows change one after the other; the trigger runs and the key must be free at that moment. */
  function Moves(t: Rows, changes: seq<Change>): Option<Rows>
    decreases |changes|
  {
    if changes == [] then Some(t)
    else
      var c := changes[0];
      if c.id in t && TriggerAllows(t[c.id], c.row) && (c.newId == c.id || c.newId !in t)
      then Moves((t - {c.id})[c.newId := c.row], changes[1..])
      else None
  }

  /** Whether the database accepts a statement; one that finds no row changes nothing and is accepted.
      The foreign key is looked at when the statement ends: rows of a batch may refer to each other, and
      a key that is referred to may pass from one row to another. */
  predicate Accepts(t: Rows, s: Statement) {
    match s
    case Insert(id, row) => id !in t && Constraints(t[id := row])
    case Update(id, newId, row) =>
      id in t ==>
        && TriggerAllows(t[id], row)
        && (newId != id ==> newId !in t && !Referenced(t, id))
        && Constraints((t - {id})[newId := row])
    case Delete(id) => id in t ==> !Referenced(t, id)
    case InsertMany(batch) => batch.Keys !! t.Keys && Constraints(t + batch)
    case UpdateMany(changes) => OncePerRow(t, changes) && Moves(t, changes).Some? && Constraints(Moves(t, changes).value)
    case DeleteMany(ids) => Closed(t - ids)
  }

  function Effect(t: Rows, s: Statement): Rows {
    match s
    case Insert(id, row) => t[id := row]
    case Update(id, newId, row) => if id in t then (t - {id})[newId := row] else t
    case Delete(id) => t - {id}
    case InsertMany(batch) => t + batch
    case UpdateMany(changes) => if Moves(t, changes).Some? then Moves(t, changes).value else t
    case DeleteMany(ids) => t - ids
  }

  function Step(t: Rows, s: Statement): Rows { if Accepts(t, s) then Effect(t, s) else t }

  class InvitationTable {
    var rows: Rows

    method Insert(id: Id, row: Row) returns (accepted: bool)
      modifies this
      ensures accepted == Accepts(old(rows), Statement.Insert(id, row)) && rows == Step(old(rows), Statement.Insert(id, row))
    {
      accepted := id !in rows && Constraints(rows[id := row]);
      if accepted {
        rows := rows[id := row];
      }
    }

    /** The trigger runs before the row is changed, the constraints after it. */
    method Update(id: Id, newId: Id, row: Row) returns (accepted: bool)
      modifies this
      ensures accepted == Accepts(old(rows), Statement.Update(id, newId, row))
      ensures rows == Step(old(rows), Statement.Update(id, newId, row))
    {
      if id !in rows {
        return true;
      }
      var before := rows[id];
      if row.snapshot != before.snapshot || row.supersedes != before.supersedes {
        return false;
      }
      if row.status != before.status && (before.status != Pending || row.status == Pending) {
        return false;
      }
      if newId != id && (newId in rows || Referenced(rows, id)) {
        return false;
      }
      var changed := (rows - {id})[newId := row];
      accepted := Constraints(changed);
      if accepted {
        rows := changed;
      }
    }

    method Delete(id: Id) returns (accepted: bool)
      modifies this
      ensures accepted == Accepts(old(rows), Statement.Delete(id)) && rows == Step(old(rows), Statement.Delete(id))
    {
      accepted := id !in rows || !Referenced(rows, id);
      if accepted {
        rows := rows - {id};
      }
    }

    /** INSERT with several rows. */
    method InsertMany(batch: Rows) returns (accepted: bool)
      modifies this
      ensures accepted == Accepts(old(rows), Statement.InsertMany(batch)) && rows == Step(old(rows), Statement.InsertMany(batch))
    {
      accepted := batch.Keys !! rows.Keys && Constraints(rows + batch);
      if accepted {
        rows := rows + batch;
      }
    }

    /** UPDATE of several rows, row after row; the constraints are looked at when all are changed. */
    method UpdateMany(changes: seq<Change>) returns (accepted: bool)
      modifies this
      ensures accepted == Accepts(old(rows), Statement.UpdateMany(changes)) && rows == Step(old(rows), Statement.UpdateMany(changes))
    {
      if !OncePerRow(rows, changes) {
        return false;
      }
      var current: Rows := rows;
      for i := 0 to |changes|
        invariant rows == old(rows)
        invariant Moves(rows, changes) == Moves(current, changes[i..])
      {
        hide Constraints, TriggerAllows, OncePerRow;
        var c := changes[i];
        assert changes[i..][0] == c && changes[i..][1..] == changes[i + 1..];
        if c.id !in current || !TriggerAllows(current[c.id], c.row) || (c.newId != c.id && c.newId in current) {
          return false;
        }
        current := (current - {c.id})[c.newId := c.row];
      }
      accepted := Constraints(current);
      if accepted {
        rows := current;
      }
    }

    /** DELETE of several rows, also by the cascade from their action. */
    method DeleteMany(ids: set<Id>) returns (accepted: bool)
      modifies this
      ensures accepted == Accepts(old(rows), Statement.DeleteMany(ids)) && rows == Step(old(rows), Statement.DeleteMany(ids))
    {
      accepted := Closed(rows - ids);
      if accepted {
        rows := rows - ids;
      }
    }
  }

  // ----- what is accepted, seen from the row -----

  /** No row of the table replaces `id`. */
  predicate Unreplaced(t: Rows, id: Id) { forall k :: k in t ==> t[k].supersedes != Some(id) }

  /** An insert is accepted exactly when its key is free and it replaces nothing, or a row of the table
      that nothing else replaces. */
  lemma InsertExactly(t: Rows, id: Id, row: Row)
    requires Constraints(t)
    ensures Accepts(t, Insert(id, row)) <==>
            id !in t && (row.supersedes.Some? ==> row.supersedes.value in t && Unreplaced(t, row.supersedes.value))
  {
    var u := t[id := row];
    if Accepts(t, Insert(id, row)) && row.supersedes.Some? {
      var p := row.supersedes.value;
      assert u[id] == row && p in u;
      forall k | k in t ensures t[k].supersedes != Some(p) {
        assert u[k] == t[k];
      }
    }
    if id !in t && (row.supersedes.Some? ==> row.supersedes.value in t && Unreplaced(t, row.supersedes.value)) {
      assert forall k :: k in u ==> u[k] == if k == id then row else t[k];
    }
  }

  /** An update is accepted exactly when snapshot and pointer stay, the status stays or leaves pending,
      and a new key is free while nothing replaces the old one. */
  lemma UpdateExactly(t: Rows, id: Id, newId: Id, row: Row)
    requires Constraints(t) && id in t
    ensures Accepts(t, Update(id, newId, row)) <==>
            && row == t[id].(status := row.status)
            && (row.status == t[id].status || t[id].status == Pending)
            && (newId == id || (newId !in t && Unreplaced(t, id)))
  {
    var u := (t - {id})[newId := row];
    assert Unreplaced(t, id) <==> !Referenced(t, id);
    if row == t[id].(status := row.status) && (newId == id || (newId !in t && Unreplaced(t, id))) {
      assert forall k :: k in u ==> u[k].supersedes == t[if k == newId then id else k].supersedes;
    }
  }

  /** A batch is accepted exactly when its keys are free, and each of its pointers goes to another row of
      the table or the batch that no other row replaces. */
  lemma InsertManyExactly(t: Rows, batch: Rows)
    requires Constraints(t)
    ensures Accepts(t, InsertMany(batch)) <==>
            && (forall k :: k in batch ==> k !in t)
            && forall k :: k in batch && batch[k].supersedes.Some? ==> BatchPointerFits(t, batch, k)
  {
    hide Constraints;
    if Accepts(t, InsertMany(batch)) {
      forall k | k in batch && batch[k].supersedes.Some? ensures BatchPointerFits(t, batch, k) {
        AcceptedPointer(t, batch, k);
      }
    }
    if (forall k :: k in batch ==> k !in t) && forall k :: k in batch && batch[k].supersedes.Some? ==> BatchPointerFits(t, batch, k) {
      FittingBatch(t, batch);
    }
  }

  predicate BatchPointerFits(t: Rows, batch: Rows, k: Id)
    requires k in batch && batch[k].supersedes.Some?
  {
    var p := batch[k].supersedes.value;
    && p != k && (p in t || p in batch) && Unreplaced(t, p)
    && forall j :: j in batch && j != k ==> batch[j].supersedes != Some(p)
  }

  lemma AcceptedPointer(t: Rows, batch: Rows, k: Id)
    requires batch.Keys !! t.Keys && Constraints(t + batch) && k in batch && batch[k].supersedes.Some?
    ensures BatchPointerFits(t, batch, k)
  {
    var p, all := batch[k].supersedes.value, t + batch;
    assert all[k] == batch[k];
    forall j | j in t ensures t[j].supersedes != Some(p) {
      assert all[j] == t[j] && j != k;
    }
    forall j | j in batch && j != k ensures batch[j].supersedes != Some(p) {
      assert all[j] == batch[j];
    }
  }

  lemma FittingBatch(t: Rows, batch: Rows)
    requires Constraints(t) && (forall k :: k in batch ==> k !in t)
    requires forall k :: k in batch && batch[k].supersedes.Some? ==> BatchPointerFits(t, batch, k)
    ensures batch.Keys !! t.Keys && Constraints(t + batch)
  {
    var all := t + batch;
    forall k | k in all && all[k].supersedes.Some?
      ensures all[k].supersedes.value in all && all[k].supersedes != Some(k)
    {
      assert k in batch ==> BatchPointerFits(t, batch, k);
    }
    forall a, b | a in all && b in all && a != b && all[a].supersedes.Some? ensures all[a].supersedes != all[b].supersedes {
      assert a in batch ==> BatchPointerFits(t, batch, a);
      assert b in batch && batch[b].supersedes.Some? ==> BatchPointerFits(t, batch, b);
    }
  }

  /** Rows are deleted exactly when no row that stays replaces one of them. */
  lemma DeleteManyExactly(t: Rows, ids: set<Id>)
    requires Constraints(t)
    ensures Accepts(t, DeleteMany(ids)) <==> forall k, id :: k in t && k !in ids && id in ids && id in t ==> t[k].supersedes != Some(id)
  {
    var u := t - ids;
    if Accepts(t, DeleteMany(ids)) {
      forall k, id | k in t && k !in ids && id in ids && id in t ensures t[k].supersedes != Some(id) {
        assert k in u && u[k] == t[k];
      }
    }
  }

  // ----- runs -----

  function Run(t: Rows, statements: seq<Statement>): Rows
    decreases |statements|
  {
    if statements == [] then t else Run(Step(t, statements[0]), statements[1..])
  }

  /** The table as the migration leaves it: the new column is empty in every row. */
  predicate Migrated(t: Rows) {
    forall k :: k in t ==> t[k].supersedes == None
  }

  /** A rank that falls along every replacement pointer: the pointers have no cycle. */
  ghost predicate Ranks(rank: map<Id, nat>, t: Rows) {
    && rank.Keys == t.Keys
    && forall k :: k in t && t[k].supersedes.Some? ==>
         t[k].supersedes.value in t && rank[t[k].supersedes.value] < rank[k]
  }

  ghost predicate Acyclic(t: Rows) { exists rank :: Ranks(rank, t) }

  lemma InsertRanks(t: Rows, id: Id, row: Row)
    requires Closed(t) && id !in t && Constraints(t[id := row])
    ensures Acyclic(t[id := row]) <==> Acyclic(t)
  {
    var u := t[id := row];
    if rank: map<Id, nat> :| Ranks(rank, t) {
      assert row.supersedes.Some? ==> u[id].supersedes == row.supersedes;
      var top: nat := if row.supersedes.None? then 0 else rank[row.supersedes.value] + 1;
      assert Ranks(rank[id := top], u);
    }
    if Acyclic(u) {
      PartAcyclic(u, t);
    }
  }

  /** A closed part of a table without cycles has none. */
  lemma PartAcyclic(t: Rows, part: Rows)
    requires Acyclic(t) && Closed(part) && forall k :: k in part ==> k in t && t[k].supersedes == part[k].supersedes
    ensures Acyclic(part)
  {
    var rank :| Ranks(rank, t);
    var restricted: map<Id, nat> := map k | k in part :: rank[k];
    assert Ranks(restricted, part);
  }

  /** Renaming a row that nothing refers to, or none, leaves the ranks. */
  lemma RenameRanks(t: Rows, u: Rows, id: Id, newId: Id)
    requires Closed(u) && id in t && newId in u && u.Keys == (t.Keys - {id}) + {newId} && (newId == id || newId !in t)
    requires !Referenced(t, id) || newId == id
    requires u[newId].supersedes == t[id].supersedes && forall k :: k in t && k != id ==> u[k] == t[k]
    requires Acyclic(t)
    ensures Acyclic(u)
  {
    var rank :| Ranks(rank, t);
    var after := (rank - {id})[newId := rank[id]];
    forall k: Id | k in u && u[k].supersedes.Some?
      ensures u[k].supersedes.value in u && after[u[k].supersedes.value] < after[k]
    {
      var p := u[k].supersedes.value;
      var was: Id := if k == newId then id else k;
      assert was in t && t[was].supersedes == Some(p);
      assert rank[p] < rank[was];
    }
    assert Ranks(after, u);
  }

  lemma UpdateRanks(t: Rows, id: Id, newId: Id, row: Row)
    requires Constraints(t) && id in t && Accepts(t, Update(id, newId, row))
    ensures Acyclic((t - {id})[newId := row]) <==> Acyclic(t)
  {
    var u := (t - {id})[newId := row];
    if Acyclic(t) {
      RenameRanks(t, u, id, newId);
    }
    if Acyclic(u) {
      NewKeyUnreferenced(t, u, id, newId);
      RenameRanks(u, t, newId, id);
    }
  }

  lemma NewKeyUnreferenced(t: Rows, u: Rows, id: Id, newId: Id)
    requires Closed(t) && id in t && newId in u && newId !in t - {id} && u[newId].supersedes == t[id].supersedes
    requires u.Keys == (t.Keys - {id}) + {newId} && forall k :: k in t && k != id ==> u[k] == t[k]
    ensures newId == id || !Referenced(u, newId)
  {
    if newId != id {
      forall k | k in u ensures u[k].supersedes != Some(newId) {
        var was: Id := if k == newId then id else k;
        assert u[k].supersedes == t[was].supersedes;
      }
    }
  }

  lemma DeleteKeeps(t: Rows, id: Id)
    requires Constraints(t) && (id in t ==> !Referenced(t, id))
    ensures Constraints(t - {id}) && (Acyclic(t - {id}) <==> Acyclic(t))
  {
    var u := t - {id};
    forall k: Id | k in u && u[k].supersedes.Some? ensures u[k].supersedes.value in u {
      assert t[k].supersedes == Some(u[k].supersedes.value);
    }
    if id in t {
      InsertRanks(u, id, t[id]);
      assert u[id := t[id]] == t;
    } else {
      assert u == t;
    }
  }

  /** The rows of a batch with only those pointers that stay inside it. */
  function Inside(batch: Rows): Rows {
    map k | k in batch ::
      if batch[k].supersedes.Some? && batch[k].supersedes.value !in batch then batch[k].(supersedes := None) else batch[k]
  }

  function Highest(rank: map<Id, nat>): (top: nat)
    ensures forall k :: k in rank ==> rank[k] <= top
  {
    if rank.Keys == {} then 0
    else
      var k := AnyKey(rank.Keys);
      var rest := Highest(rank - {k});
      assert forall j :: j in rank ==> j == k || j in rank - {k};
      if rank[k] > rest then rank[k] else rest
  }

  function AnyKey(keys: set<Id>): (k: Id)
    requires keys != {}
    ensures k in keys && forall j :: j in keys ==> k <= j
  {
    LeastKey(keys);
    assert forall a, b :: IsFirst(a, keys) && IsFirst(b, keys) ==> a == b;
    var k :| IsFirst(k, keys);
    k
  }

  predicate IsFirst(k: Id, keys: set<Id>) { k in keys && forall j :: j in keys ==> k <= j }

  lemma {:induction false} LeastKey(keys: set<Id>)
    requires keys != {}
    ensures exists k :: IsFirst(k, keys)
  {
    var k :| k in keys;
    var rest := keys - {k};
    if rest == {} {
      assert keys == {k};
      assert IsFirst(k, keys);
    } else {
      LeastKey(rest);
      var j :| IsFirst(j, rest);
      assert keys == rest + {k};
      var first: Id := if k <= j then k else j;
      assert IsFirst(first, keys);
    }
  }

  lemma BatchRanks(t: Rows, batch: Rows)
    requires Closed(t) && batch.Keys !! t.Keys && Constraints(t + batch) && Acyclic(t) && Acyclic(Inside(batch))
    ensures Acyclic(t + batch)
  {
    var low :| Ranks(low, t);
    var high :| Ranks(high, Inside(batch));
    hide Constraints, Closed, Inside, Ranks;
    var all := t + batch;
    var rank := Stacked(low, high, Highest(low));
    forall k | k in all && all[k].supersedes.Some?
      ensures all[k].supersedes.value in rank && rank[all[k].supersedes.value] < rank[k]
    {
      if k in batch {
        BatchPointer(t, batch, low, high, k);
      } else {
        TablePointer(t, batch, low, high, k);
      }
    }
    StackedKeys(t, batch, low, high);
    IsRank(rank, all);
  }

  lemma IsRank(rank: map<Id, nat>, t: Rows)
    requires rank.Keys == t.Keys
    requires forall k :: k in t && t[k].supersedes.Some? ==>
      t[k].supersedes.value in rank && rank[t[k].supersedes.value] < rank[k]
    ensures Acyclic(t)
  {
    assert Ranks(rank, t);
  }

  /** The ranks of a batch above those of the table. */
  function Stacked(low: map<Id, nat>, high: map<Id, nat>, top: nat): map<Id, nat> {
    map k | k in low.Keys + high.Keys :: if k in high then top + 1 + high[k] else low[k]
  }

  lemma StackedKeys(t: Rows, batch: Rows, low: map<Id, nat>, high: map<Id, nat>)
    requires Ranks(low, t) && Ranks(high, Inside(batch))
    ensures Stacked(low, high, Highest(low)).Keys == (t + batch).Keys
  {
  }

  lemma BatchPointer(t: Rows, batch: Rows, low: map<Id, nat>, high: map<Id, nat>, k: Id)
    requires Ranks(low, t) && Ranks(high, Inside(batch)) && batch.Keys !! t.Keys && Constraints(t + batch)
    requires k in batch && batch[k].supersedes.Some?
    ensures var rank, p := Stacked(low, high, Highest(low)), batch[k].supersedes.value;
            k in rank && p in rank && rank[p] < rank[k]
  {
    hide Unique, NotSelf;
    var p := batch[k].supersedes.value;
    assert (t + batch)[k] == batch[k];
    assert p in batch ==> Inside(batch)[k].supersedes == Some(p);
  }

  lemma TablePointer(t: Rows, batch: Rows, low: map<Id, nat>, high: map<Id, nat>, k: Id)
    requires Ranks(low, t) && Ranks(high, Inside(batch)) && batch.Keys !! t.Keys
    requires k in t && t[k].supersedes.Some?
    ensures var rank, p := Stacked(low, high, Highest(low)), t[k].supersedes.value;
            k in rank && p in rank && rank[p] < rank[k]
  {
  }

  /** A batch keeps the chains exactly when the rows of the batch have no cycle among themselves. */
  lemma BatchExactly(t: Rows, batch: Rows)
    requires Constraints(t) && batch.Keys !! t.Keys && Constraints(t + batch)
    ensures Acyclic(t + batch) <==> Acyclic(t) && Acyclic(Inside(batch))
  {
    if Acyclic(t) && Acyclic(Inside(batch)) {
      BatchRanks(t, batch);
    }
    if Acyclic(t + batch) {
      PartAcyclic(t + batch, t);
      var rank :| Ranks(rank, t + batch);
      var restricted: map<Id, nat> := map k | k in batch :: rank[k];
      forall k | k in Inside(batch) && Inside(batch)[k].supersedes.Some?
        ensures var p := Inside(batch)[k].supersedes.value; p in batch && rank[p] < rank[k]
      {
        assert (t + batch)[k] == batch[k];
      }
      assert Ranks(restricted, Inside(batch));
    }
  }

  // ----- updates that change keys -----

  function NewKey(changes: seq<Change>, id: Id): Id {
    if changes == [] then id else if changes[0].id == id then changes[0].newId else NewKey(changes[1..], id)
  }

  /** The key of each row after the changes. */
  function KeysAfter(t: Rows, changes: seq<Change>): map<Id, Id> { map id | id in t :: NewKey(changes, id) }

  /** `u` has the rows of `t` under new keys, with the pointers they had. */
  ghost predicate Renames(t: Rows, u: Rows, keys: map<Id, Id>) {
    && keys.Keys == t.Keys
    && (forall a, b :: a in t && b in t && a != b ==> keys[a] != keys[b])
    && (forall a :: a in t ==> keys[a] in u && u[keys[a]].supersedes == t[a].supersedes)
    && forall k :: k in u ==> HasHolder(t, keys, k)
  }

  predicate HasHolder(t: Rows, keys: map<Id, Id>, k: Id)
    requires keys.Keys == t.Keys
  {
    exists a :: a in t && keys[a] == k
  }

  predicate Touched(changes: seq<Change>, id: Id) {
    exists i :: 0 <= i < |changes| && changes[i].id == id
  }

  lemma {:induction false} Untouched(changes: seq<Change>, id: Id)
    requires !Touched(changes, id)
    ensures NewKey(changes, id) == id
  {
    if changes != [] {
      assert changes[0].id != id;
      forall i | 0 <= i < |changes| - 1 ensures changes[1..][i].id != id {
        assert changes[1..][i] == changes[i + 1];
      }
      Untouched(changes[1..], id);
    }
  }

  lemma OncePerRowRest(t: Rows, changes: seq<Change>)
    requires changes != [] && OncePerRow(t, changes)
    ensures OncePerRow((t - {changes[0].id})[changes[0].newId := changes[0].row], changes[1..])
    ensures !Touched(changes[1..], changes[0].id)
    ensures changes[0].newId !in t ==> !Touched(changes[1..], changes[0].newId)
  {
    forall i | 0 <= i < |changes| - 1 ensures changes[1..][i].id in t && changes[1..][i].id != changes[0].id {
      assert changes[1..][i] == changes[i + 1];
    }
  }

  /** Every row arrives under its new key, allowed by the trigger, and untouched rows stay. */
  lemma {:induction false} MovedTo(t: Rows, changes: seq<Change>, id: Id)
    requires OncePerRow(t, changes) && Moves(t, changes).Some? && id in t
    ensures var u := Moves(t, changes).value;
            && NewKey(changes, id) in u && TriggerAllows(t[id], u[NewKey(changes, id)])
            && (!Touched(changes, id) ==> u[NewKey(changes, id)] == t[id])
    decreases |changes|
  {
    if changes != [] {
      var c, rest := changes[0], changes[1..];
      OncePerRowRest(t, changes);
      var next := (t - {c.id})[c.newId := c.row];
      if id == c.id {
        Untouched(rest, c.newId);
        MovedTo(next, rest, c.newId);
        assert Touched(changes, id);
      } else {
        MovedTo(next, rest, id);
        TouchedRest(changes, id);
      }
    }
  }

  lemma TouchedRest(changes: seq<Change>, id: Id)
    requires changes != [] && changes[0].id != id
    ensures Touched(changes, id) <==> Touched(changes[1..], id)
  {
    if i :| 0 <= i < |changes| && changes[i].id == id {
      assert changes[1..][i - 1].id == id;
    }
    if i :| 0 <= i < |changes| - 1 && changes[1..][i].id == id {
      assert changes[i + 1].id == id;
    }
  }

  lemma {:induction false} NewKeysDiffer(t: Rows, changes: seq<Change>, a: Id, b: Id)
    requires OncePerRow(t, changes) && Moves(t, changes).Some? && a in t && b in t && a != b
    ensures NewKey(changes, a) != NewKey(changes, b)
    decreases |changes|
  {
    if changes != [] {
      var c, rest := changes[0], changes[1..];
      OncePerRowRest(t, changes);
      Untouched(rest, c.newId);
      NewKeysDiffer((t - {c.id})[c.newId := c.row], rest, if a == c.id then c.newId else a, if b == c.id then c.newId else b);
    }
  }

  lemma {:induction false} CameFrom(t: Rows, changes: seq<Change>, k: Id) returns (id: Id)
    requires OncePerRow(t, changes) && Moves(t, changes).Some? && k in Moves(t, changes).value
    ensures id in t && NewKey(changes, id) == k
    decreases |changes|
  {
    if changes == [] {
      id := k;
    } else {
      var c, rest := changes[0], changes[1..];
      OncePerRowRest(t, changes);
      Untouched(rest, c.newId);
      var before := CameFrom((t - {c.id})[c.newId := c.row], rest, k);
      id := if before == c.newId then c.id else before;
    }
  }

  lemma UpdateRenames(t: Rows, changes: seq<Change>)
    requires OncePerRow(t, changes) && Moves(t, changes).Some?
    ensures Renames(t, Moves(t, changes).value, KeysAfter(t, changes))
  {
    hide Moves, NewKey, OncePerRow;
    var u, keys := Moves(t, changes).value, KeysAfter(t, changes);
    forall a | a in t ensures keys[a] in u && u[keys[a]].supersedes == t[a].supersedes {
      MovedTo(t, changes, a);
    }
    forall a, b | a in t && b in t && a != b ensures keys[a] != keys[b] {
      NewKeysDiffer(t, changes, a, b);
    }
    forall k | k in u ensures HasHolder(t, keys, k) {
      var id := CameFrom(t, changes, k);
      assert keys[id] == k;
    }
  }

  /** The row that `r` refers to gives up its key: another row takes its place under the pointer. */
  predicate Taken(t: Rows, keys: map<Id, Id>, r: Id)
    requires keys.Keys == t.Keys
  {
    r in t && t[r].supersedes.Some? && t[r].supersedes.value in keys && keys[t[r].supersedes.value] != t[r].supersedes.value
  }

  /** From the row that takes the place under the pointer of `r`, `q` goes down the pointers of `t` to the
      next pointer whose key is taken. */
  predicate Crosses(t: Rows, keys: map<Id, Id>, r: Id, q: seq<Id>)
    requires keys.Keys == t.Keys
  {
    && Taken(t, keys, r) && Path(t, q) && keys[q[0]] == t[r].supersedes.value
    && Taken(t, keys, q[|q| - 1]) && forall i :: 0 <= i < |q| - 1 ==> !Taken(t, keys, q[i])
  }

  ghost predicate Levels(level: map<Id, nat>, t: Rows, keys: map<Id, Id>)
    requires keys.Keys == t.Keys
  {
    level.Keys == t.Keys && forall r, q :: Crosses(t, keys, r, q) ==> Lower(level, q, r)
  }

  /** The last row of `q` stands lower than `r`. */
  predicate Lower(level: map<Id, nat>, q: seq<Id>, r: Id) {
    q != [] && q[|q| - 1] in level && r in level && level[q[|q| - 1]] < level[r]
  }

  /** The taken pointers do not lead around in a circle. */
  ghost predicate Untangled(t: Rows, keys: map<Id, Id>)
    requires keys.Keys == t.Keys
  {
    exists level :: Levels(level, t, keys)
  }

  /** The first row with a taken pointer at `x` or below it. */
  ghost function Down(t: Rows, keys: map<Id, Id>, rank: map<Id, nat>, x: Id): Option<Id>
    requires keys.Keys == t.Keys && Ranks(rank, t) && x in t
    decreases rank[x]
  {
    if Taken(t, keys, x) then Some(x)
    else if t[x].supersedes.None? then None
    else Down(t, keys, rank, t[x].supersedes.value)
  }

  lemma {:induction false} DownPath(t: Rows, keys: map<Id, Id>, rank: map<Id, nat>, x: Id) returns (q: seq<Id>)
    requires keys.Keys == t.Keys && Ranks(rank, t) && x in t && Down(t, keys, rank, x).Some?
    ensures Path(t, q) && q[0] == x && q[|q| - 1] == Down(t, keys, rank, x).value
    ensures Taken(t, keys, q[|q| - 1]) && forall i :: 0 <= i < |q| - 1 ==> !Taken(t, keys, q[i])
    decreases rank[x]
  {
    hide Taken;
    if Taken(t, keys, x) {
      q := [x];
    } else {
      var rest := DownPath(t, keys, rank, t[x].supersedes.value);
      q := [x] + rest;
      assert forall i :: 0 < i < |q| ==> q[i] == rest[i - 1];
    }
  }

  /** How high the taken pointers at and below a row reach. */
  ghost function Floor(level: map<Id, nat>, down: Option<Id>): nat
    requires down.Some? ==> down.value in level
  {
    if down.None? then 0 else level[down.value] + 1
  }

  ghost function Weight(t: Rows, keys: map<Id, Id>, rank: map<Id, nat>, level: map<Id, nat>, x: Id): nat
    requires keys.Keys == t.Keys && Ranks(rank, t) && level.Keys == t.Keys && x in t
  {
    DownKnown(t, keys, rank, x);
    Floor(level, Down(t, keys, rank, x)) * (Highest(rank) + 1) + rank[x]
  }

  lemma {:induction false} DownKnown(t: Rows, keys: map<Id, Id>, rank: map<Id, nat>, x: Id)
    requires keys.Keys == t.Keys && Ranks(rank, t) && x in t
    ensures Down(t, keys, rank, x).Some? ==> Down(t, keys, rank, x).value in t
    decreases rank[x]
  {
    hide Taken;
    if !Taken(t, keys, x) && t[x].supersedes.Some? {
      DownKnown(t, keys, rank, t[x].supersedes.value);
    } else if Taken(t, keys, x) {
      assert x in t;
    }
  }

  lemma Stack(low: nat, high: nat, base: nat, a: nat, b: nat)
    requires low < high && a < base
    ensures low * base + a < high * base + b
  {
    MoreTimes(low + 1, high, base);
    assert (low + 1) * base == low * base + base;
  }

  lemma MoreTimes(few: nat, many: nat, each: nat)
    requires few <= many
    ensures few * each <= many * each
  {
  }

  /** Along every pointer after the change the weight falls. */
  lemma WeightFalls(t: Rows, keys: map<Id, Id>, rank: map<Id, nat>, level: map<Id, nat>, r: Id, holder: Id)
    requires keys.Keys == t.Keys && Ranks(rank, t) && Levels(level, t, keys)
    requires forall a, b :: a in t && b in t && a != b ==> keys[a] != keys[b]
    requires r in t && holder in t && t[r].supersedes == Some(keys[holder])
    ensures Weight(t, keys, rank, level, holder) < Weight(t, keys, rank, level, r)
  {
    hide Down, Floor, Levels, Taken, Highest;
    DownKnown(t, keys, rank, holder);
    DownKnown(t, keys, rank, r);
    LevelKeys(level, t, keys);
    assert rank.Keys == t.Keys;
    if Taken(t, keys, r) {
      TakenFloor(t, keys, rank, level, r, holder);
      Stack(Floor(level, Down(t, keys, rank, holder)), Floor(level, Down(t, keys, rank, r)), Highest(rank) + 1,
            rank[holder], rank[r]);
    } else {
      SameDown(t, keys, rank, r, holder);
    }
  }

  lemma TakenFloor(t: Rows, keys: map<Id, Id>, rank: map<Id, nat>, level: map<Id, nat>, r: Id, holder: Id)
    requires keys.Keys == t.Keys && Ranks(rank, t) && Levels(level, t, keys)
    requires Taken(t, keys, r) && holder in t && t[r].supersedes == Some(keys[holder])
    ensures Down(t, keys, rank, r) == Some(r)
    ensures Down(t, keys, rank, holder).Some? ==> Down(t, keys, rank, holder).value in level
    ensures Floor(level, Down(t, keys, rank, holder)) < Floor(level, Down(t, keys, rank, r))
  {
    hide Path, Taken;
    assert r in t by { TakenRow(t, keys, r); }
    DownKnown(t, keys, rank, holder);
    if Down(t, keys, rank, holder).Some? {
      var q := DownPath(t, keys, rank, holder);
      assert Crosses(t, keys, r, q);
      assert Lower(level, q, r);
    }
  }

  lemma TakenRow(t: Rows, keys: map<Id, Id>, r: Id)
    requires keys.Keys == t.Keys && Taken(t, keys, r)
    ensures r in t
  {
  }

  lemma SameDown(t: Rows, keys: map<Id, Id>, rank: map<Id, nat>, r: Id, holder: Id)
    requires keys.Keys == t.Keys && Ranks(rank, t) && r in t && holder in t
    requires forall a, b :: a in t && b in t && a != b ==> keys[a] != keys[b]
    requires t[r].supersedes == Some(keys[holder]) && !Taken(t, keys, r)
    ensures Down(t, keys, rank, holder) == Down(t, keys, rank, r) && rank[holder] < rank[r]
  {
    assert keys[holder] in t && keys[keys[holder]] == keys[holder];
    assert holder == keys[holder];
  }

  ghost function Holder(t: Rows, keys: map<Id, Id>, k: Id): (a: Id)
    requires keys.Keys == t.Keys && HasHolder(t, keys, k)
    ensures a in t && keys[a] == k
  {
    var a :| a in t && keys[a] == k;
    a
  }

  lemma UntangledAcyclic(t: Rows, u: Rows, keys: map<Id, Id>)
    requires Closed(u) && Renames(t, u, keys) && Acyclic(t) && Untangled(t, keys)
    ensures Acyclic(u)
  {
    hide Weight, Levels, HasHolder, Ranks;
    var rank :| Ranks(rank, t);
    var level :| Levels(level, t, keys);
    LevelKeys(level, t, keys);
    var weight: map<Id, nat> := map k | k in u :: Weight(t, keys, rank, level, Holder(t, keys, k));
    forall k | k in u && u[k].supersedes.Some?
      ensures u[k].supersedes.value in weight && weight[u[k].supersedes.value] < weight[k]
    {
      var p := u[k].supersedes.value;
      WeightFalls(t, keys, rank, level, Holder(t, keys, k), Holder(t, keys, p));
    }
    IsRank(weight, u);
  }

  lemma LevelKeys(level: map<Id, nat>, t: Rows, keys: map<Id, Id>)
    requires keys.Keys == t.Keys && Levels(level, t, keys)
    ensures level.Keys == t.Keys
  {
  }

  /** Down a path whose pointers are not taken the new ranks do not rise. */
  lemma {:induction false} PathFalls(t: Rows, u: Rows, keys: map<Id, Id>, rank: map<Id, nat>, q: seq<Id>)
    requires Closed(t) && Renames(t, u, keys) && Ranks(rank, u) && Path(t, q)
    requires forall i :: 0 <= i < |q| - 1 ==> !Taken(t, keys, q[i])
    ensures keys[q[|q| - 1]] in u && keys[q[0]] in u && rank[keys[q[|q| - 1]]] <= rank[keys[q[0]]]
  {
    hide HasHolder;
    if |q| > 1 {
      var rest := q[1..];
      assert forall i :: 0 <= i < |rest| ==> rest[i] == q[i + 1];
      PathFalls(t, u, keys, rank, rest);
      assert t[q[0]].supersedes == Some(q[1]) && !Taken(t, keys, q[0]);
      assert keys[q[1]] == q[1];
      assert u[keys[q[0]]].supersedes == Some(q[1]);
    }
  }

  lemma AcyclicUntangled(t: Rows, u: Rows, keys: map<Id, Id>)
    requires Closed(t) && Renames(t, u, keys) && Acyclic(u)
    ensures Untangled(t, keys)
  {
    hide Path, Taken, HasHolder, Crosses, Ranks, Renames;
    var rank :| Ranks(rank, u);
    RenamesKeys(t, u, keys);
    RankKeys(u, rank);
    var level: map<Id, nat> := map x | x in t :: rank[keys[x]];
    forall r, q | Crosses(t, keys, r, q) ensures Lower(level, q, r) {
      CrossingFalls(t, u, keys, rank, r, q);
    }
    assert Levels(level, t, keys);
  }

  lemma RenamesKeys(t: Rows, u: Rows, keys: map<Id, Id>)
    requires Renames(t, u, keys)
    ensures keys.Keys == t.Keys && forall x :: x in t ==> keys[x] in u
  {
  }

  lemma RankKeys(u: Rows, rank: map<Id, nat>)
    requires Ranks(rank, u)
    ensures rank.Keys == u.Keys
  {
  }

  lemma CrossingFalls(t: Rows, u: Rows, keys: map<Id, Id>, rank: map<Id, nat>, r: Id, q: seq<Id>)
    requires Closed(t) && Renames(t, u, keys) && Ranks(rank, u) && Crosses(t, keys, r, q)
    ensures q != [] && q[|q| - 1] in t && r in t && keys[q[|q| - 1]] in u && keys[r] in u
    ensures rank[keys[q[|q| - 1]]] < rank[keys[r]]
  {
    hide HasHolder;
    PathFalls(t, u, keys, rank, q);
    assert u[keys[r]].supersedes == t[r].supersedes == Some(keys[q[0]]);
  }

  /** A change of keys keeps a table without cycles free of them exactly when the taken pointers do not
      lead around in a circle, which depends on the table before and the new keys alone. */
  lemma KeyChangeExactly(t: Rows, u: Rows, keys: map<Id, Id>)
    requires Closed(t) && Closed(u) && Renames(t, u, keys) && Acyclic(t)
    ensures Acyclic(u) <==> Untangled(t, keys)
  {
    if Untangled(t, keys) {
      UntangledAcyclic(t, u, keys);
    }
    if Acyclic(u) {
      AcyclicUntangled(t, u, keys);
    }
  }

  /** When every key that is referred to stays with its row, no cycle can arise. */
  lemma KeptKeysUntangled(t: Rows, keys: map<Id, Id>)
    requires keys.Keys == t.Keys
    requires forall r :: r in t && t[r].supersedes.Some? && t[r].supersedes.value in t ==>
      keys[t[r].supersedes.value] == t[r].supersedes.value
    ensures Untangled(t, keys)
  {
    hide Path;
    var level: map<Id, nat> := map x | x in t :: 0;
    assert Levels(level, t, keys);
  }

  /** A path down from the new holder of the key that `r` refers to, ending in `r` itself. */
  predicate LeadsBack(t: Rows, keys: map<Id, Id>, r: Id, q: seq<Id>)
    requires keys.Keys == t.Keys
  {
    && Taken(t, keys, r) && Path(t, q) && q[|q| - 1] == r && keys[q[0]] == t[r].supersedes.value
    && forall i :: 0 <= i < |q| - 1 ==> q[i] != r
  }

  lemma OnlyCrossing(t: Rows, keys: map<Id, Id>, r: Id)
    requires keys.Keys == t.Keys && forall x :: x in t && x != r ==> !Taken(t, keys, x)
    ensures forall x, q :: Crosses(t, keys, x, q) ==> x == r && q != [] && q[|q| - 1] == r && LeadsBack(t, keys, r, q)
    ensures forall q :: LeadsBack(t, keys, r, q) ==> Crosses(t, keys, r, q) && q != [] && q[|q| - 1] == r
  {
  }

  /** When one referred key passes to another row, exactly: no cycle unless the row that refers to it
      stands on the chain down from its new holder. */
  lemma OneKeyTaken(t: Rows, keys: map<Id, Id>, r: Id)
    requires keys.Keys == t.Keys && Taken(t, keys, r)
    requires forall x :: x in t && x != r ==> !Taken(t, keys, x)
    ensures Untangled(t, keys) <==> !exists q :: LeadsBack(t, keys, r, q)
  {
    OnlyCrossing(t, keys, r);
    hide LeadsBack, Crosses, Taken;
    if q :| LeadsBack(t, keys, r, q) {
      assert Crosses(t, keys, r, q) && forall level :: !Lower(level, q, r);
    } else {
      var level: map<Id, nat> := map x | x in t :: 0;
      assert forall x, q :: !Crosses(t, keys, x, q);
      assert Levels(level, t, keys);
    }
  }

  lemma UpdateManyExactly(t: Rows, changes: seq<Change>)
    requires Constraints(t) && Acyclic(t) && Accepts(t, UpdateMany(changes))
    ensures Acyclic(Moves(t, changes).value) <==> Untangled(t, KeysAfter(t, changes))
  {
    UpdateRenames(t, changes);
    hide Renames, Untangled, Acyclic, Moves;
    KeyChangeExactly(t, Moves(t, changes).value, KeysAfter(t, changes));
  }

  // ----- what every run keeps -----

  /** The order that keeps cycles out: a batch without cycle of its own, keys that do not lead around. */
  ghost predicate Orderly(t: Rows, s: Statement) {
    match s
    case InsertMany(batch) => Acyclic(Inside(batch))
    case UpdateMany(changes) => Untangled(t, KeysAfter(t, changes))
    case _ => true
  }

  /** Every accepted statement of the run is orderly in the table that it finds. */
  ghost predicate OrderlyRun(t: Rows, statements: seq<Statement>)
    decreases |statements|
  {
    statements == [] ||
    ((Accepts(t, statements[0]) ==> Orderly(t, statements[0])) && OrderlyRun(Step(t, statements[0]), statements[1..]))
  }

  lemma DeleteManyKeeps(t: Rows, ids: set<Id>)
    requires Constraints(t) && Closed(t - ids)
    ensures Constraints(t - ids) && (Acyclic(t) ==> Acyclic(t - ids))
  {
    if Acyclic(t) {
      PartAcyclic(t, t - ids);
    }
  }

  /** Only such a statement can take a cycle out of a table again. */
  predicate ManyChanged(s: Statement) { s.UpdateMany? || s.DeleteMany? }

  /** One statement, exactly: what it does to cycles. */
  lemma StepKeepsChains(t: Rows, s: Statement)
    requires Constraints(t)
    ensures Constraints(Step(t, s))
    ensures Acyclic(t) ==> (Acyclic(Step(t, s)) <==> (Accepts(t, s) ==> Orderly(t, s)))
    ensures !Acyclic(t) && !ManyChanged(s) ==> !Acyclic(Step(t, s))
  {
    hide Acyclic, Untangled, Moves, OncePerRow;
    if Accepts(t, s) {
      match s
      case Insert(id, row) =>
        InsertRanks(t, id, row);
      case Update(id, newId, row) =>
        if id in t {
          UpdateRanks(t, id, newId, row);
        }
      case Delete(id) =>
        DeleteKeeps(t, id);
      case InsertMany(batch) =>
        BatchExactly(t, batch);
      case UpdateMany(changes) =>
        if Acyclic(t) {
          UpdateManyExactly(t, changes);
        }
      case DeleteMany(ids) =>
        DeleteManyKeeps(t, ids);
    }
  }

  /** At every moment of the run, the first and the last included, the pointers have no cycle. */
  ghost predicate AlwaysAcyclic(t: Rows, statements: seq<Statement>) {
    forall n :: 0 <= n <= |statements| ==> Acyclic(Run(t, statements[..n]))
  }

  lemma AlwaysFirst(t: Rows, statements: seq<Statement>)
    requires statements != []
    ensures AlwaysAcyclic(t, statements) <==> Acyclic(t) && AlwaysAcyclic(Step(t, statements[0]), statements[1..])
  {
    hide Acyclic, Step;
    var next, rest := Step(t, statements[0]), statements[1..];
    assert statements[..0] == [];
    forall n | 0 <= n < |statements| ensures Run(t, statements[..n + 1]) == Run(next, rest[..n]) {
      assert statements[..n + 1][0] == statements[0] && statements[..n + 1][1..] == rest[..n];
    }
    if Acyclic(t) && AlwaysAcyclic(next, rest) {
      forall n | 0 <= n <= |statements| ensures Acyclic(Run(t, statements[..n])) {
        if n > 0 { assert Acyclic(Run(next, rest[..n - 1])); }
      }
    }
    if AlwaysAcyclic(t, statements) {
      assert Acyclic(Run(t, statements[..0]));
      forall n | 0 <= n <= |rest| ensures Acyclic(Run(next, rest[..n])) {
        assert Acyclic(Run(t, statements[..n + 1]));
      }
    }
  }

  lemma {:induction false} RunKeepsChains(t: Rows, statements: seq<Statement>)
    requires Constraints(t) && Acyclic(t)
    ensures Constraints(Run(t, statements))
    ensures AlwaysAcyclic(t, statements) <==> OrderlyRun(t, statements)
    decreases |statements|
  {
    hide Constraints, Acyclic, Step, Orderly, AlwaysAcyclic, Accepts;
    if statements == [] {
      AlwaysAtStart(t);
    } else {
      AlwaysFirst(t, statements);
      StepKeepsChains(t, statements[0]);
      var next, rest := Step(t, statements[0]), statements[1..];
      if Acyclic(next) {
        RunKeepsChains(next, rest);
      } else {
        NotAlways(next, rest);
        RunConstraints(next, rest);
      }
    }
  }

  lemma AlwaysAtStart(t: Rows)
    ensures AlwaysAcyclic(t, []) <==> Acyclic(t)
  {
    hide Acyclic;
    var none: seq<Statement> := [];
    assert none[..0] == none;
    assert AlwaysAcyclic(t, none) ==> Acyclic(Run(t, none[..0]));
    assert Run(t, none) == t;
  }

  lemma NotAlways(t: Rows, statements: seq<Statement>)
    requires !Acyclic(t)
    ensures !AlwaysAcyclic(t, statements)
  {
    hide Acyclic;
    assert statements[..0] == [];
    assert !Acyclic(Run(t, statements[..0]));
  }

  lemma {:induction false} RunConstraints(t: Rows, statements: seq<Statement>)
    requires Constraints(t)
    ensures Constraints(Run(t, statements))
    decreases |statements|
  {
    hide Constraints, Step;
    if statements != [] {
      StepKeepsChains(t, statements[0]);
      RunConstraints(Step(t, statements[0]), statements[1..]);
    }
  }

  /** Without updates and deletes of several rows a cycle never goes away. */
  lemma {:induction false} CyclesStay(t: Rows, statements: seq<Statement>)
    requires Constraints(t) && forall s :: s in statements ==> !ManyChanged(s)
    ensures Acyclic(Run(t, statements)) <==> Acyclic(t) && OrderlyRun(t, statements)
    decreases |statements|
  {
    hide Constraints, Acyclic, Step, Orderly, ManyChanged, Accepts;
    if statements != [] {
      assert statements[0] in statements;
      StepKeepsChains(t, statements[0]);
      CyclesStay(Step(t, statements[0]), statements[1..]);
    }
  }

  // ----- chains -----

  /** Each row of `p` supersedes the next one. */
  predicate Path(t: Rows, p: seq<Id>) {
    && p != [] && (forall i :: 0 <= i < |p| ==> p[i] in t)
    && forall i :: 0 <= i < |p| - 1 ==> t[p[i]].supersedes == Some(p[i + 1])
  }

  /** From a newest row, which no row supersedes, to a root, which supersedes none. */
  predicate Chain(t: Rows, p: seq<Id>) {
    Path(t, p) && !Referenced(t, p[0]) && t[p[|p| - 1]].supersedes == None
  }

  lemma {:induction false} PathToRoot(t: Rows, rank: map<Id, nat>, id: Id) returns (p: seq<Id>)
    requires Ranks(rank, t) && id in t
    ensures Path(t, p) && p[0] == id && t[p[|p| - 1]].supersedes == None
    ensures forall i :: 0 < i < |p| ==> rank[p[i]] < rank[id]
    decreases rank[id]
  {
    match t[id].supersedes
    case None =>
      p := [id];
    case Some(older) =>
      var rest := PathToRoot(t, rank, older);
      p := [id] + rest;
      assert forall i :: 0 < i < |p| ==> p[i] == rest[i - 1];
  }

  lemma {:induction false} ExtendToNewest(t: Rows, rank: map<Id, nat>, p: seq<Id>) returns (q: seq<Id>)
    requires Ranks(rank, t) && Path(t, p) && t[p[|p| - 1]].supersedes == None
    requires forall i :: 0 < i < |p| ==> rank[p[i]] < rank[p[0]]
    ensures Chain(t, q) && p[0] in q
    decreases |t.Keys - (set x | x in p)|
  {
    if !Referenced(t, p[0]) {
      q := p;
    } else {
      var k :| k in t && t[k].supersedes == Some(p[0]);
      var longer := [k] + p;
      assert rank[p[0]] < rank[k];
      assert k !in p;
      assert forall i :: 0 < i < |longer| ==> longer[i] == p[i - 1];
      SmallerRest(t.Keys, p, k);
      q := ExtendToNewest(t, rank, longer);
      LiesBelow(t, q, k, p[0]);
    }
  }

  lemma SmallerRest(all: set<Id>, p: seq<Id>, k: Id)
    requires k in all && k !in p
    ensures |all - (set x | x in [k] + p)| < |all - (set x | x in p)|
  {
    var a, b := all - (set x | x in [k] + p), all - (set x | x in p);
    assert k in b;
    assert a == b - {k};
  }

  lemma LiesBelow(t: Rows, q: seq<Id>, k: Id, older: Id)
    requires Chain(t, q) && k in q && k in t && t[k].supersedes == Some(older)
    ensures older in q
  {
    var i :| 0 <= i < |q| && q[i] == k;
    assert i < |q| - 1;
    assert q[i + 1] == older;
  }

  lemma Superseded(t: Rows, p: seq<Id>, i: nat)
    requires Path(t, p) && 0 < i < |p|
    ensures Referenced(t, p[i])
  {
    assert t[p[i - 1]].supersedes == Some(p[i]);
  }

  lemma NextOnChain(t: Rows, p: seq<Id>, i: nat)
    requires Chain(t, p) && i < |p|
    ensures t[p[i]].supersedes == if i < |p| - 1 then Some(p[i + 1]) else None
  {
  }

  /** Two chains through one row agree below it, ... */
  lemma {:induction false} SameBelow(t: Rows, p: seq<Id>, i: nat, q: seq<Id>, j: nat)
    requires Chain(t, p) && Chain(t, q) && i < |p| && j < |q| && p[i] == q[j]
    ensures p[i..] == q[j..]
    decreases |p| - i
  {
    NextOnChain(t, p, i);
    NextOnChain(t, q, j);
    if i < |p| - 1 {
      SameBelow(t, p, i + 1, q, j + 1);
      assert p[i..] == [p[i]] + p[i + 1..] && q[j..] == [q[j]] + q[j + 1..];
    } else {
      assert p[i..] == [p[i]] && q[j..] == [q[j]];
    }
  }

  /** ... and above it. */
  lemma {:induction false} SameAbove(t: Rows, p: seq<Id>, i: nat, q: seq<Id>, j: nat)
    requires Unique(t) && Chain(t, p) && Chain(t, q) && i < |p| && j < |q| && p[i] == q[j]
    ensures i == j && p[..i] == q[..j]
    decreases i
  {
    if i > 0 { Superseded(t, p, i); }
    if j > 0 { Superseded(t, q, j); }
    if i > 0 && j > 0 {
      assert t[p[i - 1]].supersedes == t[q[j - 1]].supersedes;
      SameAbove(t, p, i - 1, q, j - 1);
      assert p[..i] == p[..i - 1] + [p[i - 1]] && q[..j] == q[..j - 1] + [q[j - 1]];
    }
  }

  ghost predicate OnOneChain(t: Rows, id: Id) {
    && (exists p :: Chain(t, p) && id in p)
    && forall p, q :: Chain(t, p) && Chain(t, q) && id in p && id in q ==> p == q
  }

  lemma SomeChain(t: Rows, id: Id) returns (p: seq<Id>)
    requires Acyclic(t) && id in t
    ensures Chain(t, p) && id in p
  {
    hide Path, Chain;
    var rank :| Ranks(rank, t);
    var down := PathToRoot(t, rank, id);
    p := ExtendToNewest(t, rank, down);
  }

  lemma OnlyChain(t: Rows, p: seq<Id>, q: seq<Id>, i: nat, j: nat)
    requires Unique(t) && Chain(t, p) && Chain(t, q) && i < |p| && j < |q| && p[i] == q[j]
    ensures p == q && i == j
  {
    SameAbove(t, p, i, q, j);
    SameBelow(t, p, i, q, j);
    hide *;
    assert p == p[..i] + p[i..] && q == q[..j] + q[j..];
  }

  lemma EveryRowOnOneChain(t: Rows, id: Id)
    requires Constraints(t) && Acyclic(t) && id in t
    ensures OnOneChain(t, id)
  {
    hide Chain, Acyclic, Unique;
    var whole := SomeChain(t, id);
    forall p, q | Chain(t, p) && Chain(t, q) && id in p && id in q ensures p == q {
      var i :| 0 <= i < |p| && p[i] == id;
      var j :| 0 <= j < |q| && q[j] == id;
      OnlyChain(t, p, q, i, j);
    }
  }

  /** How many rows of its chain stand from the row down to the root. */
  ghost function Height(t: Rows, id: Id): nat
    requires OnOneChain(t, id)
  {
    var p :| Chain(t, p) && id in p;
    var i :| 0 <= i < |p| && p[i] == id;
    |p| - i
  }

  lemma HeightAt(t: Rows, p: seq<Id>, i: nat)
    requires Unique(t) && Chain(t, p) && i < |p| && OnOneChain(t, p[i])
    ensures Height(t, p[i]) == |p| - i
  {
    hide Chain, Unique;
    var q :| Chain(t, q) && p[i] in q && exists j :: 0 <= j < |q| && q[j] == p[i] && Height(t, p[i]) == |q| - j;
    var j :| 0 <= j < |q| && q[j] == p[i] && Height(t, p[i]) == |q| - j;
    OnlyChain(t, p, q, i, j);
  }

  lemma HeightFalls(t: Rows, id: Id, older: Id)
    requires Constraints(t) && id in t && t[id].supersedes == Some(older)
    requires OnOneChain(t, id) && OnOneChain(t, older)
    ensures Height(t, older) < Height(t, id)
  {
    hide Height;
    var p :| Chain(t, p) && id in p;
    var i :| 0 <= i < |p| && p[i] == id;
    NextOnChain(t, p, i);
    HeightAt(t, p, i);
    HeightAt(t, p, i + 1);
  }

  ghost predicate AllOnOneChain(t: Rows) { forall id :: id in t ==> OnOneChain(t, id) }

  /** The table is a set of chains exactly when its pointers have no cycle. */
  lemma ChainsExactly(t: Rows)
    requires Constraints(t)
    ensures AllOnOneChain(t) <==> Acyclic(t)
  {
    hide OnOneChain, Unique;
    if Acyclic(t) {
      forall id | id in t ensures OnOneChain(t, id) {
        EveryRowOnOneChain(t, id);
      }
    }
    if AllOnOneChain(t) {
      var rank: map<Id, nat> := map id | id in t :: Height(t, id);
      forall k | k in t && t[k].supersedes.Some? ensures rank[t[k].supersedes.value] < rank[k] {
        HeightFalls(t, k, t[k].supersedes.value);
      }
      assert Ranks(rank, t);
    }
  }

  /** After the migration and over any run of statements, accepted or refused: at every moment each
      invitation lies on exactly one chain with one newest member and one root, exactly when every
      accepted statement is orderly. */
  lemma ReplacementsAreChains(t: Rows, statements: seq<Statement>)
    requires Migrated(t)
    ensures (forall n :: 0 <= n <= |statements| ==> AllOnOneChain(Run(t, statements[..n]))) <==> OrderlyRun(t, statements)
  {
    hide AllOnOneChain, Acyclic, Constraints;
    MigratedIsAcyclic(t);
    RunKeepsChains(t, statements);
    forall n | 0 <= n <= |statements| ensures AllOnOneChain(Run(t, statements[..n])) <==> Acyclic(Run(t, statements[..n])) {
      RunConstraints(t, statements[..n]);
      ChainsExactly(Run(t, statements[..n]));
    }
  }

  /** Without updates and deletes of several rows the last moment decides: no later statement removes a
      cycle that a batch of inserts made. */
  lemma BatchesKeepChains(t: Rows, statements: seq<Statement>)
    requires Migrated(t) && forall s :: s in statements ==> !ManyChanged(s)
    ensures AllOnOneChain(Run(t, statements)) <==> OrderlyRun(t, statements)
  {
    hide AllOnOneChain, Acyclic, ManyChanged, Constraints;
    MigratedIsAcyclic(t);
    CyclesStay(t, statements);
    RunConstraints(t, statements);
    ChainsExactly(Run(t, statements));
  }

  /** Single-row statements are always orderly, and so are deletes of any rows. */
  lemma {:induction false} SingleRowsOrderly(t: Rows, statements: seq<Statement>)
    requires forall s :: s in statements ==> !s.InsertMany? && !s.UpdateMany?
    ensures OrderlyRun(t, statements)
    decreases |statements|
  {
    hide Step, Accepts;
    if statements != [] {
      assert statements[0] in statements;
      SingleRowsOrderly(Step(t, statements[0]), statements[1..]);
    }
  }

  /** After the migration and any run of single-row inserts and updates and of any deletes every
      invitation lies on one chain. */
  lemma SingleRowsKeepChains(t: Rows, statements: seq<Statement>, id: Id)
    requires Migrated(t) && id in Run(t, statements)
    requires forall s :: s in statements ==> !s.InsertMany? && !s.UpdateMany?
    ensures OnOneChain(Run(t, statements), id)
  {
    hide OnOneChain;
    SingleRowsOrderly(t, statements);
    ReplacementsAreChains(t, statements);
    assert statements[..|statements|] == statements;
    assert AllOnOneChain(Run(t, statements[..|statements|]));
  }

  lemma MigratedIsAcyclic(t: Rows)
    requires Migrated(t)
    ensures Constraints(t) && Acyclic(t)
  {
    var rank: map<Id, nat> := map k | k in t :: 0;
    assert Ranks(rank, t);
  }

  /** The failing input: one insert of two rows that supersede each other is accepted into an empty table
      and makes a cycle. */
  lemma TwoRowsMakeACycle(a: Row, b: Row)
    requires a.supersedes == Some(2) && b.supersedes == Some(1)
    ensures var s := InsertMany(map[1 := a, 2 := b]);
            Accepts(map[], s) && !Orderly(map[], s) && !AllOnOneChain(Step(map[], s))
  {
    hide Acyclic, AllOnOneChain;
    var batch: Rows := map[1 := a, 2 := b];
    ConstraintsAllowACycle(a, b);
    var none: Rows := map[];
    assert none + batch == batch;
    assert Inside(batch) == batch;
    ChainsExactly(batch);
  }

  /** The other failing input: one update that moves row 1 to key 9 and row 3 to key 1 is accepted, since
      key 1 exists again when the statement ends, and makes a cycle of a chain. */
  lemma TwoKeysMakeACycle(a: Row, b: Row, c: Row)
    requires a.supersedes == None && b.supersedes == Some(1) && c.supersedes == Some(2)
    ensures var t: Rows := map[1 := a, 2 := b, 3 := c];
            var s := UpdateMany([Change(1, 9, a), Change(3, 1, c)]);
            && Constraints(t) && AllOnOneChain(t) && Accepts(t, s)
            && Step(t, s) == map[9 := a, 2 := b, 1 := c] && !Orderly(t, s) && !AllOnOneChain(Step(t, s))
  {
    hide Acyclic, AllOnOneChain, Untangled;
    var t: Rows := map[1 := a, 2 := b, 3 := c];
    var u: Rows := map[9 := a, 2 := b, 1 := c];
    var s := UpdateMany([Change(1, 9, a), Change(3, 1, c)]);
    TwoKeysMove(t, u, a, b, c);
    var rank: map<Id, nat> := map[1 := 0, 2 := 1, 3 := 2];
    assert Ranks(rank, t);
    IsRank(rank, t);
    StepKeepsChains(t, s);
    TwoCycle(u, 1, 2);
    ChainsExactly(t);
    ChainsExactly(u);
  }

  lemma TwoCycle(t: Rows, a: Id, b: Id)
    requires a in t && b in t && t[a].supersedes == Some(b) && t[b].supersedes == Some(a)
    ensures !Acyclic(t)
  {
    assert forall rank :: Ranks(rank, t) ==> rank[a] < rank[b] && rank[b] < rank[a];
  }

  lemma TwoKeysMove(t: Rows, u: Rows, a: Row, b: Row, c: Row)
    requires a.supersedes == None && b.supersedes == Some(1) && c.supersedes == Some(2)
    requires t == map[1 := a, 2 := b, 3 := c] && u == map[9 := a, 2 := b, 1 := c]
    ensures var s := UpdateMany([Change(1, 9, a), Change(3, 1, c)]);
            Constraints(t) && Constraints(u) && Accepts(t, s) && Step(t, s) == u
  {
    hide Constraints, TriggerAllows;
    var first, second := Change(1, 9, a), Change(3, 1, c);
    var changes := [first, second];
    TriggerRepeats(a);
    TriggerRepeats(c);
    ThreeRows(1, 2, 3, a, b, c);
    SwappedConstraints(u, a, b, c);
    var mid: Rows := map[9 := a, 2 := b, 3 := c];
    assert (t - {1})[9 := a] == mid && (mid - {3})[1 := c] == u;
    assert changes[1..] == [second] && [second][1..] == [];
    assert Moves(u, []) == Some(u);
    assert Moves(mid, [second]) == Some(u);
    assert Moves(t, changes) == Some(u);
  }

  lemma TriggerRepeats(r: Row)
    ensures TriggerAllows(r, r)
  {
  }

  lemma ThreeRows(x: Id, y: Id, z: Id, a: Row, b: Row, c: Row)
    requires x != y && y != z && x != z && a.supersedes == None && b.supersedes == Some(x) && c.supersedes == Some(y)
    ensures Constraints(map[x := a, y := b, z := c])
  {
  }

  lemma SwappedConstraints(u: Rows, a: Row, b: Row, c: Row)
    requires a.supersedes == None && b.supersedes == Some(1) && c.supersedes == Some(2)
    requires u == map[9 := a, 2 := b, 1 := c]
    ensures Constraints(u)
  {
  }

  /** The constraints alone do not exclude a cycle: two rows that supersede each other meet them all. */
  lemma ConstraintsAllowACycle(a: Row, b: Row)
    requires a.supersedes == Some(2) && b.supersedes == Some(1)
    ensures Constraints(map[1 := a, 2 := b]) && !Acyclic(map[1 := a, 2 := b])
  {
    forall rank ensures !Ranks(rank, map[1 := a, 2 := b]) {
      NoRank(rank, a, b);
    }
  }

  lemma NoRank(rank: map<Id, nat>, a: Row, b: Row)
    requires a.supersedes == Some(2) && b.supersedes == Some(1)
    ensures !Ranks(rank, map[1 := a, 2 := b])
  {
    var t: Rows := map[1 := a, 2 := b];
    assert t[1] == a && t[2] == b;
  }

  // ----- the life of one row -----

  /** Where a row is after a statement: its key can change while nothing refers to it. */
  function Moved(t: Rows, s: Statement, at: Option<Id>): Option<Id> {
    if at.None? || !Accepts(t, s) then at
    else
      match s
      case Insert(_, _) => at
      case Update(id, newId, _) => if at.value == id then Some(newId) else at
      case Delete(id) => if at.value == id then None else at
      case InsertMany(_) => at
      case UpdateMany(changes) => Some(NewKey(changes, at.value))
      case DeleteMany(ids) => if at.value in ids then None else at
  }

  /** The key of the row that started at `at`, or None once it is deleted. */
  function Follow(t: Rows, statements: seq<Statement>, at: Option<Id>): Option<Id>
    decreases |statements|
  {
    if statements == [] then at else Follow(Step(t, statements[0]), statements[1..], Moved(t, statements[0], at))
  }

  predicate Continues(before: Row, after: Row) {
    after.snapshot == before.snapshot && after.supersedes == before.supersedes &&
    (before.status == Pending || after.status == before.status)
  }

  /** Over every run: as long as the row exists its snapshot and its pointer are the ones it had, and a
      status other than pending is its last. */
  lemma {:induction false} RowKeepsSnapshot(t: Rows, statements: seq<Statement>, id: Id)
    requires id in t
    ensures var at := Follow(t, statements, Some(id));
            at.Some? ==> at.value in Run(t, statements) && Continues(t[id], Run(t, statements)[at.value])
    decreases |statements|
  {
    if statements != [] {
      var s := statements[0];
      var next := Moved(t, s, Some(id));
      if next.Some? {
        MovedRow(t, s, id);
        hide Step, Moved;
        RowKeepsSnapshot(Step(t, s), statements[1..], next.value);
      } else {
        GoneForGood(Step(t, s), statements[1..]);
      }
    }
  }

  lemma MovedRow(t: Rows, s: Statement, id: Id)
    requires id in t && Moved(t, s, Some(id)).Some?
    ensures var next := Moved(t, s, Some(id)).value;
            next in Step(t, s) && Continues(t[id], Step(t, s)[next])
  {
    hide Constraints, Referenced, Moves, NewKey, OncePerRow;
    if s.UpdateMany? && Accepts(t, s) {
      MovedTo(t, s.changes, id);
    }
  }

  lemma {:induction false} GoneForGood(t: Rows, statements: seq<Statement>)
    ensures Follow(t, statements, None) == None
    decreases |statements|
  {
    if statements != [] {
      GoneForGood(Step(t, statements[0]), statements[1..]);
    }
  }

  /** How often the row changes its status during a run. */
  function StatusChanges(t: Rows, statements: seq<Statement>, at: Option<Id>): nat
    requires at.Some? ==> at.value in t
    decreases |statements|
  {
    if statements == [] || at.None? then 0
    else
      var s := statements[0];
      var next := Moved(t, s, at);
      if next.None? then 0
      else
        MovedRow(t, s, at.value);
        (if Step(t, s)[next.value].status != t[at.value].status then 1 else 0) +
        StatusChanges(Step(t, s), statements[1..], next)
  }

  /** A row leaves the pending status at most once, and changes status in no other way. */
  lemma {:induction false} StatusChangesOnce(t: Rows, statements: seq<Statement>, id: Id)
    requires id in t
    ensures StatusChanges(t, statements, Some(id)) <= if t[id].status == Pending then 1 else 0
    decreases |statements|
  {
    if statements != [] {
      var s := statements[0];
      var next := Moved(t, s, Some(id));
      if next.Some? {
        MovedRow(t, s, id);
        LeavesPending(t, s, id);
        hide Step, Moved;
        StatusChangesOnce(Step(t, s), statements[1..], next.value);
      }
    }
  }

  lemma LeavesPending(t: Rows, s: Statement, id: Id)
    requires id in t && Moved(t, s, Some(id)).Some?
    ensures var next := Moved(t, s, Some(id)).value;
            next in Step(t, s) && (Step(t, s)[next].status != t[id].status ==> Step(t, s)[next].status != Pending)
  {
    hide Constraints, Referenced, Moves, NewKey, OncePerRow;
    if s.UpdateMany? && Accepts(t, s) {
      MovedTo(t, s.changes, id);
    }
  }
}
