/** The data migration of `migrations/versions/0003_invitation_credentials.py`: two UPDATE passes over the
    invitations, and the constraints added after them. */
module InvitationBackfill {
  import opened Text

  /** UUIDs, as numbers in their order. */
  type Id = nat

  datatype Status = Pending | Accepted | Expired | Revoked

  datatype Via = MagicLink | Code | OtherMethod

  datatype Account = Account(email: string, displayName: string)

  /** A row after the columns were added; those the migration fills are empty at first. */
  datatype Row = Row(
    id: Id, actionId: Id, invitedBy: Id, email: string, role: string, status: Status, tokenDigest: string,
    createdAt: int, updatedAt: int, acceptedAt: Option<int>,
    displayName: Option<string>, actionName: Option<string>, invitedByName: Option<string>,
    codeDigest: Option<string>, acceptedUserId: Option<Id>, acceptedVia: Option<Via>,
    expiredAt: Option<int>, revokedAt: Option<int>, failedCodeAttempts: nat, lastFailedCodeAt: Option<int>)

  /** The tables the first pass joins: action names and accounts. */
  datatype Joined = Joined(actions: map<Id, string>, accounts: map<Id, Account>)

  // ----- what the older schema guarantees -----

  ghost predicate EmailsUnique(accounts: map<Id, Account>) {
    forall a, b :: a in accounts && b in accounts && accounts[a].email == accounts[b].email ==> a == b
  }

  predicate FreshColumns(r: Row) {
    && r.displayName.None? && r.actionName.None? && r.invitedByName.None? && r.codeDigest.None?
    && r.acceptedUserId.None? && r.acceptedVia.None? && r.expiredAt.None? && r.revokedAt.None?
    && r.failedCodeAttempts == 0 && r.lastFailedCodeAt.None?
  }

  ghost predicate Legacy(rows: seq<Row>, db: Joined) {
    && EmailsUnique(db.accounts)
    && (forall i :: 0 <= i < |rows| ==>
          FreshColumns(rows[i]) && Hex64(rows[i].tokenDigest) && rows[i].actionId in db.actions && rows[i].invitedBy in db.accounts)
    && DistinctIds(rows)
    && (forall i, j :: 0 <= i < j < |rows| ==> rows[i].tokenDigest != rows[j].tokenDigest)
  }

  predicate DistinctIds(rows: seq<Row>) {
    forall i, j :: 0 <= i < j < |rows| ==> rows[i].id != rows[j].id
  }

  // ----- the first pass -----

  ghost predicate HasAccount(accounts: map<Id, Account>, email: string) {
    exists a :: a in accounts && accounts[a].email == email
  }

  /** `SELECT accepted_account.id ... WHERE accepted_account.email = invitation.email_snapshot` */
  function AccountOf(accounts: map<Id, Account>, email: string): (r: Option<Id>)
    requires EmailsUnique(accounts)
    ensures r.Some? ==> r.value in accounts && accounts[r.value].email == email
    ensures r.None? <==> !HasAccount(accounts, email)
  {
    if a :| a in accounts && accounts[a].email == email then
      var found :| found in accounts && accounts[found].email == email;
      Some(found)
    else
      None
  }

  function Backfilled(r: Row, db: Joined): Row
    requires EmailsUnique(db.accounts) && r.actionId in db.actions && r.invitedBy in db.accounts
  {
    r.(displayName := Some(r.email),
       actionName := Some(db.actions[r.actionId]),
       invitedByName := Some(db.accounts[r.invitedBy].displayName),
       codeDigest := Some(r.tokenDigest),
       acceptedAt := if r.status != Accepted then None else if r.acceptedAt.Some? then r.acceptedAt else Some(r.updatedAt),
       acceptedUserId := if r.status == Accepted then AccountOf(db.accounts, r.email) else None,
       acceptedVia := if r.status == Accepted then Some(MagicLink) else None,
       expiredAt := if r.status == Expired then Some(r.updatedAt) else None,
       revokedAt := if r.status == Revoked then Some(r.updatedAt) else None)
  }

  function FirstPass(rows: seq<Row>, db: Joined): (r: seq<Row>)
    requires Legacy(rows, db)
    ensures |r| == |rows| && forall i :: 0 <= i < |rows| ==> r[i] == Backfilled(rows[i], db)
  {
    seq(|rows|, i requires 0 <= i < |rows| => Backfilled(rows[i], db))
  }

  // ----- the second pass -----

  predicate SameTarget(a: Row, b: Row) { a.actionId == b.actionId && a.email == b.email && a.role == b.role }

  /** `ORDER BY created_at DESC, id DESC` puts `a` before `b`. */
  predicate Newer(a: Row, b: Row) { a.createdAt > b.createdAt || (a.createdAt == b.createdAt && a.id > b.id) }

  predicate Ahead(a: Row, b: Row) {
    a.status == Pending && b.status == Pending && SameTarget(a, b) && Newer(a, b)
  }

  function AheadOf(rows: seq<Row>, i: nat): set<nat>
    requires i < |rows|
  {
    set j: nat | j < |rows| && Ahead(rows[j], rows[i])
  }

  /** `row_number()` of a pending row within its target. */
  function Position(rows: seq<Row>, i: nat): nat
    requires i < |rows|
  {
    1 + |AheadOf(rows, i)|
  }

  function Revoke(r: Row): Row { r.(status := Revoked, revokedAt := Some(r.updatedAt)) }

  function Kept(rows: seq<Row>, i: nat): Row
    requires i < |rows|
  {
    if rows[i].status == Pending && Position(rows, i) > 1 then Revoke(rows[i]) else rows[i]
  }

  function SecondPass(rows: seq<Row>): (r: seq<Row>)
    ensures |r| == |rows| && forall i :: 0 <= i < |rows| ==> r[i] == Kept(rows, i)
  {
    seq(|rows|, i requires 0 <= i < |rows| => Kept(rows, i))
  }

  // ----- the constraints -----

  /** `ck_action_invitation_lifecycle_timestamps` */
  predicate Lifecycle(r: Row) {
    match r.status
    case Pending => r.acceptedAt.None? && r.acceptedUserId.None? && r.acceptedVia.None? && r.expiredAt.None? && r.revokedAt.None?
    case Accepted => r.acceptedAt.Some? && r.acceptedUserId.Some? && r.acceptedVia.Some? && r.expiredAt.None? && r.revokedAt.None?
    case Expired => r.acceptedAt.None? && r.acceptedUserId.None? && r.acceptedVia.None? && r.expiredAt.Some? && r.revokedAt.None?
    case Revoked => r.acceptedAt.None? && r.acceptedUserId.None? && r.acceptedVia.None? && r.expiredAt.None? && r.revokedAt.Some?
  }

  /** The other checks and the NOT NULL columns. */
  predicate RowChecks(r: Row) {
    && r.displayName.Some? && r.actionName.Some? && r.invitedByName.Some? && r.codeDigest.Some?
    && Hex64(r.codeDigest.value)
    && (r.acceptedVia.None? || r.acceptedVia.value == MagicLink || r.acceptedVia.value == Code)
    && r.failedCodeAttempts <= 5 && (r.failedCodeAttempts == 0 <==> r.lastFailedCodeAt.None?)
  }

  /** `uq_action_invitation_code_digest` */
  predicate CodesUnique(rows: seq<Row>) {
    forall i, j :: 0 <= i < j < |rows| ==> rows[i].codeDigest.None? || rows[i].codeDigest != rows[j].codeDigest
  }

  /** `uq_action_invitation_pending_target` */
  predicate OnePendingPerTarget(rows: seq<Row>) {
    forall i, j :: 0 <= i < j < |rows| && rows[i].status == Pending && rows[j].status == Pending ==>
      !SameTarget(rows[i], rows[j])
  }

  predicate Constraints(rows: seq<Row>) {
    && CodesUnique(rows) && OnePendingPerTarget(rows)
    && forall i :: 0 <= i < |rows| ==> RowChecks(rows[i]) && Lifecycle(rows[i])
  }

  // ----- the migration, in place -----

  /** `UPDATE ... SET ... FROM charity_action, user_account` */
  method Fill(table: array<Row>, db: Joined)
    requires Legacy(table[..], db)
    modifies table
    ensures table[..] == FirstPass(old(table[..]), db)
  {
    ghost var before := table[..];
    for i := 0 to table.Length
      invariant forall k :: 0 <= k < i ==> table[k] == FirstPass(before, db)[k]
      invariant forall k :: i <= k < table.Length ==> table[k] == before[k]
    {
      hide Backfilled, EmailsUnique;
      assert table[i] == before[i];
      table[i] := Backfilled(table[i], db);
    }
  }

  /** `WITH ranked AS (...) UPDATE ...`: all positions are computed before the first row changes. */
  method RevokeOlder(table: array<Row>)
    modifies table
    ensures table[..] == SecondPass(old(table[..]))
  {
    ghost var before := table[..];
    var ranked := new nat[table.Length];
    for i := 0 to table.Length
      invariant table[..] == before
      invariant forall k :: 0 <= k < i ==> ranked[k] == Position(before, k)
    {
      ranked[i] := Position(table[..], i);
    }
    for i := 0 to table.Length
      invariant forall k :: 0 <= k < table.Length ==> ranked[k] == Position(before, k)
      invariant forall k :: 0 <= k < i ==> table[k] == Kept(before, k)
      invariant forall k :: i <= k < table.Length ==> table[k] == before[k]
    {
      hide Position;
      if table[i].status == Pending && ranked[i] > 1 {
        table[i] := table[i].(status := Revoked, revokedAt := Some(table[i].updatedAt));
      }
    }
  }

  /** `upgrade`: whether every constraint could be added, and the table at that point. */
  method Upgrade(table: array<Row>, db: Joined) returns (ok: bool)
    requires Legacy(table[..], db)
    modifies table
    ensures table[..] == SecondPass(FirstPass(old(table[..]), db))
    ensures ok == Constraints(table[..])
  {
    Fill(table, db);
    RevokeOlder(table);
    ok := Constraints(table[..]);
  }

  // ----- which rows stay pending -----

  /** Position one is exactly having no newer pending row for the same target. */
  lemma FirstIsNewest(rows: seq<Row>, i: nat)
    requires i < |rows|
    ensures Position(rows, i) > 1 <==> exists j :: 0 <= j < |rows| && Ahead(rows[j], rows[i])
  {
    if j :| 0 <= j < |rows| && Ahead(rows[j], rows[i]) {
      assert j in AheadOf(rows, i);
    }
    if AheadOf(rows, i) != {} {
      var j :| j in AheadOf(rows, i);
    }
  }

  /** Every pending row has a newest one for its target. */
  lemma {:induction false} NewestExists(rows: seq<Row>, i: nat) returns (top: nat)
    requires i < |rows| && rows[i].status == Pending
    ensures top < |rows| && rows[top].status == Pending && SameTarget(rows[top], rows[i]) && AheadOf(rows, top) == {}
    decreases |AheadOf(rows, i)|
  {
    if AheadOf(rows, i) == {} {
      top := i;
    } else {
      var j :| j in AheadOf(rows, i);
      assert j !in AheadOf(rows, j);
      assert AheadOf(rows, j) < AheadOf(rows, i);
      Smaller(AheadOf(rows, j), AheadOf(rows, i));
      top := NewestExists(rows, j);
    }
  }

  lemma Smaller(a: set<nat>, b: set<nat>)
    requires a < b
    ensures |a| < |b|
  {
    assert b == a + (b - a);
  }

  lemma AtMostOnePending(rows: seq<Row>)
    requires DistinctIds(rows)
    ensures OnePendingPerTarget(SecondPass(rows))
  {
    var f := SecondPass(rows);
    hide Position;
    forall i, j | 0 <= i < j < |f| && f[i].status == Pending && f[j].status == Pending
      ensures !SameTarget(f[i], f[j])
    {
      FirstIsNewest(rows, i);
      FirstIsNewest(rows, j);
      assert !Ahead(rows[i], rows[j]) && !Ahead(rows[j], rows[i]);
    }
  }

  // ----- the theorem -----

  /** Every accepted row has an account with its address. */
  ghost predicate AcceptedHaveAccounts(rows: seq<Row>, db: Joined) {
    forall i :: 0 <= i < |rows| && rows[i].status == Accepted ==> HasAccount(db.accounts, rows[i].email)
  }

  lemma BackfilledChecks(r: Row, db: Joined)
    requires EmailsUnique(db.accounts) && r.actionId in db.actions && r.invitedBy in db.accounts
    requires FreshColumns(r) && Hex64(r.tokenDigest)
    ensures RowChecks(Backfilled(r, db)) && RowChecks(Revoke(Backfilled(r, db)))
    ensures Lifecycle(Backfilled(r, db)) <==> (r.status == Accepted ==> HasAccount(db.accounts, r.email))
    ensures r.status == Pending ==> Lifecycle(Revoke(Backfilled(r, db)))
  {
    hide Hex64, HasAccount, EmailsUnique;
  }

  /** The two passes establish every constraint exactly when each accepted invitation has an account. */
  lemma BackfillEstablishesConstraints(rows: seq<Row>, db: Joined)
    requires Legacy(rows, db)
    ensures Constraints(SecondPass(FirstPass(rows, db))) <==> AcceptedHaveAccounts(rows, db)
  {
    var mid := FirstPass(rows, db);
    var f := SecondPass(mid);
    MiddleDistinct(rows, db);
    AtMostOnePending(mid);
    CodesStayUnique(rows, db);
    hide OnePendingPerTarget, CodesUnique, EmailsUnique, RowChecks, Lifecycle, Hex64, Position, HasAccount, Backfilled;
    forall i | 0 <= i < |rows|
      ensures RowChecks(f[i]) && (Lifecycle(f[i]) <==> (rows[i].status == Accepted ==> HasAccount(db.accounts, rows[i].email)))
    {
      assert f[i] == Kept(mid, i);
      BackfilledChecks(rows[i], db);
      StatusKept(rows[i], db);
    }
  }

  lemma StatusKept(r: Row, db: Joined)
    requires EmailsUnique(db.accounts) && r.actionId in db.actions && r.invitedBy in db.accounts
    ensures Backfilled(r, db).status == r.status
  {
    hide EmailsUnique;
  }

  lemma MiddleDistinct(rows: seq<Row>, db: Joined)
    requires Legacy(rows, db)
    ensures DistinctIds(FirstPass(rows, db))
  {
    hide EmailsUnique, Hex64;
  }

  lemma CodesStayUnique(rows: seq<Row>, db: Joined)
    requires Legacy(rows, db)
    ensures CodesUnique(SecondPass(FirstPass(rows, db)))
  {
    hide EmailsUnique, Hex64, Position;
    var f := SecondPass(FirstPass(rows, db));
    assert forall i :: 0 <= i < |f| ==> f[i].codeDigest == Some(rows[i].tokenDigest);
  }

  /** What a row had before the migration and still has, but for its status. */
  predicate SameInvitation(before: Row, after: Row) {
    && after.id == before.id && SameTarget(before, after) && after.invitedBy == before.invitedBy
    && after.tokenDigest == before.tokenDigest && after.createdAt == before.createdAt && after.updatedAt == before.updatedAt
    && (before.status == Accepted && before.acceptedAt.Some? ==> after.acceptedAt == before.acceptedAt)
  }

  /** No row is lost, and a status changes only from pending to revoked, for a row that is not the newest
      pending one of its target. */
  lemma NoRowLost(rows: seq<Row>, db: Joined, i: nat)
    requires Legacy(rows, db) && i < |rows|
    ensures var f := SecondPass(FirstPass(rows, db));
            && |f| == |rows| && SameInvitation(rows[i], f[i])
            && f[i].status == (if exists j :: 0 <= j < |rows| && Ahead(rows[j], rows[i]) then Revoked else rows[i].status)
  {
    hide EmailsUnique, Hex64, Position;
    var mid := FirstPass(rows, db);
    assert SecondPass(mid)[i] == Kept(mid, i);
    FirstIsNewest(mid, i);
    forall j | 0 <= j < |rows| ensures Ahead(mid[j], mid[i]) <==> Ahead(rows[j], rows[i]) {
    }
  }

  /** Row `j` is a pending invitation to the same action, address and role, created after row `i`, or at
      the same time with a greater identifier. */
  predicate Supersedes(rows: seq<Row>, j: nat, i: nat)
    requires i < |rows| && j < |rows|
  {
    && rows[j].status == Pending && rows[i].status == Pending
    && rows[j].actionId == rows[i].actionId && rows[j].email == rows[i].email && rows[j].role == rows[i].role
    && (rows[i].createdAt < rows[j].createdAt || (rows[i].createdAt == rows[j].createdAt && rows[i].id < rows[j].id))
  }

  ghost predicate IsSuperseded(rows: seq<Row>, i: nat)
    requires i < |rows|
  {
    exists j: nat :: j < |rows| && Supersedes(rows, j, i)
  }

  /** The columns the migration does not write. */
  predicate SameColumns(before: Row, after: Row) {
    && after.id == before.id && after.actionId == before.actionId && after.invitedBy == before.invitedBy
    && after.email == before.email && after.role == before.role && after.tokenDigest == before.tokenDigest
    && after.createdAt == before.createdAt && after.updatedAt == before.updatedAt
    && after.failedCodeAttempts == 0 && after.lastFailedCodeAt.None?
  }

  /** The names come from the tables joined: the address itself, the action and the inviter. */
  predicate NamesFilled(before: Row, after: Row, db: Joined)
    requires before.actionId in db.actions && before.invitedBy in db.accounts
  {
    && after.displayName == Some(before.email) && after.codeDigest == Some(before.tokenDigest)
    && after.actionName == Some(db.actions[before.actionId])
    && after.invitedByName == Some(db.accounts[before.invitedBy].displayName)
  }

  /** The columns of an acceptance: time, way, and the account with the address. */
  ghost predicate AcceptanceFilled(before: Row, after: Row, db: Joined) {
    if before.status == Accepted then
      && after.acceptedVia == Some(MagicLink)
      && (after.acceptedAt == if before.acceptedAt.Some? then before.acceptedAt else Some(before.updatedAt))
      && forall a :: after.acceptedUserId == Some(a) <==> a in db.accounts && db.accounts[a].email == before.email
    else after.acceptedVia.None? && after.acceptedAt.None? && after.acceptedUserId.None?
  }

  /** Every column of every row after both passes. */
  lemma RowMigrated(rows: seq<Row>, db: Joined, i: nat)
    requires Legacy(rows, db) && i < |rows|
    ensures var before, after := rows[i], SecondPass(FirstPass(rows, db))[i];
            && SameColumns(before, after) && NamesFilled(before, after, db) && AcceptanceFilled(before, after, db)
            && after.status == (if IsSuperseded(rows, i) then Revoked else before.status)
            && after.expiredAt == (if before.status == Expired then Some(before.updatedAt) else None)
            && after.revokedAt == (if after.status == Revoked then Some(before.updatedAt) else None)
  {
    hide Hex64, Position, Ahead;
    var mid := FirstPass(rows, db);
    FirstIsNewest(mid, i);
    forall j: nat | j < |rows| ensures Ahead(mid[j], mid[i]) <==> Supersedes(rows, j, i) {
      AheadSupersedes(rows, db, j, i);
    }
    hide Supersedes, Newer, SameTarget;
    assert SecondPass(mid)[i] == Kept(mid, i);
  }

  lemma AheadSupersedes(rows: seq<Row>, db: Joined, j: nat, i: nat)
    requires Legacy(rows, db) && j < |rows| && i < |rows|
    ensures Ahead(FirstPass(rows, db)[j], FirstPass(rows, db)[i]) <==> Supersedes(rows, j, i)
  {
    hide EmailsUnique, Hex64;
  }

  /** Each target that had a pending invitation keeps exactly one, the newest by creation time, then id:
      it supersedes every other pending row of the target. */
  lemma NewestStaysPending(rows: seq<Row>, db: Joined, i: nat)
    requires Legacy(rows, db) && i < |rows| && rows[i].status == Pending
    ensures var f := SecondPass(FirstPass(rows, db));
            exists k: nat :: k < |rows| && f[k].status == Pending && (k == i || Supersedes(rows, k, i)) && OnlyPending(rows, f, k)
  {
    var f := SecondPass(FirstPass(rows, db));
    var k := NewestExists(rows, i);
    forall j | 0 <= j < |rows| ensures !Ahead(rows[j], rows[k]) {
      assert j !in AheadOf(rows, k);
    }
    NoRowLost(rows, db, k);
    TopIsNewest(rows, k);
    RowMigrated(rows, db, k);
    hide NamesFilled, AcceptanceFilled, EmailsUnique, Hex64, FirstPass, SecondPass;
    forall j: nat | j < |rows| && j != k && Competes(rows[j], rows[k])
      ensures Supersedes(rows, k, j) && f[j].status == Revoked
    {
      assert Newer(rows[k], rows[j]);
      RowMigrated(rows, db, j);
      assert Supersedes(rows, k, j);
    }
    assert k == i || Competes(rows[i], rows[k]);
  }

  /** A pending row for the same action, address and role. */
  predicate Competes(a: Row, b: Row) {
    a.status == Pending && a.actionId == b.actionId && a.email == b.email && a.role == b.role
  }

  /** All other pending rows of the target of row `k` are superseded by it and revoked. */
  predicate OnlyPending(rows: seq<Row>, after: seq<Row>, k: nat)
    requires k < |rows| == |after|
  {
    forall j: nat :: j < |rows| && j != k && Competes(rows[j], rows[k]) ==> Supersedes(rows, k, j) && after[j].status == Revoked
  }

  /** No other pending row of the target is as new. */
  predicate Top(rows: seq<Row>, k: nat)
    requires k < |rows|
  {
    rows[k].status == Pending &&
    forall j :: 0 <= j < |rows| && j != k && rows[j].status == Pending && SameTarget(rows[j], rows[k]) ==> Newer(rows[k], rows[j])
  }

  lemma TopIsNewest(rows: seq<Row>, k: nat)
    requires DistinctIds(rows) && k < |rows| && rows[k].status == Pending
    requires forall j :: 0 <= j < |rows| ==> !Ahead(rows[j], rows[k])
    ensures Top(rows, k)
  {
    forall j | 0 <= j < |rows| && j != k && rows[j].status == Pending && SameTarget(rows[j], rows[k])
      ensures Newer(rows[k], rows[j])
    {
      assert !Ahead(rows[j], rows[k]);
      assert rows[j].id != rows[k].id;
    }
  }
}
