/**
 * The persistence component (internal/repository/user_repository.go) as
 * operations on the abstract store. Each multi-statement operation runs its
 * statements on a working copy inside one transaction: it either commits the
 * working copy or rolls back to the tables it started from. PostgreSQL's
 * `nextval` is not transactional, so sequence values drawn by a transaction
 * that rolls back stay consumed.
 */
module Repository {
  import opened Wrappers
  import opened Model
  import opened Tables

  /**
   * What a call leaves behind, as Go reports it: the store afterwards, the
   * caller's value after the call (the user struct with the id the repository
   * writes back into it) and the returned error.
   */
  datatype Reply<T> = Reply(store: Store, value: T, err: Option<Error>)

  /** The statements of a transaction so far: all done, or aborted with the working copy as it stood. */
  datatype Exec = Done(work: Store) | Aborted(work: Store, err: Error)

  /** ROLLBACK: the tables return to their state at BEGIN; the sequences keep the values drawn meanwhile. */
  function Rollback(before: Store, work: Store): Store {
    before.(customerSeq := work.customerSeq, familySeq := work.familySeq)
  }

  predicate SameTables(a: Store, b: Store) {
    a.customer == b.customer && a.familyList == b.familyList && a.nationality == b.nationality
  }

  predicate SequencesAdvance(a: Store, b: Store) {
    a.customerSeq <= b.customerSeq && a.familySeq <= b.familySeq
  }

  /** The fault fails one of the family statements `from`, ..., `from + n - 1`. */
  predicate HitsFamilyStmt(fault: Fault, from: nat, n: nat) {
    fault.FailAt? && fault.step.FamilyStmt? && from <= fault.step.index < from + n
  }

  // ----- Create -----

  /** The rows COPY writes: `fl_id` drawn consecutively from `start`, `cst_id` the new user, name and dob from the payload. */
  function CopiedRows(start: int, cstId: int, fams: seq<Family>): (rows: map<int, FamilyRow>)
    ensures forall k :: k in rows <==> start <= k < start + |fams|
    ensures forall j :: 0 <= j < |fams| ==> rows[start + j] == FamilyRow(cstId, fams[j].name, fams[j].dob)
    decreases |fams|
  {
    if fams == [] then map[]
    else
      var rest := CopiedRows(start + 1, cstId, fams[1..]);
      assert forall j :: 1 <= j < |fams| ==> fams[j] == fams[1..][j - 1] && start + j == (start + 1) + (j - 1);
      rest[start := FamilyRow(cstId, fams[0].name, fams[0].dob)]
  }

  /** The first of the ids `start`, ..., `start + n - 1` that the table already holds, if any. */
  function FirstClash(t: map<int, FamilyRow>, start: int, n: nat): (r: Option<int>)
    ensures r.None? <==> IdRange(start, n) !! t.Keys
    ensures r.Some? ==> start <= r.value < start + n && r.value in t
    ensures r.Some? ==> forall k :: start <= k < r.value ==> k !in t
    decreases n
  {
    if n == 0 then None
    else if start in t then Some(start)
    else
      var r := FirstClash(t, start + 1, n - 1);
      assert IdRange(start, n) == {start} + IdRange(start + 1, n - 1);
      r
  }

  /**
   * `CopyFrom` into `family_list (cst_id, fl_name, fl_dob)`. The server reads
   * the rows in payload order and evaluates each row's `fl_id` default
   * (`nextval`) as it reads it; the rows are buffered and inserted once the
   * data ends, where the first drawn id that already exists is a primary-key
   * violation. A failure while row `j` streams (family statement `j`) aborts
   * after `j` draws; a clash aborts after all of them.
   */
  function CopyRows(w: Store, cstId: int, fams: seq<Family>, fault: Fault): (r: Exec)
    ensures r.work.customer == w.customer && r.work.nationality == w.nationality
    ensures r.work.customerSeq == w.customerSeq && w.familySeq <= r.work.familySeq <= w.familySeq + |fams|
    ensures r.Done? <==> !HitsFamilyStmt(fault, 0, |fams|) && IdRange(w.familySeq, |fams|) !! w.familyList.Keys
    ensures r.Done? ==> r.work.familySeq == w.familySeq + |fams|
    ensures r.Done? ==> r.work.familyList == w.familyList + CopiedRows(w.familySeq, cstId, fams)
    ensures HitsFamilyStmt(fault, 0, |fams|) ==>
      r == Aborted(w.(familySeq := w.familySeq + fault.step.index), StorageFailure(fault.step))
    ensures !HitsFamilyStmt(fault, 0, |fams|) && r.Aborted? ==>
      && r.work == w.(familySeq := w.familySeq + |fams|)
      && r.err.UniqueViolation? && r.err.table == FamilyListTable
      && w.familySeq <= r.err.key < w.familySeq + |fams| && r.err.key in w.familyList
      && (forall k :: w.familySeq <= k < r.err.key ==> k !in w.familyList)
  {
    if HitsFamilyStmt(fault, 0, |fams|) then
      Aborted(w.(familySeq := w.familySeq + fault.step.index), StorageFailure(fault.step))
    else
      var drawn := w.(familySeq := w.familySeq + |fams|);
      match FirstClash(w.familyList, w.familySeq, |fams|)
      case Some(id) => Aborted(drawn, UniqueViolation(FamilyListTable, id))
      case None => Done(drawn.(familyList := w.familyList + CopiedRows(w.familySeq, cstId, fams)))
  }

  /**
   * Create: in one transaction, insert the customer row (its id drawn from the
   * customer sequence and written back into the user), then COPY one family row
   * per payload family stamped with that id, then commit. Any failure rolls the
   * whole transaction back.
   */
  function Create(s: Store, u: User, fault: Fault): (r: Reply<User>)
    ensures r.err.Some? ==> SameTables(s, r.store) && SequencesAdvance(s, r.store)
    ensures r.err.None? <==>
      && SparesTransaction(fault, |u.families|)
      && s.customerSeq !in s.customer
      && IdRange(s.familySeq, |u.families|) !! s.familyList.Keys
    ensures r.err.None? ==> r.store == Store(
      s.customer[s.customerSeq := CustomerRow(u.nationalityId, u.name, u.dob)],
      s.familyList + CopiedRows(s.familySeq, s.customerSeq, u.families),
      s.nationality,
      s.customerSeq + 1,
      s.familySeq + |u.families|)
    ensures r.err == Some(UniqueViolation(CustomerTable, s.customerSeq)) <==>
      fault !in {FailAt(Begin), FailAt(CustomerStmt)} && s.customerSeq in s.customer
    ensures r.err.None? ==> r.value == u.(userId := s.customerSeq)
    ensures r.value.(userId := u.userId) == u
  {
    if fault == FailAt(Begin) then Reply(s, u, Some(StorageFailure(Begin)))
    // QueryRow's error leaves customerID at 0, which is still written back
    else if fault == FailAt(CustomerStmt) then Reply(s, u.(userId := 0), Some(StorageFailure(CustomerStmt)))
    else
      var id := s.customerSeq;
      var drawn := s.(customerSeq := id + 1);
      if id in s.customer then Reply(Rollback(s, drawn), u.(userId := 0), Some(UniqueViolation(CustomerTable, id)))
      else
        var inserted := drawn.(customer := s.customer[id := CustomerRow(u.nationalityId, u.name, u.dob)]);
        var created := u.(userId := id);
        match CopyRows(inserted, id, u.families, fault)
        case Aborted(work, e) => Reply(Rollback(s, work), created, Some(e))
        case Done(work) =>
          if fault == FailAt(Commit) then Reply(Rollback(s, work), created, Some(StorageFailure(Commit)))
          else Reply(work, created, None)
  }

  // ----- Update -----

  /** The `fl_id` an upsert of `f` writes when the sequence stands at `next`: the payload's id, or `next` when that is 0. */
  function UpsertId(next: int, f: Family): int {
    if f.familyId == 0 then next else f.familyId
  }

  /** The sequence after an upsert of `f`: advanced only when the id was drawn from it. */
  function SeqAfter(next: int, f: Family): int {
    if f.familyId == 0 then next + 1 else next
  }

  /** The `fl_id` each upsert of the batch writes, in statement order. */
  function UpsertIds(next: int, fams: seq<Family>): (ids: seq<int>)
    ensures |ids| == |fams|
    ensures forall j :: 0 <= j < |fams| && fams[j].familyId != 0 ==> ids[j] == fams[j].familyId
    ensures forall j :: 0 <= j < |fams| && fams[j].familyId == 0 ==> ids[j] == next + DrawCount(fams[..j])
    decreases |fams|
  {
    if fams == [] then []
    else
      var rest := UpsertIds(SeqAfter(next, fams[0]), fams[1..]);
      var ids := [UpsertId(next, fams[0])] + rest;
      forall j | 1 <= j < |fams|
        ensures fams[j] == fams[1..][j - 1] && ids[j] == rest[j - 1]
        ensures DrawCount(fams[..j]) == (if fams[0].familyId == 0 then 1 else 0) + DrawCount(fams[1..][..j - 1])
      {
        assert fams[..j][1..] == fams[1..][..j - 1];
      }
      assert DrawCount(fams[..0]) == 0;
      ids
  }

  /** How many payload families draw a new id (those whose `FamilyID` is 0). */
  function DrawCount(fams: seq<Family>): nat {
    if fams == [] then 0 else (if fams[0].familyId == 0 then 1 else 0) + DrawCount(fams[1..])
  }

  /** No later statement of the batch writes the id statement `j` writes. */
  predicate LastWrite(ids: seq<int>, j: int)
    requires 0 <= j < |ids|
  {
    forall j' :: j < j' < |ids| ==> ids[j'] != ids[j]
  }

  /** The row an upsert writes: `cst_id` is the `UserID` carried by the family entry itself. */
  function UpsertRow(f: Family): FamilyRow {
    FamilyRow(f.userId, f.name, f.dob)
  }

  /**
   * One statement of the batch: `INSERT ... VALUES (CASE WHEN $1 = 0 THEN
   * nextval(...) ELSE $1 END, ...) ON CONFLICT (fl_id) DO UPDATE`. Whether the
   * id is new or already taken, the row under it ends up holding the payload.
   */
  function UpsertOne(w: Store, f: Family): (w': Store)
    ensures w'.customer == w.customer && w'.nationality == w.nationality && w'.customerSeq == w.customerSeq
    ensures f.familyId == 0 ==>
      w'.familyList == w.familyList[w.familySeq := UpsertRow(f)] && w'.familySeq == w.familySeq + 1
    ensures f.familyId != 0 ==>
      w'.familyList == w.familyList[f.familyId := UpsertRow(f)] && w'.familySeq == w.familySeq
  {
    w.(familyList := w.familyList[UpsertId(w.familySeq, f) := UpsertRow(f)], familySeq := SeqAfter(w.familySeq, f))
  }

  /** The whole batch run without a failure, statement after statement. */
  function Upserted(w: Store, fams: seq<Family>): Store
    decreases |fams|
  {
    if fams == [] then w else Upserted(UpsertOne(w, fams[0]), fams[1..])
  }

  /** The batch draws one sequence value per zero `FamilyID` and touches no other table. */
  lemma {:induction false} UpsertedCounters(w: Store, fams: seq<Family>)
    ensures Upserted(w, fams).customer == w.customer && Upserted(w, fams).nationality == w.nationality
    ensures Upserted(w, fams).customerSeq == w.customerSeq
    ensures Upserted(w, fams).familySeq == w.familySeq + DrawCount(fams)
    decreases |fams|
  {
    if fams != [] {
      UpsertedCounters(UpsertOne(w, fams[0]), fams[1..]);
    }
  }

  /** After the batch the table holds exactly the ids it held before and the ids the batch wrote. */
  lemma {:induction false} UpsertedKeys(w: Store, fams: seq<Family>)
    ensures Upserted(w, fams).familyList.Keys == w.familyList.Keys + (set id | id in UpsertIds(w.familySeq, fams))
    decreases |fams|
  {
    if fams != [] {
      var next := UpsertOne(w, fams[0]);
      UpsertedKeys(next, fams[1..]);
    }
  }

  /** Rows under ids the batch does not write keep their contents: a partial sync, not a replacement. */
  lemma {:induction false} UpsertedUntouched(w: Store, fams: seq<Family>, id: int)
    requires id in w.familyList && id !in UpsertIds(w.familySeq, fams)
    ensures id in Upserted(w, fams).familyList && Upserted(w, fams).familyList[id] == w.familyList[id]
    decreases |fams|
  {
    if fams != [] {
      UpsertedUntouched(UpsertOne(w, fams[0]), fams[1..], id);
    }
  }

  /** The row under an id written by the batch holds the payload of the last statement writing that id. */
  lemma {:induction false} UpsertedLastWrite(w: Store, fams: seq<Family>, j: nat)
    requires j < |fams| && LastWrite(UpsertIds(w.familySeq, fams), j)
    ensures UpsertIds(w.familySeq, fams)[j] in Upserted(w, fams).familyList
    ensures Upserted(w, fams).familyList[UpsertIds(w.familySeq, fams)[j]] == UpsertRow(fams[j])
    decreases |fams|
  {
    var next := UpsertOne(w, fams[0]);
    var ids := UpsertIds(w.familySeq, fams);
    var restIds := UpsertIds(next.familySeq, fams[1..]);
    assert ids == [ids[0]] + restIds;
    if j == 0 {
      assert forall i :: 0 <= i < |restIds| ==> restIds[i] == ids[i + 1];
      assert forall i :: 1 <= i < |ids| ==> ids[i] != ids[0];
      assert forall i :: 0 <= i < |restIds| ==> restIds[i] != ids[0];
      assert ids[0] !in restIds;
      assert ids[0] in next.familyList;
      UpsertedUntouched(next, fams[1..], ids[0]);
    } else {
      assert ids[j] == restIds[j - 1] && fams[j] == fams[1..][j - 1];
      assert LastWrite(restIds, j - 1) by {
        forall j' | j - 1 < j' < |restIds|
          ensures restIds[j'] != restIds[j - 1]
        {
          assert restIds[j'] == ids[j' + 1];
        }
      }
      UpsertedLastWrite(next, fams[1..], j - 1);
    }
  }

  /**
   * `upsertFamilyMembers`: the batch, one statement per family in payload
   * order, family `j` being statement `k + j`; the first failing statement
   * fails the batch. Without a failure it is exactly `Upserted`.
   */
  function UpsertFamilies(w: Store, fams: seq<Family>, k: nat, fault: Fault): (r: Exec)
    ensures r.work.customer == w.customer && r.work.nationality == w.nationality
    ensures r.work.customerSeq == w.customerSeq && w.familySeq <= r.work.familySeq
    ensures r.Done? <==> !HitsFamilyStmt(fault, k, |fams|)
    ensures r.Done? ==> r.work == Upserted(w, fams)
    decreases |fams|
  {
    if fams == [] then Done(w)
    else if fault == FailAt(FamilyStmt(k)) then Aborted(w, StorageFailure(FamilyStmt(k)))
    else UpsertFamilies(UpsertOne(w, fams[0]), fams[1..], k + 1, fault)
  }

  /**
   * The first payload family whose `FamilyID` pgx cannot encode: `$1` is
   * compared with the integer literal 0, so PostgreSQL types it `int4`.
   * Encoding happens while the batch is sent, before any of its statements runs.
   */
  function FirstUnencodable(fams: seq<Family>): (r: Option<nat>)
    ensures r.None? <==> forall j :: 0 <= j < |fams| ==> FitsInt4(fams[j].familyId)
    ensures r.Some? ==> r.value < |fams| && !FitsInt4(fams[r.value].familyId)
    ensures r.Some? ==> forall j :: 0 <= j < r.value ==> FitsInt4(fams[j].familyId)
    decreases |fams|
  {
    if fams == [] then None
    else if !FitsInt4(fams[0].familyId) then Some(0)
    else
      assert forall j :: 1 <= j < |fams| ==> fams[j] == fams[1..][j - 1];
      match FirstUnencodable(fams[1..])
      case None => None
      case Some(j) => Some(j + 1)
  }

  /**
   * Update: in one transaction, overwrite the customer row's nationality, name
   * and dob (no row with that id is pgx's ErrNoRows), upsert every payload
   * family, then commit. Families absent from the payload are not touched.
   */
  function Update(s: Store, u: User, fault: Fault): (r: Reply<User>)
    ensures r.err.Some? ==> SameTables(s, r.store) && SequencesAdvance(s, r.store)
    ensures r.err.None? <==>
      && SparesTransaction(fault, |u.families|)
      && u.userId in s.customer
      && forall j :: 0 <= j < |u.families| ==> FitsInt4(u.families[j].familyId)
    ensures fault !in {FailAt(Begin), FailAt(CustomerStmt)} && u.userId !in s.customer ==>
      r == Reply(s, u.(userId := 0), Some(NoRows))
    ensures
      (&& fault !in {FailAt(Begin), FailAt(CustomerStmt)}
       && u.userId in s.customer
       && exists j :: 0 <= j < |u.families| && !FitsInt4(u.families[j].familyId))
      ==> r.store == s && r.err.Some? && r.err.value.ParameterOutOfRange? && !FitsInt4(r.err.value.value)
    ensures r.err.None? ==> r.value == u
    ensures r.err.None? ==>
      && r.store.customer == s.customer[u.userId := CustomerRow(u.nationalityId, u.name, u.dob)]
      && r.store.nationality == s.nationality
      && r.store.customerSeq == s.customerSeq
      && r.store.familySeq == s.familySeq + DrawCount(u.families)
      && r.store.familyList == Upserted(s, u.families).familyList
  {
    if fault == FailAt(Begin) then Reply(s, u, Some(StorageFailure(Begin)))
    // the id scanned from RETURNING is written back before the error is checked
    else if fault == FailAt(CustomerStmt) then Reply(s, u.(userId := 0), Some(StorageFailure(CustomerStmt)))
    else if u.userId !in s.customer then Reply(s, u.(userId := 0), Some(NoRows))
    else
      var updated := s.(customer := s.customer[u.userId := CustomerRow(u.nationalityId, u.name, u.dob)]);
      UpsertedCounters(updated, u.families);
      UpsertedIgnoresCustomers(s, updated, u.families);
      match FirstUnencodable(u.families)
      case Some(j) => Reply(s, u, Some(ParameterOutOfRange(u.families[j].familyId)))
      case None =>
        match UpsertFamilies(updated, u.families, 0, fault)
        case Aborted(work, e) => Reply(Rollback(s, work), u, Some(e))
        case Done(work) =>
          if fault == FailAt(Commit) then Reply(Rollback(s, work), u, Some(StorageFailure(Commit)))
          else Reply(work, u, None)
  }

  /** The batch's effect on the family table depends only on the family table and its sequence. */
  lemma {:induction false} UpsertedIgnoresCustomers(a: Store, b: Store, fams: seq<Family>)
    requires a.familyList == b.familyList && a.familySeq == b.familySeq
    ensures Upserted(a, fams).familyList == Upserted(b, fams).familyList
    decreases |fams|
  {
    if fams != [] {
      UpsertedIgnoresCustomers(UpsertOne(a, fams[0]), UpsertOne(b, fams[0]), fams[1..]);
    }
  }

  // ----- Delete, DeleteFamily -----

  /**
   * `DELETE FROM family_list WHERE cst_id = $1`: read through the read model,
   * the user has no families left and every other user keeps exactly theirs.
   */
  function DeleteFamiliesOf(t: map<int, FamilyRow>, userId: int): (t': map<int, FamilyRow>)
    ensures forall k :: k in t' <==> k in t && t[k].cstId != userId
    ensures forall k :: k in t' ==> t'[k] == t[k]
    ensures FamilyIdsOf(t', userId) == {} && FamiliesOf(t', userId) == []
    ensures forall other :: other != userId ==> FamiliesOf(t', other) == FamiliesOf(t, other)
  {
    var t' := map k | k in t && t[k].cstId != userId :: t[k];
    forall other | other != userId
      ensures FamiliesOf(t', other) == FamiliesOf(t, other)
    {
      FamiliesOfFrame(t, t', other);
    }
    HasElement(FamilyIdsOf(t', userId));
    t'
  }

  /**
   * Delete: in one transaction, delete the customer row and then every family
   * row with that `cst_id`. Deleting an id that matches nothing still succeeds.
   */
  function Delete(s: Store, userId: int, fault: Fault): (r: Reply<()>)
    ensures r.err.None? <==> SparesTransaction(fault, 1)
    ensures r.err.Some? ==> r.store == s
    ensures r.err.None? ==>
      && r.store.customer.Keys == s.customer.Keys - {userId}
      && (forall id :: id in r.store.customer ==> r.store.customer[id] == s.customer[id])
      && (forall k :: k in r.store.familyList <==> k in s.familyList && s.familyList[k].cstId != userId)
      && (forall k :: k in r.store.familyList ==> r.store.familyList[k] == s.familyList[k])
      && r.store.nationality == s.nationality
      && r.store.customerSeq == s.customerSeq && r.store.familySeq == s.familySeq
  {
    if fault == FailAt(Begin) then Reply(s, (), Some(StorageFailure(Begin)))
    else if fault == FailAt(CustomerStmt) then Reply(s, (), Some(StorageFailure(CustomerStmt)))
    else
      var work := s.(customer := s.customer - {userId});
      if fault == FailAt(FamilyStmt(0)) then Reply(Rollback(s, work), (), Some(StorageFailure(FamilyStmt(0))))
      else
        var work := work.(familyList := DeleteFamiliesOf(s.familyList, userId));
        if fault == FailAt(Commit) then Reply(Rollback(s, work), (), Some(StorageFailure(Commit)))
        else Reply(work, (), None)
  }

  /**
   * DeleteFamily: the single statement `DELETE FROM family_list WHERE cst_id =
   * $1 and fl_id = $2`, outside any explicit transaction. Since `fl_id` is the
   * key, at most the one row `familyId` goes, and only if it belongs to `userId`.
   */
  function DeleteFamily(s: Store, userId: int, familyId: int, fault: Fault): (r: Reply<()>)
    ensures r.err.None? <==> fault != FailAt(FamilyStmt(0))
    ensures r.err.Some? ==> r.store == s
    ensures r.err.None? ==>
      && r.store.customer == s.customer && r.store.nationality == s.nationality
      && r.store.customerSeq == s.customerSeq && r.store.familySeq == s.familySeq
      && (forall k :: k in r.store.familyList <==>
            k in s.familyList && !(k == familyId && s.familyList[k].cstId == userId))
      && (forall k :: k in r.store.familyList ==> r.store.familyList[k] == s.familyList[k])
      && (r.store.familyList.Keys == s.familyList.Keys || r.store.familyList.Keys == s.familyList.Keys - {familyId})
  {
    if fault == FailAt(FamilyStmt(0)) then Reply(s, (), Some(StorageFailure(FamilyStmt(0))))
    else
      var t := s.familyList;
      var t' := map k | k in t && !(t[k].cstId == userId && k == familyId) :: t[k];
      assert t'.Keys == t.Keys || t'.Keys == t.Keys - {familyId};
      Reply(s.(familyList := t'), (), None)
  }

  // ----- reads -----

  /**
   * GetUserDetail: the customer row joined with its nationality (empty name and
   * code when none matches) and its families ordered by `fl_id`; pgx's
   * ErrNoRows when no customer has the id.
   */
  function GetUserDetail(s: Store, userId: int, fault: Fault): (r: Result<UserDetailResponse, Error>)
    ensures fault == FailAt(CustomerStmt) ==> r == Failure(StorageFailure(CustomerStmt))
    ensures fault != FailAt(CustomerStmt) ==> (r.Success? <==> userId in s.customer)
    ensures fault != FailAt(CustomerStmt) && userId !in s.customer ==> r == Failure(NoRows)
    ensures r.Success? ==>
      && userId in s.customer
      && r.value.userId == userId
      && r.value.name == s.customer[userId].name
      && r.value.dob == s.customer[userId].dob
      && r.value.nationalityId == s.customer[userId].nationalityId
      && r.value.nationality == NationalityOf(s, s.customer[userId].nationalityId)
      && r.value.families == FamiliesOf(s.familyList, userId)
  {
    if fault == FailAt(CustomerStmt) then Failure(StorageFailure(CustomerStmt))
    else if userId !in s.customer then Failure(NoRows)
    else Success(DetailOf(s, userId))
  }

  /** The details of the given customers, in the given order. */
  function DetailsOf(s: Store, ids: seq<int>): (ds: seq<UserDetailResponse>)
    requires forall i :: 0 <= i < |ids| ==> ids[i] in s.customer
    ensures |ds| == |ids|
    ensures forall i :: 0 <= i < |ids| ==> ds[i] == DetailOf(s, ids[i]) && ds[i].userId == ids[i]
  {
    seq(|ids|, i requires 0 <= i < |ids| => DetailOf(s, ids[i]))
  }

  /** Whether `fault` breaks the list query's result stream before its last row. */
  predicate BreaksStream(fault: Fault, rows: nat) {
    fault.FailAt? && fault.step.ResultRow? && fault.step.index < rows
  }

  /** The user ids of a list of details, in list order. */
  function UserIdsOf(ds: seq<UserDetailResponse>): (ids: seq<int>)
    ensures |ids| == |ds| && forall i :: 0 <= i < |ds| ==> ids[i] == ds[i].userId
  {
    seq(|ds|, i requires 0 <= i < |ds| => ds[i].userId)
  }

  /**
   * GetAll as written: one detail per customer row read before the stream
   * ends. The query has no ORDER BY, so the order of the users is not
   * promised; this model lists them by ascending id. The loop stops when
   * `rows.Next()` returns false and the error kept in `rows.Err()` is never
   * read, so a stream broken at row `i` still succeeds with the first `i`
   * users.
   */
  function GetAll(s: Store, fault: Fault): (r: Result<seq<UserDetailResponse>, Error>)
    ensures r.Success? <==> fault != FailAt(CustomerStmt)
    ensures r.Failure? ==> r.error == StorageFailure(CustomerStmt)
    ensures r.Success? ==> |r.value| <= |s.customer|
    ensures r.Success? ==> (|r.value| < |s.customer| <==> BreaksStream(fault, |s.customer|))
    ensures r.Success? && BreaksStream(fault, |s.customer|) ==> |r.value| == fault.step.index
    ensures r.Success? ==> forall i :: 0 <= i < |r.value| ==>
      r.value[i].userId in s.customer && r.value[i] == DetailOf(s, r.value[i].userId)
    ensures r.Success? ==> Ascending(UserIdsOf(r.value))
    ensures r.Success? ==> forall id, i :: id in s.customer && id !in UserIdsOf(r.value) && 0 <= i < |r.value| ==>
      UserIdsOf(r.value)[i] < id
    ensures r.Success? && !BreaksStream(fault, |s.customer|) ==>
      forall id :: id in s.customer ==> id in UserIdsOf(r.value)
  {
    if fault == FailAt(CustomerStmt) then Failure(StorageFailure(CustomerStmt))
    else
      var ids := ListedIds(s, fault);
      DetailsKeepIds(s, ids);
      Success(DetailsOf(s, ids))
  }

  /** The details of a listing of customer ids carry exactly those ids, in the same order. */
  lemma DetailsKeepIds(s: Store, ids: seq<int>)
    requires forall i :: 0 <= i < |ids| ==> ids[i] in s.customer
    ensures UserIdsOf(DetailsOf(s, ids)) == ids
  {
  }

  /**
   * The ids of the customer rows the loop reads: the smallest ids, in
   * ascending order, all of them unless the stream breaks first.
   */
  function ListedIds(s: Store, fault: Fault): (ids: seq<int>)
    ensures |ids| <= |s.customer|
    ensures |ids| < |s.customer| <==> BreaksStream(fault, |s.customer|)
    ensures BreaksStream(fault, |s.customer|) ==> |ids| == fault.step.index
    ensures Ascending(ids) && forall i :: 0 <= i < |ids| ==> ids[i] in s.customer
    ensures forall id, i :: id in s.customer && id !in ids && 0 <= i < |ids| ==> ids[i] < id
    ensures !BreaksStream(fault, |s.customer|) ==> forall id :: id in s.customer ==> id in ids
  {
    var all := SortedIds(s.customer.Keys);
    var n := if BreaksStream(fault, |s.customer|) then fault.step.index else |s.customer|;
    ListingPrefix(all, s.customer.Keys, n);
    all[..n]
  }

  /** A prefix of an ascending listing of `ks` lists the least members of `ks`, in order. */
  lemma ListingPrefix(all: seq<int>, ks: set<int>, n: nat)
    requires Ascending(all) && |all| == |ks|
    requires forall k :: k in all <==> k in ks
    requires n <= |all|
    ensures Ascending(all[..n]) && forall i :: 0 <= i < n ==> all[..n][i] in ks
    ensures forall id, i :: id in ks && id !in all[..n] && 0 <= i < n ==> all[..n][i] < id
    ensures n == |all| ==> forall id :: id in ks ==> id in all[..n]
  {
    var pre := all[..n];
    forall id, i | id in ks && id !in pre && 0 <= i < n
      ensures pre[i] < id
    {
      var m :| 0 <= m < |all| && all[m] == id;
      assert forall j :: 0 <= j < n ==> pre[j] != id;
    }
    assert n == |all| ==> pre == all;
  }

  /**
   * GetAll with the `rows.Err()` check the loop leaves out: a broken result
   * stream is reported instead of being returned as a shorter list.
   */
  function GetAllChecked(s: Store, fault: Fault): (r: Result<seq<UserDetailResponse>, Error>)
    ensures r.Success? <==> fault != FailAt(CustomerStmt) && !BreaksStream(fault, |s.customer|)
    ensures r.Failure? ==> r.error == StorageFailure(fault.step)
    ensures r.Success? ==> |r.value| == |s.customer|
    ensures r.Success? ==> forall i :: 0 <= i < |r.value| ==>
      r.value[i].userId in s.customer && r.value[i] == DetailOf(s, r.value[i].userId)
    ensures r.Success? ==> forall id :: id in s.customer ==> id in UserIdsOf(r.value)
  {
    match GetAll(s, fault)
    case Failure(e) => Failure(e)
    case Success(users) =>
      if |users| < |s.customer| then Failure(StorageFailure(fault.step)) else Success(users)
  }
}
