/**
 * Properties relating several calls: what a read returns after a write, which
 * writes leave which rows alone, the invariant the customer sequence keeps, and
 * concrete runs showing how explicit family ids interact with the sequence.
 */
module Properties {
  import opened Wrappers
  import opened Model
  import opened Tables
  import opened Repository
  import Validation
  import Usecase

  // ----- the read model depends only on a user's own rows -----

  /** A user's detail depends only on the user's customer row, the nationality table and the user's family rows. */
  lemma DetailFrame(s: Store, s': Store, userId: int)
    requires userId in s.customer && userId in s'.customer && s'.customer[userId] == s.customer[userId]
    requires s'.nationality == s.nationality
    requires forall k :: k in s.familyList && s.familyList[k].cstId == userId <==> k in s'.familyList && s'.familyList[k].cstId == userId
    requires forall k :: k in s.familyList && s.familyList[k].cstId == userId ==> s'.familyList[k] == s.familyList[k]
    ensures DetailOf(s', userId) == DetailOf(s, userId)
  {
    FamiliesOfFrame(s.familyList, s'.familyList, userId);
  }

  // ----- Create -----

  /** The families a successful Create stores: the payload's names and dobs under consecutive ids from `start`. */
  function Stamped(start: int, cstId: int, fams: seq<Family>): (r: seq<Family>)
    ensures |r| == |fams|
    ensures forall j :: 0 <= j < |fams| ==> r[j] == Family(start + j, cstId, fams[j].name, fams[j].dob)
  {
    seq(|fams|, j requires 0 <= j < |fams| => Family(start + j, cstId, fams[j].name, fams[j].dob))
  }

  /** The new user's family rows are exactly the copied ones when no earlier row carried the new id. */
  lemma CreatedFamilyIds(t: map<int, FamilyRow>, start: int, cstId: int, fams: seq<Family>)
    requires forall k :: k in t ==> t[k].cstId != cstId
    requires IdRange(start, |fams|) !! t.Keys
    ensures FamilyIdsOf(t + CopiedRows(start, cstId, fams), cstId) == IdRange(start, |fams|)
  {
    var t' := t + CopiedRows(start, cstId, fams);
    forall k | k in IdRange(start, |fams|)
      ensures k in FamilyIdsOf(t', cstId)
    {
      var j := k - start;
      assert 0 <= j < |fams|;
      assert CopiedRows(start, cstId, fams)[start + j] == FamilyRow(cstId, fams[j].name, fams[j].dob);
    }
  }

  /** The rows under consecutive ids from `start`, read as families, are the stamped payload. */
  lemma ConsecutiveRowsAreStamped(t: map<int, FamilyRow>, ids: seq<int>, start: int, cstId: int, fams: seq<Family>)
    requires ids == Consecutive(start, |fams|)
    requires forall j :: 0 <= j < |fams| ==> ids[j] in t && t[ids[j]] == FamilyRow(cstId, fams[j].name, fams[j].dob)
    ensures FamiliesAt(t, ids) == Stamped(start, cstId, fams)
  {
    var r := FamiliesAt(t, ids);
    forall j | 0 <= j < |fams|
      ensures r[j] == Stamped(start, cstId, fams)[j]
    {
      assert ids[j] == start + j;
    }
  }

  /** After the copy, each drawn id holds its payload row. */
  lemma CopiedRowsInTable(t: map<int, FamilyRow>, start: int, cstId: int, fams: seq<Family>)
    ensures var ids := Consecutive(start, |fams|);
      forall j :: 0 <= j < |fams| ==>
        && ids[j] in t + CopiedRows(start, cstId, fams)
        && (t + CopiedRows(start, cstId, fams))[ids[j]] == FamilyRow(cstId, fams[j].name, fams[j].dob)
  {
    var ids := Consecutive(start, |fams|);
    var copied := CopiedRows(start, cstId, fams);
    forall j | 0 <= j < |fams|
      ensures ids[j] in t + copied && (t + copied)[ids[j]] == FamilyRow(cstId, fams[j].name, fams[j].dob)
    {
      assert ids[j] == start + j;
      assert copied[start + j] == FamilyRow(cstId, fams[j].name, fams[j].dob);
    }
  }

  /** The families read back for a freshly created user are the copied rows, in drawn-id order. */
  lemma CreatedFamilies(t: map<int, FamilyRow>, start: int, cstId: int, fams: seq<Family>)
    requires forall k :: k in t ==> t[k].cstId != cstId
    requires IdRange(start, |fams|) !! t.Keys
    ensures FamiliesOf(t + CopiedRows(start, cstId, fams), cstId) == Stamped(start, cstId, fams)
  {
    var t' := t + CopiedRows(start, cstId, fams);
    CreatedFamilyIds(t, start, cstId, fams);
    SortedIdRange(start, |fams|);
    CopiedRowsInTable(t, start, cstId, fams);
    ConsecutiveRowsAreStamped(t', Consecutive(start, |fams|), start, cstId, fams);
    assert FamiliesOf(t', cstId) == FamiliesAt(t', Consecutive(start, |fams|));
  }

  /**
   * Round trip: reading back a freshly created user gives the payload with the
   * drawn user id, the joined nationality, and the families under consecutive
   * drawn ids in payload order, provided no existing family row already
   * carried the new user's id (Update can write such a row; see
   * `OrphanAdoptedByCreate`).
   */
  lemma CreateThenDetail(s: Store, u: User, fault: Fault)
    requires Repository.Create(s, u, fault).err.None?
    requires forall k :: k in s.familyList ==> s.familyList[k].cstId != s.customerSeq
    ensures GetUserDetail(Repository.Create(s, u, fault).store, s.customerSeq, NoFault) ==
      Success(UserDetailResponse(s.customerSeq, u.name, u.dob, u.nationalityId,
        NationalityOf(s, u.nationalityId), Stamped(s.familySeq, s.customerSeq, u.families)))
  {
    CreatedFamilies(s.familyList, s.familySeq, s.customerSeq, u.families);
  }

  /** COPY reads only the names and dobs of the payload families. */
  lemma CopyRowsReadsNamesAndDobs(w: Store, cstId: int, a: seq<Family>, b: seq<Family>, fault: Fault)
    requires |a| == |b|
    requires forall j :: 0 <= j < |a| ==> a[j].name == b[j].name && a[j].dob == b[j].dob
    ensures CopyRows(w, cstId, a, fault) == CopyRows(w, cstId, b, fault)
  {
    var ra, rb := CopiedRows(w.familySeq, cstId, a), CopiedRows(w.familySeq, cstId, b);
    forall k | k in ra
      ensures k in rb && ra[k] == rb[k]
    {
      var j := k - w.familySeq;
      assert 0 <= j < |a| && a[j].name == b[j].name && a[j].dob == b[j].dob;
      assert ra[w.familySeq + j] == FamilyRow(cstId, a[j].name, a[j].dob);
      assert rb[w.familySeq + j] == FamilyRow(cstId, b[j].name, b[j].dob);
    }
    assert ra == rb;
  }

  /** Create never reads the ids in the payload: user id, family ids and family user ids are all overwritten. */
  lemma CreateIgnoresSuppliedIds(s: Store, u: User, v: User, fault: Fault)
    requires u.name == v.name && u.dob == v.dob && u.nationalityId == v.nationalityId
    requires |u.families| == |v.families|
    requires forall j :: 0 <= j < |u.families| ==>
      u.families[j].name == v.families[j].name && u.families[j].dob == v.families[j].dob
    ensures Repository.Create(s, u, fault).store == Repository.Create(s, v, fault).store
    ensures Repository.Create(s, u, fault).err == Repository.Create(s, v, fault).err
    ensures fault != FailAt(Begin) ==>
      Repository.Create(s, u, fault).value.userId == Repository.Create(s, v, fault).value.userId
  {
    var w := s.(customerSeq := s.customerSeq + 1, customer := s.customer[s.customerSeq := CustomerRow(u.nationalityId, u.name, u.dob)]);
    CopyRowsReadsNamesAndDobs(w, s.customerSeq, u.families, v.families, fault);
  }

  // ----- Delete, DeleteFamily -----

  /** After a successful Delete the user is gone and no family row refers to it. */
  lemma DeleteThenDetailNotFound(s: Store, userId: int, fault: Fault)
    requires Repository.Delete(s, userId, fault).err.None?
    ensures GetUserDetail(Repository.Delete(s, userId, fault).store, userId, NoFault) == Failure(NoRows)
    ensures FamilyIdsOf(Repository.Delete(s, userId, fault).store.familyList, userId) == {}
  {
  }

  /** Delete leaves every other user's detail as it was. */
  lemma DeleteLeavesOtherUsers(s: Store, userId: int, other: int, fault: Fault)
    requires other != userId && other in s.customer
    ensures var r := Repository.Delete(s, userId, fault);
      other in r.store.customer && DetailOf(r.store, other) == DetailOf(s, other)
  {
    var r := Repository.Delete(s, userId, fault);
    if r.err.None? {
      DetailFrame(s, r.store, other);
    }
  }

  /** A family row that belongs to another user survives DeleteFamily: the `cst_id` filter protects it. */
  lemma DeleteFamilyNeedsOwner(s: Store, userId: int, familyId: int, fault: Fault)
    requires familyId in s.familyList && s.familyList[familyId].cstId != userId
    ensures Repository.DeleteFamily(s, userId, familyId, fault).store == s
  {
  }

  /** After DeleteFamily the family is gone from its owner's detail, and nothing else in it changes. */
  lemma DeleteFamilyThenDetail(s: Store, userId: int, familyId: int, fault: Fault)
    requires userId in s.customer
    requires Repository.DeleteFamily(s, userId, familyId, fault).err.None?
    ensures var d := DetailOf(Repository.DeleteFamily(s, userId, familyId, fault).store, userId);
      && (forall i :: 0 <= i < |d.families| ==> d.families[i].familyId != familyId)
      && (forall k :: k in FamilyIdsOf(s.familyList, userId) && k != familyId <==>
            exists i :: 0 <= i < |d.families| && d.families[i].familyId == k)
      && d.name == s.customer[userId].name && d.dob == s.customer[userId].dob
  {
  }

  /** DeleteFamily does not change any other user's detail. */
  lemma DeleteFamilyLeavesOtherUsers(s: Store, userId: int, familyId: int, other: int, fault: Fault)
    requires other != userId && other in s.customer
    ensures DetailOf(Repository.DeleteFamily(s, userId, familyId, fault).store, other) == DetailOf(s, other)
  {
    var r := Repository.DeleteFamily(s, userId, familyId, fault);
    if r.err.None? {
      DetailFrame(s, r.store, other);
    }
  }

  // ----- Update -----

  /** A successful Update leaves every family row whose id the batch does not write as it was. */
  lemma UpdateKeepsOmittedFamilies(s: Store, u: User, fault: Fault, id: int)
    requires Repository.Update(s, u, fault).err.None?
    requires id in s.familyList && id !in UpsertIds(s.familySeq, u.families)
    ensures id in Repository.Update(s, u, fault).store.familyList
    ensures Repository.Update(s, u, fault).store.familyList[id] == s.familyList[id]
  {
    UpsertedUntouched(s, u.families, id);
  }

  /** After a successful Update the family table holds its old ids plus exactly the ids the batch wrote. */
  lemma UpdateFamilyIds(s: Store, u: User, fault: Fault)
    requires Repository.Update(s, u, fault).err.None?
    ensures Repository.Update(s, u, fault).store.familyList.Keys ==
      s.familyList.Keys + (set id | id in UpsertIds(s.familySeq, u.families))
  {
    UpsertedKeys(s, u.families);
  }

  /**
   * The row under an id the batch writes holds the last payload family
   * writing it, `cst_id` included: the family's own `UserID`, not the updated
   * user's id, so a family can move to another user.
   */
  lemma UpdateLastWriteWins(s: Store, u: User, fault: Fault, j: nat)
    requires Repository.Update(s, u, fault).err.None?
    requires j < |u.families| && LastWrite(UpsertIds(s.familySeq, u.families), j)
    ensures var id := UpsertIds(s.familySeq, u.families)[j];
      && id in Repository.Update(s, u, fault).store.familyList
      && Repository.Update(s, u, fault).store.familyList[id] == FamilyRow(u.families[j].userId, u.families[j].name, u.families[j].dob)
  {
    UpsertedLastWrite(s, u.families, j);
  }

  /** An Update with no families runs no family statement: the family table and its sequence stay as they were. */
  lemma UpdateWithoutFamilies(s: Store, u: User, fault: Fault)
    requires u.families == []
    ensures Repository.Update(s, u, fault).store.familyList == s.familyList
    ensures Repository.Update(s, u, fault).store.familySeq == s.familySeq
    ensures Repository.Update(s, u, fault).err.None? <==> SparesTransaction(fault, 0) && u.userId in s.customer
  {
  }

  // ----- the customer sequence -----

  /** Every write keeps customer ids below the customer sequence. */
  lemma WritesPreserveWf(s: Store, u: User, userId: int, familyId: int, fault: Fault)
    requires Wf(s)
    ensures Wf(Repository.Create(s, u, fault).store)
    ensures Wf(Repository.Update(s, u, fault).store)
    ensures Wf(Repository.Delete(s, userId, fault).store)
    ensures Wf(Repository.DeleteFamily(s, userId, familyId, fault).store)
  {
  }

  /** In a well-formed store the customer insert never clashes: Create fails only on a fault or a family-id clash. */
  lemma CreateOnWfStore(s: Store, u: User, fault: Fault)
    requires Wf(s)
    ensures Repository.Create(s, u, fault).err.None? <==>
      SparesTransaction(fault, |u.families|) && IdRange(s.familySeq, |u.families|) !! s.familyList.Keys
    ensures Repository.Create(s, u, fault).err.Some? ==>
      Repository.Create(s, u, fault).err.value != UniqueViolation(CustomerTable, s.customerSeq)
  {
  }

  // ----- the list agrees with the detail -----

  /** Every entry of a list read to the end is what GetUserDetail returns for that user. */
  lemma GetAllAgreesWithDetail(s: Store, fault: Fault, i: nat)
    requires GetAllChecked(s, fault).Success? && i < |s.customer|
    ensures i < |GetAllChecked(s, fault).value|
    ensures var d := GetAllChecked(s, fault).value[i];
      GetUserDetail(s, d.userId, NoFault) == Success(d)
  {
  }

  /**
   * A result stream that breaks after `i` rows still yields a success, short
   * of every row not read; with the `rows.Err()` check the same run is a
   * storage failure.
   */
  lemma BrokenStreamLooksLikeFewerUsers(s: Store, i: nat)
    requires i < |s.customer|
    ensures GetAll(s, FailAt(ResultRow(i))).Success?
    ensures |GetAll(s, FailAt(ResultRow(i))).value| == i
    ensures GetAllChecked(s, FailAt(ResultRow(i))) == Failure(StorageFailure(ResultRow(i)))
  {
  }

  // ----- failures that still consume ids -----

  /**
   * COPY draws the ids of all buffered rows before the primary key is
   * checked, so a Create whose drawn family ids clash consumes one id per
   * payload family, not only the ids up to the clash, as well as its customer id.
   */
  lemma CreateClashConsumesEveryFamilyId(s: Store, u: User, fault: Fault)
    requires fault !in {FailAt(Begin), FailAt(CustomerStmt)} && !HitsFamilyStmt(fault, 0, |u.families|)
    requires s.customerSeq !in s.customer
    requires !(IdRange(s.familySeq, |u.families|) !! s.familyList.Keys)
    ensures var r := Repository.Create(s, u, fault);
      && r.store == s.(customerSeq := s.customerSeq + 1, familySeq := s.familySeq + |u.families|)
      && r.err.Some? && r.err.value.UniqueViolation? && r.err.value.table == FamilyListTable
  {
  }

  /**
   * A payload family id beyond `int4` fails the whole update batch while it
   * is encoded, before any statement runs: nothing is written and no family
   * id is drawn, although the id passes `Min(0)`.
   */
  lemma HugeFamilyIdFailsUpdate(s: Store, u: User, j: nat, fault: Fault)
    requires fault !in {FailAt(Begin), FailAt(CustomerStmt)} && u.userId in s.customer
    requires j < |u.families| && u.families[j].familyId >= 0x8000_0000
    ensures Repository.Update(s, u, fault).store == s
    ensures Repository.Update(s, u, fault).err.Some?
    ensures Repository.Update(s, u, fault).err.value.ParameterOutOfRange?
  {
  }

  // ----- explicit family ids and the sequence: concrete runs -----

  /** One customer (id 1), no family rows, Indonesia as nationality 360; both sequences are fresh. */
  function Seeded(): Store {
    Store(map[1 := CustomerRow(360, "Alice", "1990-01-01")], map[], map[360 := NationalityRow("Indonesia", "ID")], 2, 1)
  }

  /**
   * Update writes an explicit `fl_id` (1) that the family sequence has not
   * reached; the next Create's COPY draws that same id and fails with a
   * primary-key violation. The failed Create still consumed a customer id and
   * a family id, so a retry succeeds, under customer id 3 rather than 2.
   */
  lemma ExplicitFamilyIdCollidesWithCopy()
    ensures var s1 := Repository.Update(Seeded(), User(1, "Alice", "1990-01-01", 360, [Family(1, 1, "Bobby", "2015-05-05")]), NoFault);
      var carol := User(0, "Carol", "1985-03-03", 360, [Family(0, 0, "Danny", "2010-10-10")]);
      var r2 := Repository.Create(s1.store, carol, NoFault);
      var r3 := Repository.Create(r2.store, carol, NoFault);
      && s1.err.None? && s1.store.familySeq == 1
      && r2.err == Some(UniqueViolation(FamilyListTable, 1))
      && r2.store.customer == s1.store.customer && r2.store.familyList == s1.store.familyList
      && r3.err.None? && r3.value.userId == 3
      && r3.store.familyList[2] == FamilyRow(3, "Danny", "2010-10-10")
  {
  }

  /**
   * A family sent with id 0 draws the next sequence value; when an explicit id
   * already took that value, the upsert's ON CONFLICT branch overwrites that
   * row: "Bobby" (written with explicit id 1) is replaced by "Cindy" instead of
   * a second row appearing.
   */
  lemma ZeroIdUpsertOverwritesExplicitRow()
    ensures var s1 := Repository.Update(Seeded(), User(1, "Alice", "1990-01-01", 360, [Family(1, 1, "Bobby", "2015-05-05")]), NoFault);
      var s2 := Repository.Update(s1.store, User(1, "Alice", "1990-01-01", 360, [Family(0, 1, "Cindy", "2018-08-08")]), NoFault);
      && s2.err.None?
      && s2.store.familyList.Keys == {1}
      && s2.store.familyList[1] == FamilyRow(1, "Cindy", "2018-08-08")
      && s2.store.familySeq == 2
  {
  }

  /**
   * Update stamps a family row with the family's own `UserID`, which may name
   * a user that does not exist yet. The customer created next with that id
   * inherits the row: its detail lists "Ghost" although its payload had no
   * families.
   */
  lemma OrphanAdoptedByCreate()
    ensures var s1 := Repository.Update(Seeded(), User(1, "Alice", "1990-01-01", 360, [Family(5, 2, "Ghost", "2001-01-01")]), NoFault);
      var r := Repository.Create(s1.store, User(0, "Carol", "1985-03-03", 360, []), NoFault);
      && s1.err.None? && r.err.None? && r.value.userId == 2
      && GetUserDetail(r.store, 2, NoFault).Success?
      && GetUserDetail(r.store, 2, NoFault).value.families == [Family(5, 2, "Ghost", "2001-01-01")]
  {
    OrphanWrittenByUpdate();
    CreateInheritsOrphan();
  }

  /** The first half of the run above: the upsert writes id 5 verbatim, stamped with user 2. */
  lemma OrphanWrittenByUpdate()
    ensures var s1 := Repository.Update(Seeded(), User(1, "Alice", "1990-01-01", 360, [Family(5, 2, "Ghost", "2001-01-01")]), NoFault);
      s1.err.None? && s1.store == Seeded().(familyList := map[5 := FamilyRow(2, "Ghost", "2001-01-01")])
  {
  }

  /** The second half: the customer created next draws id 2 and lists the row as its family. */
  lemma CreateInheritsOrphan()
    ensures var s1 := Seeded().(familyList := map[5 := FamilyRow(2, "Ghost", "2001-01-01")]);
      var r := Repository.Create(s1, User(0, "Carol", "1985-03-03", 360, []), NoFault);
      && r.err.None? && r.value.userId == 2
      && GetUserDetail(r.store, 2, NoFault).Success?
      && GetUserDetail(r.store, 2, NoFault).value.families == [Family(5, 2, "Ghost", "2001-01-01")]
  {
    var s1 := Seeded().(familyList := map[5 := FamilyRow(2, "Ghost", "2001-01-01")]);
    var carol := User(0, "Carol", "1985-03-03", 360, []);
    var r := Repository.Create(s1, carol, NoFault);
    assert r.store.familyList == s1.familyList;
    assert IdRange(5, 1) == {5};
    assert FamilyIdsOf(r.store.familyList, 2) == IdRange(5, 1);
    SortedIdRange(5, 1);
    var fams := FamiliesOf(r.store.familyList, 2);
    assert |fams| == 1;
  }

  // ----- validation gates the writes -----

  /** A payload whose user fields fail validation never reaches the repository: the store stays as it was. */
  lemma InvalidUserWritesNothing(s: Store, u: User, fault: Fault)
    requires !Validation.ValidUser(u)
    ensures Usecase.Create(s, u, fault) == Reply(s, u, Some(UserInvalid(Validation.UserErrors(u))))
    ensures Usecase.Update(s, u, fault) == Reply(s, u, Some(UserInvalid(Validation.UserErrors(u))))
  {
  }

  /** A name of four characters is rejected before any statement runs. */
  lemma ShortNameRejected(s: Store)
    ensures Usecase.Create(s, User(0, "Budi", "1990-01-01", 360, []), NoFault).store == s
    ensures Usecase.Create(s, User(0, "Budi", "1990-01-01", 360, []), NoFault).err.value.UserInvalid?
  {
  }
}
