/**
 * The service layer (internal/usecase/user_usecase.go): Create and Update
 * validate the user and then each family before reaching the repository; the
 * reads and deletes pass straight through.
 */
module Usecase {
  import opened Wrappers
  import opened Model
  import opened Validation
  import Tables
  import Repository

  /**
   * `validateUserFamilies` followed by the per-family loop: the user's error
   * map when any user field fails, otherwise the first family whose fields
   * fail, with that family's error map.
   */
  function Validate(u: User, mode: Mode): (r: Option<Error>)
    ensures r.None? <==> ValidUser(u) && forall j :: 0 <= j < |u.families| ==> ValidFamily(u.families[j], mode)
    ensures r.Some? ==> r.value.UserInvalid? || r.value.FamilyInvalid?
    ensures r.Some? && r.value.UserInvalid? ==> !ValidUser(u) && r.value.userErrors == UserErrors(u)
    ensures !ValidUser(u) ==> r.Some? && r.value.UserInvalid?
    ensures r.Some? && r.value.FamilyInvalid? ==>
      && ValidUser(u)
      && r.value.index < |u.families|
      && !ValidFamily(u.families[r.value.index], mode)
      && r.value.familyErrors == FamilyErrors(u.families[r.value.index], mode)
      && (forall j :: 0 <= j < r.value.index ==> ValidFamily(u.families[j], mode))
  {
    var e := UserErrors(u);
    if e != map[] then Some(UserInvalid(e))
    else match FirstInvalidFamily(u.families, mode)
      case Some((i, fe)) => Some(FamilyInvalid(i, fe))
      case None => None
  }

  /** Create: a payload that fails validation leaves the store as it is and reaches no statement. */
  function Create(s: Tables.Store, u: User, fault: Fault): (r: Repository.Reply<User>)
    ensures Validate(u, OnCreate).Some? ==> r == Repository.Reply(s, u, Validate(u, OnCreate))
    ensures Validate(u, OnCreate).None? ==> r == Repository.Create(s, u, fault)
    ensures r.err.None? ==> ValidUser(u) && forall j :: 0 <= j < |u.families| ==> ValidFamily(u.families[j], OnCreate)
    ensures r.err.None? ==> r.value.userId == s.customerSeq
  {
    match Validate(u, OnCreate)
    case Some(e) => Repository.Reply(s, u, Some(e))
    case None => Repository.Create(s, u, fault)
  }

  /** Update: validated as for Create plus the family-id rules; then the repository's Update. */
  function Update(s: Tables.Store, u: User, fault: Fault): (r: Repository.Reply<User>)
    ensures Validate(u, OnUpdate).Some? ==> r == Repository.Reply(s, u, Validate(u, OnUpdate))
    ensures Validate(u, OnUpdate).None? ==> r == Repository.Update(s, u, fault)
    ensures r.err.None? ==> ValidUser(u) && forall j :: 0 <= j < |u.families| ==>
      ValidFamily(u.families[j], OnUpdate) && u.families[j].familyId >= 0 && u.families[j].userId >= 1
  {
    match Validate(u, OnUpdate)
    case Some(e) => Repository.Reply(s, u, Some(e))
    case None => Repository.Update(s, u, fault)
  }

  /** Detail: the repository's answer; on an error the caller gets no detail at all. */
  function Detail(s: Tables.Store, userId: int, fault: Fault): (r: Result<UserDetailResponse, Error>)
    ensures r == Repository.GetUserDetail(s, userId, fault)
    ensures r.Success? <==> fault != FailAt(CustomerStmt) && userId in s.customer
  {
    Repository.GetUserDetail(s, userId, fault)
  }

  function GetAll(s: Tables.Store, fault: Fault): (r: Result<seq<UserDetailResponse>, Error>)
    ensures r == Repository.GetAll(s, fault)
    ensures r.Success? ==> |r.value| <= |s.customer|
    ensures fault == NoFault ==> r.Success? && |r.value| == |s.customer|
  {
    Repository.GetAll(s, fault)
  }

  function Delete(s: Tables.Store, userId: int, fault: Fault): (r: Repository.Reply<()>)
    ensures r == Repository.Delete(s, userId, fault)
    ensures r.err.None? ==> userId !in r.store.customer
  {
    Repository.Delete(s, userId, fault)
  }

  function DeleteFamily(s: Tables.Store, userId: int, familyId: int, fault: Fault): (r: Repository.Reply<()>)
    ensures r == Repository.DeleteFamily(s, userId, familyId, fault)
    ensures r.err.None? ==> forall k :: k in r.store.familyList ==> k != familyId || r.store.familyList[k].cstId != userId
  {
    Repository.DeleteFamily(s, userId, familyId, fault)
  }
}
