/**
 * The entities of the user/family resource (internal/model/user_family.go),
 * the validation vocabulary and the error taxonomy shared by the layers.
 *
 * Go `int` fields are modelled as unbounded `int`.
 */
module Model {

  /** A family member as carried in a request payload or returned by a read. */
  datatype Family = Family(familyId: int, userId: int, name: string, dob: string)

  /** A user with its nested family members. */
  datatype User = User(userId: int, name: string, dob: string, nationalityId: int, families: seq<Family>)

  /** Reference data joined in by the reads; the system never mutates it. */
  datatype Nationality = Nationality(nationalityId: int, nationalityName: string, nationalityCode: string)

  /** The read model produced by the detail and list queries. */
  datatype UserDetailResponse = UserDetailResponse(
    userId: int,
    name: string,
    dob: string,
    nationalityId: int,
    nationality: Nationality,
    families: seq<Family>)

  /** Which family rule set applies: the one in Create or the stricter one in Update. */
  datatype Mode = OnCreate | OnUpdate

  /** The struct fields validation rules are attached to. */
  datatype Field = NameField | DobField | NationalityIdField | FamilyIdField | UserIdField

  /** The validation rules used by the use cases, in the order they can be attached to a field. */
  datatype Rule = Required | Length | Match | DateFormat | Min

  /** The tables a unique violation can be reported on. */
  datatype Table = CustomerTable | FamilyListTable

  /**
   * The steps of a repository call, in execution order: opening the
   * transaction, the statement on `customer` (for the list, sending and
   * preparing the query), the i-th statement (or copied row) on
   * `family_list`, reading the i-th result row of the list query, and the
   * commit.
   */
  datatype Step = Begin | CustomerStmt | FamilyStmt(index: nat) | ResultRow(index: nat) | Commit

  /**
   * What the database environment does to a call: nothing, or fail the named
   * statement before it takes effect (lost connection, cancelled context,
   * constraint the model does not see).
   */
  datatype Fault = NoFault | FailAt(step: Step)

  /** Every error a use case can return. */
  datatype Error =
    | UserInvalid(userErrors: map<Field, Rule>)
    | FamilyInvalid(index: nat, familyErrors: map<Field, Rule>)
    | NoRows
    | UniqueViolation(table: Table, key: int)
    | StorageFailure(at: Step)
    | ParameterOutOfRange(value: int)

  /** A fault that fires at none of the statements of a transaction with `n` family statements. */
  predicate SparesTransaction(fault: Fault, n: nat) {
    match fault
    case NoFault => true
    case FailAt(step) => !(step in {Begin, CustomerStmt, Commit} || (step.FamilyStmt? && step.index < n))
  }

  /** Whether a Go `int` can be sent where PostgreSQL expects an `int4` parameter. */
  predicate FitsInt4(v: int) {
    -0x8000_0000 <= v < 0x8000_0000
  }
}
