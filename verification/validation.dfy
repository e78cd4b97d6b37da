/**
 * The field rules the use cases attach with ozzo-validation
 * (internal/usecase/user_usecase.go). `ValidateStruct` runs every field's
 * rules and collects, per field, the first rule that fails; a struct is valid
 * when nothing is collected. Only which rule failed is modelled, not the
 * message text.
 */
module Validation {
  import opened Wrappers
  import opened Model
  import Dates

  /** Bytes needed to encode a Unicode scalar value in UTF-8. */
  function Utf8Width(c: char): nat {
    if c as int < 0x80 then 1
    else if c as int < 0x800 then 2
    else if c as int < 0x1_0000 then 3
    else 4
  }

  /** Go's `len` of a string: its length in UTF-8 bytes, which ozzo's `Length` rule measures. */
  function ByteLength(s: string): nat {
    if s == [] then 0 else Utf8Width(s[0]) + ByteLength(s[1..])
  }

  /** A byte count is at least the character count and at most four times it. */
  lemma {:induction false} ByteLengthBounds(s: string)
    ensures |s| <= ByteLength(s) <= 4 * |s|
    ensures ByteLength(s) == |s| <==> forall i :: 0 <= i < |s| ==> s[i] as int < 0x80
  {
    if s != [] {
      ByteLengthBounds(s[1..]);
      assert forall i :: 1 <= i < |s| ==> s[i] == s[1..][i - 1];
    }
  }

  // ----- reference predicates: what a valid value is -----

  /** `Required` then `Length(5, 50)`: non-empty and 5 to 50 bytes long. */
  predicate ValidName(name: string) {
    5 <= ByteLength(name) <= 50
  }

  /** `Required`, the pattern and `time.Parse`: the text of a real calendar date. */
  ghost predicate ValidDob(dob: string) {
    Dates.IsCalendarDate(dob)
  }

  ghost predicate ValidUser(u: User) {
    ValidName(u.name) && ValidDob(u.dob) && u.nationalityId != 0
  }

  /** On Create only name and date of birth are checked; on Update the ids are constrained too. */
  ghost predicate ValidFamily(f: Family, mode: Mode) {
    && ValidName(f.name)
    && ValidDob(f.dob)
    && (mode == OnUpdate ==> f.familyId >= 0 && f.userId >= 1)
  }

  // ----- the rules as the use cases chain them -----

  /** `Required, Length(5, 50)`: `Length` skips the empty value, which `Required` has already refused. */
  function CheckName(name: string): (r: Option<Rule>)
    ensures r.None? <==> ValidName(name)
    ensures r == Some(Required) <==> name == []
    ensures r == Some(Length) <==> name != [] && !ValidName(name)
  {
    if name == [] then Some(Required)
    else if ByteLength(name) < 5 || ByteLength(name) > 50 then Some(Length)
    else None
  }

  /** `Required, Match(^\d{4}-\d{2}-\d{2}$), By(validateDOBFormat)`, stopping at the first rule that fails. */
  function CheckDob(dob: string): (r: Option<Rule>)
    ensures r.None? <==> Dates.ParseDate(dob).Some?
    ensures r == Some(Required) <==> dob == []
    ensures r == Some(Match) <==> dob != [] && !Dates.MatchesDobPattern(dob)
    ensures r == Some(DateFormat) <==> Dates.MatchesDobPattern(dob) && Dates.ParseDate(dob).None?
  {
    if dob == [] then Some(Required)
    else if !Dates.MatchesDobPattern(dob) then Some(Match)
    else if Dates.ParseDate(dob).None? then Some(DateFormat)
    else None
  }

  /** `Required` on an integer refuses only the zero value. */
  function CheckRequired(v: int): Option<Rule> {
    if v == 0 then Some(Required) else None
  }

  /** `Min(min)` skips the zero value and refuses anything below `min`. */
  function CheckMin(v: int, min: int): Option<Rule> {
    if v == 0 then None else if v < min then Some(Min) else None
  }

  /** `Required, Min(min)` on an integer. */
  function CheckRequiredMin(v: int, min: int): Option<Rule> {
    if v == 0 then Some(Required) else CheckMin(v, min)
  }

  /** The date-of-birth rules accept exactly the texts of real calendar dates; the pattern adds nothing. */
  lemma CheckDobAcceptsCalendarDates(dob: string)
    ensures CheckDob(dob).None? <==> ValidDob(dob)
    ensures CheckDob(dob) == Some(DateFormat) <==> Dates.MatchesDobPattern(dob) && !ValidDob(dob)
  {
    Dates.ParseAcceptsExactlyCalendarDates(dob);
  }

  /** Records a field's first failing rule, if any, in ozzo's error map. */
  function Put(e: map<Field, Rule>, field: Field, failed: Option<Rule>): map<Field, Rule> {
    match failed
    case None => e
    case Some(rule) => e[field := rule]
  }

  /** `validateUserFamilies`: the errors of the user's own fields. */
  function UserErrors(u: User): (e: map<Field, Rule>)
    ensures NameField in e <==> !ValidName(u.name)
    ensures DobField in e <==> !ValidDob(u.dob)
    ensures NationalityIdField in e <==> u.nationalityId == 0
    ensures e.Keys <= {NameField, DobField, NationalityIdField}
    ensures e == map[] <==> ValidUser(u)
  {
    CheckDobAcceptsCalendarDates(u.dob);
    var e := Put(map[], NameField, CheckName(u.name));
    var e := Put(e, DobField, CheckDob(u.dob));
    Put(e, NationalityIdField, CheckRequired(u.nationalityId))
  }

  /** The per-family `ValidateStruct` of Create or of Update. */
  function FamilyErrors(f: Family, mode: Mode): (e: map<Field, Rule>)
    ensures NameField in e <==> !ValidName(f.name)
    ensures DobField in e <==> !ValidDob(f.dob)
    ensures FamilyIdField in e <==> mode == OnUpdate && f.familyId < 0
    ensures UserIdField in e <==> mode == OnUpdate && f.userId < 1
    ensures NationalityIdField !in e
    ensures e == map[] <==> ValidFamily(f, mode)
  {
    CheckDobAcceptsCalendarDates(f.dob);
    var ids :=
      if mode == OnCreate then map[]
      else Put(Put(map[], FamilyIdField, CheckMin(f.familyId, 0)), UserIdField, CheckRequiredMin(f.userId, 1));
    assert FamilyIdField in ids <==> mode == OnUpdate && f.familyId < 0;
    assert UserIdField in ids <==> mode == OnUpdate && f.userId < 1;
    assert ids.Keys <= {FamilyIdField, UserIdField};
    Put(Put(ids, NameField, CheckName(f.name)), DobField, CheckDob(f.dob))
  }

  /**
   * The loop over the families from position `from` on, for any per-element
   * check: it returns at the first element with errors, so later elements are
   * never examined.
   */
  function FirstFailing<T>(xs: seq<T>, errors: T -> map<Field, Rule>, from: nat): (r: Option<(nat, map<Field, Rule>)>)
    requires from <= |xs|
    ensures r.None? <==> forall j :: from <= j < |xs| ==> errors(xs[j]) == map[]
    ensures r.Some? ==> from <= r.value.0 < |xs| && r.value.1 == errors(xs[r.value.0]) && r.value.1 != map[]
    ensures r.Some? ==> forall j :: from <= j < r.value.0 ==> errors(xs[j]) == map[]
    decreases |xs| - from
  {
    if from == |xs| then None
    else
      var e := errors(xs[from]);
      if e != map[] then Some((from, e)) else FirstFailing(xs, errors, from + 1)
  }

  /**
   * The outcome of the loop depends only on the elements up to the first
   * failing one: whatever follows it can be replaced.
   */
  lemma {:induction false} FirstFailingIgnoresLater<T>(
    xs: seq<T>, later: seq<T>, errors: T -> map<Field, Rule>, from: nat, i: nat, e: map<Field, Rule>)
    requires from <= |xs|
    requires FirstFailing(xs, errors, from) == Some((i, e))
    ensures i < |xs|
    ensures FirstFailing(xs[..i + 1] + later, errors, from) == Some((i, e))
    decreases |xs| - from
  {
    var g := xs[..i + 1] + later;
    assert g[from] == xs[from];
    if from < i {
      FirstFailingIgnoresLater(xs, later, errors, from + 1, i, e);
    }
  }

  /** The family loop of Create (`mode == OnCreate`) or of Update (`mode == OnUpdate`). */
  function FirstInvalidFamily(fams: seq<Family>, mode: Mode): (r: Option<(nat, map<Field, Rule>)>)
    ensures r.None? <==> forall j :: 0 <= j < |fams| ==> ValidFamily(fams[j], mode)
    ensures r.Some? ==> r.value.0 < |fams| && !ValidFamily(fams[r.value.0], mode)
    ensures r.Some? ==> r.value.1 == FamilyErrors(fams[r.value.0], mode)
    ensures r.Some? ==> forall j :: 0 <= j < r.value.0 ==> ValidFamily(fams[j], mode)
  {
    FirstFailing(fams, f => FamilyErrors(f, mode), 0)
  }

  /** Families after the first invalid one have no influence on the outcome of the family loop. */
  lemma FamilyLoopIgnoresLater(fams: seq<Family>, later: seq<Family>, mode: Mode, i: nat, e: map<Field, Rule>)
    requires FirstInvalidFamily(fams, mode) == Some((i, e))
    ensures i < |fams|
    ensures FirstInvalidFamily(fams[..i + 1] + later, mode) == Some((i, e))
  {
    FirstFailingIgnoresLater(fams, later, f => FamilyErrors(f, mode), 0, i, e);
  }

  /** A name is measured in bytes: four characters, one of them a two-byte letter, pass the five-byte minimum. */
  lemma NameLengthCountsBytes()
    ensures ValidName("José") && |"José"| == 4
  {
  }
}
