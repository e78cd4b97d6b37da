/**
 * The relational store the repository works on, as an abstract state: the
 * `customer` and `family_list` tables keyed by their primary keys, the
 * read-only `nationality` table, and the two id sequences. Also the read model
 * the queries assemble from it: a user's family rows filtered by `cst_id` and
 * ordered by ascending `fl_id`, nationality columns defaulting to "".
 */
module Tables {
  import opened Model

  datatype CustomerRow = CustomerRow(nationalityId: int, name: string, dob: string)

  datatype FamilyRow = FamilyRow(cstId: int, name: string, dob: string)

  datatype NationalityRow = NationalityRow(name: string, code: string)

  /**
   * `customerSeq` and `familySeq` are the values the next `nextval` of the
   * customer id sequence and of `family_list_fl_id_seq` return.
   */
  datatype Store = Store(
    customer: map<int, CustomerRow>,
    familyList: map<int, FamilyRow>,
    nationality: map<int, NationalityRow>,
    customerSeq: int,
    familySeq: int)

  /**
   * Customer ids are only ever drawn from their sequence, so every existing id
   * lies below the sequence's next value. (Family ids have no such invariant:
   * Update writes explicit ids verbatim.)
   */
  predicate Wf(s: Store) {
    forall id :: id in s.customer ==> id < s.customerSeq
  }

  predicate Ascending(xs: seq<int>) {
    forall i, j :: 0 <= i < j < |xs| ==> xs[i] < xs[j]
  }

  predicate IsLeast(m: int, ks: set<int>) {
    m in ks && forall k :: k in ks ==> m <= k
  }

  /** A set that is not empty has an element. */
  lemma HasElement(ks: set<int>)
    ensures ks == {} || exists k :: k in ks
  {
    if forall k :: k !in ks {
      assert ks == {};
    }
  }

  lemma {:induction false} LeastExists(ks: set<int>)
    requires ks != {}
    ensures exists m :: IsLeast(m, ks)
    decreases |ks|
  {
    HasElement(ks);
    var x :| x in ks;
    if ks == {x} {
      assert IsLeast(x, ks);
    } else {
      var rest := ks - {x};
      LeastExists(rest);
      var m :| IsLeast(m, rest);
      var least := if x < m then x else m;
      forall k | k in ks
        ensures least <= k
      {
        if k != x {
          assert k in rest;
        }
      }
      assert IsLeast(least, ks);
    }
  }

  /** The keys of `ks` in ascending order (`ORDER BY ... ASC`). */
  function SortedIds(ks: set<int>): (r: seq<int>)
    ensures Ascending(r)
    ensures forall k :: k in r <==> k in ks
    ensures forall i :: 0 <= i < |r| ==> r[i] in ks
    ensures |r| == |ks|
    decreases |ks|
  {
    if ks == {} then []
    else
      LeastExists(ks);
      var m :| IsLeast(m, ks);
      [m] + SortedIds(ks - {m})
  }

  /** The ids `lo`, `lo + 1`, ..., `lo + n - 1`. */
  function IdRange(lo: int, n: nat): (ks: set<int>)
    ensures forall k :: k in ks <==> lo <= k < lo + n
    decreases n
  {
    if n == 0 then {} else {lo} + IdRange(lo + 1, n - 1)
  }

  /** The list `[lo, lo + 1, ..., lo + n - 1]`. */
  function Consecutive(lo: int, n: nat): (r: seq<int>)
    ensures |r| == n && forall i :: 0 <= i < n ==> r[i] == lo + i
    decreases n
  {
    if n == 0 then [] else [lo] + Consecutive(lo + 1, n - 1)
  }

  /** The least id comes first, followed by the enumeration of the rest. */
  lemma SortedIdsStartsWithLeast(ks: set<int>, m: int)
    requires IsLeast(m, ks)
    ensures SortedIds(ks) == [m] + SortedIds(ks - {m})
  {
    assert forall x :: IsLeast(x, ks) ==> x == m;
  }

  lemma SortedIdRangeStep(lo: int, n: nat)
    requires n > 0
    requires SortedIds(IdRange(lo + 1, n - 1)) == Consecutive(lo + 1, n - 1)
    ensures SortedIds(IdRange(lo, n)) == Consecutive(lo, n)
  {
    var ks := IdRange(lo, n);
    assert IsLeast(lo, ks);
    SortedIdsStartsWithLeast(ks, lo);
    assert ks - {lo} == IdRange(lo + 1, n - 1);
  }

  /** Consecutive ids are enumerated in the order they were drawn. */
  lemma {:induction false} SortedIdRange(lo: int, n: nat)
    ensures SortedIds(IdRange(lo, n)) == Consecutive(lo, n)
    decreases n
  {
    if n == 0 {
      assert IdRange(lo, n) == {};
    } else {
      SortedIdRange(lo + 1, n - 1);
      SortedIdRangeStep(lo, n);
    }
  }

  /** The `fl_id`s of the family rows whose `cst_id` is `userId` (`WHERE fl.cst_id = cust.customer_id`). */
  function FamilyIdsOf(t: map<int, FamilyRow>, userId: int): set<int> {
    set k | k in t && t[k].cstId == userId
  }

  /** The rows under `ids`, in that order, as `Family` values. */
  function FamiliesAt(t: map<int, FamilyRow>, ids: seq<int>): (r: seq<Family>)
    requires forall i :: 0 <= i < |ids| ==> ids[i] in t
    ensures |r| == |ids|
    ensures forall i :: 0 <= i < |ids| ==> r[i] == Family(ids[i], t[ids[i]].cstId, t[ids[i]].name, t[ids[i]].dob)
  {
    seq(|ids|, i requires 0 <= i < |ids| => Family(ids[i], t[ids[i]].cstId, t[ids[i]].name, t[ids[i]].dob))
  }

  /** Every id listed has its entry. */
  lemma FamiliesAtCover(t: map<int, FamilyRow>, ids: seq<int>, k: int)
    requires forall i :: 0 <= i < |ids| ==> ids[i] in t
    requires k in ids
    ensures exists i :: 0 <= i < |ids| && FamiliesAt(t, ids)[i].familyId == k
  {
    var i :| 0 <= i < |ids| && ids[i] == k;
    assert FamiliesAt(t, ids)[i].familyId == k;
  }

  /**
   * The families aggregated for one user: every row with that `cst_id`, as a
   * `Family`, ordered by ascending `fl_id`; empty (never null) when there are none.
   */
  function FamiliesOf(t: map<int, FamilyRow>, userId: int): (r: seq<Family>)
    ensures |r| == |FamilyIdsOf(t, userId)|
    ensures forall i :: 0 <= i < |r| ==>
      r[i].familyId in t && t[r[i].familyId] == FamilyRow(userId, r[i].name, r[i].dob) && r[i].userId == userId
    ensures forall k :: k in t && t[k].cstId == userId <==> exists i :: 0 <= i < |r| && r[i].familyId == k
    ensures forall i, j :: 0 <= i < j < |r| ==> r[i].familyId < r[j].familyId
  {
    var ids := SortedIds(FamilyIdsOf(t, userId));
    var r := FamiliesAt(t, ids);
    forall k | k in t && t[k].cstId == userId
      ensures exists i :: 0 <= i < |r| && r[i].familyId == k
    {
      assert k in FamilyIdsOf(t, userId);
      FamiliesAtCover(t, ids, k);
    }
    r
  }

  /** Two family tables holding the same rows for `userId` give that user the same families. */
  lemma FamiliesOfFrame(t: map<int, FamilyRow>, t': map<int, FamilyRow>, userId: int)
    requires forall k :: k in t && t[k].cstId == userId <==> k in t' && t'[k].cstId == userId
    requires forall k :: k in t && t[k].cstId == userId ==> t'[k] == t[k]
    ensures FamiliesOf(t', userId) == FamiliesOf(t, userId)
  {
    forall k
      ensures k in FamilyIdsOf(t', userId) <==> k in FamilyIdsOf(t, userId)
    {
    }
    assert FamilyIdsOf(t', userId) == FamilyIdsOf(t, userId);
    var ids := SortedIds(FamilyIdsOf(t, userId));
    var r, r' := FamiliesOf(t, userId), FamiliesOf(t', userId);
    forall i | 0 <= i < |ids|
      ensures r'[i] == r[i]
    {
      assert ids[i] in t && t[ids[i]].cstId == userId;
    }
  }

  /** `COALESCE(nat.nationality_name, '')`, `COALESCE(nat.nationality_code, '')` of the left join. */
  function NationalityOf(s: Store, nationalityId: int): (n: Nationality)
    ensures n.nationalityId == nationalityId
    ensures nationalityId !in s.nationality ==> n.nationalityName == "" && n.nationalityCode == ""
    ensures nationalityId in s.nationality ==>
      n.nationalityName == s.nationality[nationalityId].name && n.nationalityCode == s.nationality[nationalityId].code
  {
    if nationalityId in s.nationality then
      Nationality(nationalityId, s.nationality[nationalityId].name, s.nationality[nationalityId].code)
    else Nationality(nationalityId, "", "")
  }

  /** One row of the detail/list query for an existing customer. */
  function DetailOf(s: Store, userId: int): (d: UserDetailResponse)
    requires userId in s.customer
    ensures d.userId == userId
    ensures d.name == s.customer[userId].name && d.dob == s.customer[userId].dob
    ensures d.nationalityId == s.customer[userId].nationalityId
    ensures d.nationality == NationalityOf(s, d.nationalityId)
    ensures d.families == FamiliesOf(s.familyList, userId)
  {
    var c := s.customer[userId];
    UserDetailResponse(userId, c.name, c.dob, c.nationalityId, NationalityOf(s, c.nationalityId), FamiliesOf(s.familyList, userId))
  }
}
