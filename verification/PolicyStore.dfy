/** The life cycle of schema policies: versions are appended, activated, archived and deleted. */
module PolicyStore {
  import opened Prelude

  datatype Status = DRAFT | ACTIVE | ARCHIVED

  /** One row of `schema_policies`; `body` stands for the columns the life cycle does not look at. */
  datatype Policy = Policy(policyId: string, version: int, policyType: string, status: Status, body: string)

  type Table = seq<Policy>

  predicate Is(p: Policy, id: string, version: int)
  {
    p.policyId == id && p.version == version
  }

  /** The unique constraint of the table. */
  ghost predicate Unique(rows: Table)
  {
    forall i, j :: 0 <= i < j < |rows| ==> rows[i].policyId != rows[j].policyId || rows[i].version != rows[j].version
  }

  ghost predicate OneActive(rows: Table)
  {
    forall i, j :: 0 <= i < j < |rows| && rows[i].status.ACTIVE? && rows[j].status.ACTIVE? ==> rows[i].policyId != rows[j].policyId
  }

  /** What every operation keeps. */
  ghost predicate Sound(rows: Table)
  {
    Unique(rows) && OneActive(rows)
  }

  function VersionsOf(rows: Table, id: string): (r: set<int>)
    ensures forall v :: v in r <==> exists i :: 0 <= i < |rows| && Is(rows[i], id, v)
  {
    set i | 0 <= i < |rows| && rows[i].policyId == id :: rows[i].version
  }

  function ActiveVersions(rows: Table, id: string): (r: set<int>)
    ensures forall v :: v in r <==> exists i :: 0 <= i < |rows| && Is(rows[i], id, v) && rows[i].status.ACTIVE?
  {
    set i | 0 <= i < |rows| && rows[i].policyId == id && rows[i].status.ACTIVE? :: rows[i].version
  }

  /** `update_status`: a missing version is ignored. */
  function WithStatus(rows: Table, id: string, versions: set<int>, status: Status): (r: Table)
    ensures |r| == |rows|
  {
    seq(|rows|, i requires 0 <= i < |rows| =>
      if rows[i].policyId == id && rows[i].version in versions then rows[i].(status := status) else rows[i])
  }

  function Without(rows: Table, drop: Policy -> bool): (r: Table)
  {
    if rows == [] then [] else (if drop(rows[0]) then [] else [rows[0]]) + Without(rows[1..], drop)
  }

  function OfPolicy(id: string): Policy -> bool
  {
    (p: Policy) => p.policyId == id
  }

  function OfVersion(id: string, version: int): Policy -> bool
  {
    (p: Policy) => Is(p, id, version)
  }

  /** The rows after activating a version of `id`: it alone is active, and only if it exists. */
  function Activated(rows: Table, id: string, version: int): (r: Table)
    ensures |r| == |rows|
  {
    seq(|rows|, i requires 0 <= i < |rows| =>
      if rows[i].policyId != id then rows[i]
      else if rows[i].version == version then rows[i].(status := ACTIVE)
      else if rows[i].status.ACTIVE? then rows[i].(status := ARCHIVED)
      else rows[i])
  }

  function NextVersion(rows: Table, id: string): int
    requires VersionsOf(rows, id) != {}
  {
    Highest(VersionsOf(rows, id)) + 1
  }

  // ---------- the repository and the use cases ----------

  class PolicyRepository {
    var rows: Table

    constructor ()
      ensures rows == []
    {
      rows := [];
    }

    /** A duplicate (id, version) is refused by the database. */
    method Save(p: Policy) returns (ok: bool)
      modifies this
      ensures ok <==> p.version !in VersionsOf(old(rows), p.policyId)
      ensures rows == if ok then old(rows) + [p] else old(rows)
    {
      ok := p.version !in VersionsOf(rows, p.policyId);
      if ok {
        rows := rows + [p];
      }
    }

    /** `get_by_id` without a version: the newest one. */
    method GetNewest(id: string) returns (r: Option<Policy>)
      ensures r.None? <==> VersionsOf(rows, id) == {}
      ensures r.Some? ==> r.value in rows && Is(r.value, id, Highest(VersionsOf(rows, id)))
    {
      var versions := VersionsOf(rows, id);
      if versions == {} {
        return None;
      }
      var newest := Highest(versions);
      var i :| 0 <= i < |rows| && Is(rows[i], id, newest);
      return Some(rows[i]);
    }

    method ListActive() returns (r: seq<Policy>)
      ensures forall p :: p in r <==> p in rows && p.status.ACTIVE?
    {
      r := Without(rows, (p: Policy) => !p.status.ACTIVE?);
      WithoutElements(rows, (p: Policy) => !p.status.ACTIVE?);
    }

    /** Only the status of the version changes; nothing does when there is no such version. */
    method UpdateStatus(id: string, version: int, status: Status)
      modifies this
      ensures |rows| == |old(rows)|
      ensures forall i :: 0 <= i < |rows| ==>
                rows[i] == old(rows)[i].(status := if Is(old(rows)[i], id, version) then status else old(rows)[i].status)
      ensures version !in VersionsOf(old(rows), id) ==> rows == old(rows)
      ensures ActiveVersions(rows, id) ==
                ActiveVersions(old(rows), id) - {version} + if status.ACTIVE? then VersionsOf(old(rows), id) * {version} else {}
      ensures VersionsOf(rows, id) == VersionsOf(old(rows), id) && OthersKept(id, old(rows), rows)
      ensures rows == WithStatus(old(rows), id, {version}, status)
    {
      WithStatusMeaning(rows, id, version, status);
      rows := WithStatus(rows, id, {version}, status);
    }

    /** No version of the policy is left; every other row stays, in its order. */
    method DeletePolicy(id: string)
      modifies this
      ensures LeftBy(OfPolicy(id), old(rows), rows)
      ensures VersionsOf(rows, id) == {} && (VersionsOf(old(rows), id) == {} ==> rows == old(rows))
      ensures OthersKept(id, old(rows), rows)
      ensures rows == Without(old(rows), OfPolicy(id))
    {
      WithoutLeaves(rows, OfPolicy(id));
      OthersUntouched(rows, OfPolicy(id), id);
      PolicyDeleted(rows, id);
      rows := Without(rows, OfPolicy(id));
    }

    /** The version is gone and its policy keeps the others; every other row stays, in its order. */
    method DeleteVersion(id: string, version: int)
      modifies this
      ensures LeftBy(OfVersion(id, version), old(rows), rows)
      ensures VersionsOf(rows, id) == VersionsOf(old(rows), id) - {version}
      ensures ActiveVersions(rows, id) == ActiveVersions(old(rows), id) - {version}
      ensures version !in VersionsOf(old(rows), id) ==> rows == old(rows)
      ensures OthersKept(id, old(rows), rows)
      ensures rows == Without(old(rows), OfVersion(id, version))
    {
      WithoutLeaves(rows, OfVersion(id, version));
      OthersUntouched(rows, OfVersion(id, version), id);
      VersionDeleted(rows, id, version);
      if version !in VersionsOf(rows, id) { MissingVersionDeleted(rows, id, version); }
      rows := Without(rows, OfVersion(id, version));
    }
  }

  /** `create_policy`, with an id no row has. */
  method CreatePolicy(repo: PolicyRepository, id: string, policyType: string, body: string) returns (p: Policy)
    requires Sound(repo.rows) && VersionsOf(repo.rows, id) == {}
    modifies repo
    ensures p == Policy(id, 1, policyType, DRAFT, body)
    ensures repo.rows == old(repo.rows) + [p] && Sound(repo.rows)
  {
    p := Policy(id, 1, policyType, DRAFT, body);
    AppendKeepsSound(repo.rows, p);
    var ok := repo.Save(p);
  }

  /** `update_policy`: a draft one above the newest version; the unique constraint is never hit. */
  method UpdatePolicy(repo: PolicyRepository, id: string, body: string) returns (r: Result<Policy>)
    requires Sound(repo.rows)
    modifies repo
    ensures r.Ok? <==> VersionsOf(old(repo.rows), id) != {}
    ensures r.Ok? ==> Is(r.value, id, NextVersion(old(repo.rows), id)) && r.value.status.DRAFT? && r.value.body == body
    ensures r.Ok? ==> exists p :: p in old(repo.rows) && Is(p, id, r.value.version - 1) && p.policyType == r.value.policyType
    ensures repo.rows == if r.Ok? then old(repo.rows) + [r.value] else old(repo.rows)
    ensures Sound(repo.rows)
  {
    var latest := repo.GetNewest(id);
    if latest.None? {
      return Err("Policy not found");
    }
    var p := Policy(id, latest.value.version + 1, latest.value.policyType, DRAFT, body);
    AppendKeepsSound(repo.rows, p);
    var ok := repo.Save(p);
    return Ok(p);
  }

  /**
   `activate_policy`; the call after `budget` status updates raises. Complete, it leaves the version
   as the only active one of its policy, or none active if the version does not exist. Cut short, it
   still never leaves two.
   */
  method ActivatePolicy(repo: PolicyRepository, id: string, version: int, budget: nat) returns (done: bool)
    requires Sound(repo.rows)
    modifies repo
    ensures done ==> repo.rows == Activated(old(repo.rows), id, version)
    ensures !done ==> exists archived :: AllowedCut(old(repo.rows), id, version, archived)
                                         && repo.rows == WithStatus(old(repo.rows), id, archived, ARCHIVED)
    ensures Sound(repo.rows)
    ensures forall x :: x != id ==> ActiveVersions(repo.rows, x) == ActiveVersions(old(repo.rows), x)
    ensures forall x :: VersionsOf(repo.rows, x) == VersionsOf(old(repo.rows), x)
  {
    var active := repo.ListActive();
    ghost var before := repo.rows;
    ghost var archived: set<int> := {};
    var spent := 0;
    assert WithStatus(before, id, {}, ARCHIVED) == before;
    for n := 0 to |active|
      invariant repo.rows == WithStatus(before, id, archived, ARCHIVED)
      invariant archived == set i | 0 <= i < n && active[i].policyId == id && active[i].version != version :: active[i].version
    {
      if active[n].policyId == id && active[n].version != version {
        if spent == budget {
          ArchivedSome(before, id, version, active, n, archived);
          ArchivedKeepsSound(before, id, archived);
          return false;
        }
        repo.UpdateStatus(active[n].policyId, active[n].version, ARCHIVED);
        ArchiveOneMore(before, id, archived, active[n].version);
        archived := archived + {active[n].version};
        spent := spent + 1;
      }
    }
    if spent == budget {
      ArchivedSome(before, id, version, active, |active|, archived);
      ArchivedKeepsSound(before, id, archived);
      return false;
    }
    ArchivedAll(before, id, version, active, archived);
    repo.UpdateStatus(id, version, ACTIVE);
    ArchivedThenActive(before, id, version, archived);
    ActivatedKeepsSound(before, id, version);
    return true;
  }

  // ---------- what the operations keep ----------

  lemma AppendKeepsSound(rows: Table, p: Policy)
    requires Sound(rows) && p.version !in VersionsOf(rows, p.policyId) && !p.status.ACTIVE?
    ensures Sound(rows + [p])
  {
  }

  lemma ArchiveOneMore(rows: Table, id: string, archived: set<int>, v: int)
    ensures WithStatus(WithStatus(rows, id, archived, ARCHIVED), id, {v}, ARCHIVED) == WithStatus(rows, id, archived + {v}, ARCHIVED)
  {
  }

  lemma SameVersions(rows: Table, rows': Table)
    requires |rows| == |rows'| && forall i :: 0 <= i < |rows| ==> rows'[i] == rows[i].(status := rows'[i].status)
    ensures forall x :: VersionsOf(rows', x) == VersionsOf(rows, x)
    ensures Unique(rows) ==> Unique(rows')
  {
  }

  lemma SameActive(rows: Table, rows': Table, x: string)
    requires |rows| == |rows'|
    requires forall i :: 0 <= i < |rows| && (rows[i].policyId == x || rows'[i].policyId == x) ==> rows'[i] == rows[i]
    ensures ActiveVersions(rows', x) == ActiveVersions(rows, x)
  {
  }

  lemma ArchivedKeepsSound(rows: Table, id: string, archived: set<int>)
    requires Sound(rows)
    ensures Sound(WithStatus(rows, id, archived, ARCHIVED))
    ensures forall x :: VersionsOf(WithStatus(rows, id, archived, ARCHIVED), x) == VersionsOf(rows, x)
    ensures forall x :: x != id ==> ActiveVersions(WithStatus(rows, id, archived, ARCHIVED), x) == ActiveVersions(rows, x)
  {
    var rows' := WithStatus(rows, id, archived, ARCHIVED);
    SameVersions(rows, rows');
    forall x | x != id ensures ActiveVersions(rows', x) == ActiveVersions(rows, x) {
      SameActive(rows, rows', x);
    }
  }

  lemma ArchivedAll(rows: Table, id: string, version: int, active: seq<Policy>, archived: set<int>)
    requires forall p :: p in active <==> p in rows && p.status.ACTIVE?
    requires archived == set i | 0 <= i < |active| && active[i].policyId == id && active[i].version != version :: active[i].version
    ensures forall i :: 0 <= i < |rows| && rows[i].policyId == id && rows[i].status.ACTIVE? && rows[i].version != version
              ==> rows[i].version in archived
    ensures forall v :: v in archived ==> v != version && exists i :: 0 <= i < |rows| && Is(rows[i], id, v) && rows[i].status.ACTIVE?
  {
  }

  /** What an activation cut short may have archived: other active versions of the policy. */
  ghost predicate AllowedCut(rows: Table, id: string, version: int, archived: set<int>)
  {
    archived <= ActiveVersions(rows, id) - {version}
  }

  lemma ArchivedSome(rows: Table, id: string, version: int, active: seq<Policy>, n: nat, archived: set<int>)
    requires n <= |active| && forall p :: p in active <==> p in rows && p.status.ACTIVE?
    requires archived == set i | 0 <= i < n && active[i].policyId == id && active[i].version != version :: active[i].version
    ensures AllowedCut(rows, id, version, archived)
  {
    forall v | v in archived ensures v in ActiveVersions(rows, id) - {version} {
      var i :| 0 <= i < n && active[i].policyId == id && active[i].version == v;
      assert active[i] in active;
    }
  }

  lemma ArchivedThenActive(rows: Table, id: string, version: int, archived: set<int>)
    requires Unique(rows)
    requires forall i :: 0 <= i < |rows| && rows[i].policyId == id && rows[i].status.ACTIVE? && rows[i].version != version
               ==> rows[i].version in archived
    requires forall v :: v in archived ==> v != version && exists i :: 0 <= i < |rows| && Is(rows[i], id, v) && rows[i].status.ACTIVE?
    ensures WithStatus(WithStatus(rows, id, archived, ARCHIVED), id, {version}, ACTIVE) == Activated(rows, id, version)
  {
  }

  /** After an activation the active versions of the policy are the version itself, if it exists. */
  lemma ActivatedKeepsSound(rows: Table, id: string, version: int)
    requires Sound(rows)
    ensures Sound(Activated(rows, id, version))
    ensures ActiveVersions(Activated(rows, id, version), id) == VersionsOf(rows, id) * {version}
    ensures forall x :: VersionsOf(Activated(rows, id, version), x) == VersionsOf(rows, x)
    ensures forall x :: x != id ==> ActiveVersions(Activated(rows, id, version), x) == ActiveVersions(rows, x)
  {
    var rows' := Activated(rows, id, version);
    SameVersions(rows, rows');
    forall x | x != id ensures ActiveVersions(rows', x) == ActiveVersions(rows, x) {
      SameActive(rows, rows', x);
    }
    forall v ensures v in ActiveVersions(rows', id) <==> v in VersionsOf(rows, id) * {version} {
      if v in ActiveVersions(rows', id) {
        var i :| 0 <= i < |rows'| && Is(rows'[i], id, v) && rows'[i].status.ACTIVE?;
        assert Is(rows[i], id, v);
      }
      if v in VersionsOf(rows, id) && v == version {
        var i :| 0 <= i < |rows| && Is(rows[i], id, v);
        assert Is(rows'[i], id, v);
      }
    }
  }

  /** `left` holds the rows not dropped, each as often as before and in the same order. */
  ghost predicate LeftBy(drop: Policy -> bool, rows: Table, left: Table)
  {
    && (forall p :: multiset(left)[p] == if drop(p) then 0 else multiset(rows)[p])
    && forall i, j :: 0 <= i < j < |left| ==> Before(left[i], left[j], rows)
  }

  ghost predicate Before(p: Policy, q: Policy, rows: Table)
  {
    exists k, l :: 0 <= k < l < |rows| && rows[k] == p && rows[l] == q
  }

  /** Other policies keep their versions and their active versions. */
  ghost predicate OthersKept(id: string, rows: Table, rows': Table)
  {
    forall x :: x != id ==> VersionsOf(rows', x) == VersionsOf(rows, x) && ActiveVersions(rows', x) == ActiveVersions(rows, x)
  }

  lemma WithStatusMeaning(rows: Table, id: string, version: int, status: Status)
    ensures var rows' := WithStatus(rows, id, {version}, status);
            && (version !in VersionsOf(rows, id) ==> rows' == rows)
            && ActiveVersions(rows', id) ==
                 ActiveVersions(rows, id) - {version} + (if status.ACTIVE? then VersionsOf(rows, id) * {version} else {})
            && VersionsOf(rows', id) == VersionsOf(rows, id) && OthersKept(id, rows, rows')
  {
    var rows' := WithStatus(rows, id, {version}, status);
    SameVersions(rows, rows');
    forall x | x != id ensures ActiveVersions(rows', x) == ActiveVersions(rows, x) { SameActive(rows, rows', x); }
    assert version !in VersionsOf(rows, id) ==> forall i :: 0 <= i < |rows| ==> !Is(rows[i], id, version);
    forall v
      ensures v in ActiveVersions(rows', id) <==>
                (v in ActiveVersions(rows, id) && v != version) || (status.ACTIVE? && v == version && v in VersionsOf(rows, id))
    {
      ActiveAfterStatus(rows, id, version, status, v);
    }
  }

  lemma ActiveAfterStatus(rows: Table, id: string, version: int, status: Status, v: int)
    ensures v in ActiveVersions(WithStatus(rows, id, {version}, status), id) <==>
              if v == version then status.ACTIVE? && v in VersionsOf(rows, id) else v in ActiveVersions(rows, id)
  {
    var rows' := WithStatus(rows, id, {version}, status);
    if i :| 0 <= i < |rows| && Is(rows[i], id, v) && (if v == version then status.ACTIVE? else rows[i].status.ACTIVE?) {
      assert Is(rows'[i], id, v) && rows'[i].status.ACTIVE?;
    }
    if i :| 0 <= i < |rows| && Is(rows'[i], id, v) && rows'[i].status.ACTIVE? {
      assert Is(rows[i], id, v);
    }
  }

  lemma {:induction false} WithoutCounts(rows: Table, drop: Policy -> bool, p: Policy)
    ensures multiset(Without(rows, drop))[p] == if drop(p) then 0 else multiset(rows)[p]
  {
    if rows != [] {
      var rest := rows[1..];
      WithoutCounts(rest, drop, p);
      HeadTail(rows);
      assert multiset(rows)[p] == multiset([rows[0]])[p] + multiset(rest)[p];
    }
  }

  lemma BeforeInTail(p: Policy, q: Policy, rows: Table)
    requires rows != [] && Before(p, q, rows[1..])
    ensures Before(p, q, rows)
  {
    var rest := rows[1..];
    var k, l :| 0 <= k < l < |rest| && rest[k] == p && rest[l] == q;
    assert rows[k + 1] == p && rows[l + 1] == q;
  }

  lemma HeadBefore(rows: Table, q: Policy)
    requires rows != [] && q in rows[1..]
    ensures Before(rows[0], q, rows)
  {
    var l :| 0 <= l < |rows[1..]| && rows[1..][l] == q;
    assert rows[l + 1] == q;
  }

  lemma {:induction false} WithoutInOrder(rows: Table, drop: Policy -> bool, i: nat, j: nat)
    requires i < j < |Without(rows, drop)|
    ensures Before(Without(rows, drop)[i], Without(rows, drop)[j], rows)
  {
    var rest := rows[1..];
    if drop(rows[0]) {
      WithoutInOrder(rest, drop, i, j);
      BeforeInTail(Without(rows, drop)[i], Without(rows, drop)[j], rows);
    } else if i > 0 {
      WithoutInOrder(rest, drop, i - 1, j - 1);
      BeforeInTail(Without(rows, drop)[i], Without(rows, drop)[j], rows);
    } else {
      WithoutElements(rest, drop);
      assert Without(rows, drop)[j] == Without(rest, drop)[j - 1];
      HeadBefore(rows, Without(rows, drop)[j]);
    }
  }

  lemma {:induction false} WithoutNothing(rows: Table, drop: Policy -> bool)
    requires forall p :: p in rows ==> !drop(p)
    ensures Without(rows, drop) == rows
  {
    if rows != [] {
      HeadTail(rows);
      WithoutNothing(rows[1..], drop);
    }
  }

  lemma WithoutLeaves(rows: Table, drop: Policy -> bool)
    ensures LeftBy(drop, rows, Without(rows, drop))
  {
    forall p ensures multiset(Without(rows, drop))[p] == if drop(p) then 0 else multiset(rows)[p] {
      WithoutCounts(rows, drop, p);
    }
    forall i, j | 0 <= i < j < |Without(rows, drop)| ensures Before(Without(rows, drop)[i], Without(rows, drop)[j], rows) {
      WithoutInOrder(rows, drop, i, j);
    }
  }

  /** A policy none of whose rows is dropped keeps its versions and its active versions. */
  lemma Untouched(rows: Table, drop: Policy -> bool, x: string)
    requires forall p :: p in rows && p.policyId == x ==> !drop(p)
    ensures VersionsOf(Without(rows, drop), x) == VersionsOf(rows, x)
    ensures ActiveVersions(Without(rows, drop), x) == ActiveVersions(rows, x)
  {
    var left := Without(rows, drop);
    WithoutElements(rows, drop);
    forall i | 0 <= i < |rows| && rows[i].policyId == x ensures rows[i] in left { assert rows[i] in rows; }
    forall i | 0 <= i < |left| ensures left[i] in rows { assert left[i] in left; }
  }

  lemma OthersUntouched(rows: Table, drop: Policy -> bool, id: string)
    requires forall p: Policy :: p.policyId != id ==> !drop(p)
    ensures OthersKept(id, rows, Without(rows, drop))
  {
    forall x | x != id
      ensures VersionsOf(Without(rows, drop), x) == VersionsOf(rows, x)
      ensures ActiveVersions(Without(rows, drop), x) == ActiveVersions(rows, x)
    {
      Untouched(rows, drop, x);
    }
  }

  lemma PolicyDeleted(rows: Table, id: string)
    ensures VersionsOf(Without(rows, OfPolicy(id)), id) == {}
    ensures VersionsOf(rows, id) == {} ==> Without(rows, OfPolicy(id)) == rows
  {
    var left := Without(rows, OfPolicy(id));
    WithoutElements(rows, OfPolicy(id));
    forall i | 0 <= i < |left| ensures left[i].policyId != id { assert left[i] in left; }
    if VersionsOf(rows, id) == {} {
      forall i | 0 <= i < |rows| ensures rows[i].policyId != id {
        assert rows[i].version !in VersionsOf(rows, id);
        assert !Is(rows[i], id, rows[i].version);
      }
      WithoutNothing(rows, OfPolicy(id));
    }
  }

  lemma VersionDeleted(rows: Table, id: string, version: int)
    ensures VersionsOf(Without(rows, OfVersion(id, version)), id) == VersionsOf(rows, id) - {version}
    ensures ActiveVersions(Without(rows, OfVersion(id, version)), id) == ActiveVersions(rows, id) - {version}
  {
    var left := Without(rows, OfVersion(id, version));
    WithoutElements(rows, OfVersion(id, version));
    forall i | 0 <= i < |rows| && rows[i].policyId == id && rows[i].version != version ensures rows[i] in left {
      assert rows[i] in rows;
    }
    forall i | 0 <= i < |left| ensures left[i] in rows && !Is(left[i], id, version) { assert left[i] in left; }
  }

  lemma MissingVersionDeleted(rows: Table, id: string, version: int)
    requires version !in VersionsOf(rows, id)
    ensures Without(rows, OfVersion(id, version)) == rows
  {
    assert forall i :: 0 <= i < |rows| ==> !Is(rows[i], id, version);
    WithoutNothing(rows, OfVersion(id, version));
  }

  lemma {:induction false} WithoutElements(rows: Table, drop: Policy -> bool)
    ensures forall p :: p in Without(rows, drop) <==> p in rows && !drop(p)
  {
    if rows != [] {
      WithoutElements(rows[1..], drop);
      HeadTail(rows);
    }
  }

  lemma {:induction false} WithoutSubset(rows: Table, drop: Policy -> bool)
    requires Sound(rows)
    ensures forall p :: p in Without(rows, drop) <==> p in rows && !drop(p)
    ensures Sound(Without(rows, drop))
  {
    if rows != [] {
      var rest := rows[1..];
      WithoutSubset(rest, drop);
      var r := Without(rows, drop);
      HeadTail(rows);
      if !drop(rows[0]) {
        var tail := Without(rest, drop);
        assert r == [rows[0]] + tail;
        forall j | 0 <= j < |tail|
          ensures tail[j].policyId != rows[0].policyId || (tail[j].version != rows[0].version && !(tail[j].status.ACTIVE? && rows[0].status.ACTIVE?))
        {
          assert tail[j] in rest;
          var k :| 0 <= k < |rest| && rest[k] == tail[j];
          assert rows[k + 1] == tail[j];
        }
      }
    }
  }

  // ---------- any sequence of operations ----------

  datatype Op =
    | Create(id: string, policyType: string, body: string)
    | Update(id: string, body: string)
    | Activate(id: string, version: int)
    | CutActivation(id: string, version: int, archived: set<int>)
    | SetStatus(id: string, version: int, status: Status)
    | DeleteAll(id: string)
    | DeleteOne(id: string, version: int)

  /** New ids are fresh, an activation cut short stopped while archiving, and the router sends ACTIVE to `activate_policy`. */
  ghost predicate Allowed(rows: Table, op: Op)
  {
    match op
    case Create(id, _, _) => VersionsOf(rows, id) == {}
    case CutActivation(id, version, archived) => AllowedCut(rows, id, version, archived)
    case SetStatus(_, _, status) => !status.ACTIVE?
    case _ => true
  }

  ghost function NewestType(rows: Table, id: string): string
    requires VersionsOf(rows, id) != {}
  {
    var i :| 0 <= i < |rows| && Is(rows[i], id, Highest(VersionsOf(rows, id)));
    rows[i].policyType
  }

  ghost function Next(rows: Table, op: Op): Table
  {
    match op
    case Create(id, policyType, body) => rows + [Policy(id, 1, policyType, DRAFT, body)]
    case Update(id, body) =>
      if VersionsOf(rows, id) == {} then rows
      else rows + [Policy(id, NextVersion(rows, id), NewestType(rows, id), DRAFT, body)]
    case Activate(id, version) => Activated(rows, id, version)
    case CutActivation(id, version, archived) => WithStatus(rows, id, archived, ARCHIVED)
    case SetStatus(id, version, status) => WithStatus(rows, id, {version}, status)
    case DeleteAll(id) => Without(rows, OfPolicy(id))
    case DeleteOne(id, version) => Without(rows, OfVersion(id, version))
  }

  lemma NextKeepsSound(rows: Table, op: Op)
    requires Sound(rows) && Allowed(rows, op)
    ensures Sound(Next(rows, op))
  {
    match op {
      case Create(id, policyType, body) => AppendKeepsSound(rows, Policy(id, 1, policyType, DRAFT, body));
      case Update(id, body) =>
        if VersionsOf(rows, id) != {} {
          AppendKeepsSound(rows, Policy(id, NextVersion(rows, id), NewestType(rows, id), DRAFT, body));
        }
      case Activate(id, version) => ActivatedKeepsSound(rows, id, version);
      case CutActivation(id, version, archived) => ArchivedKeepsSound(rows, id, archived);
      case SetStatus(id, version, status) => SameVersions(rows, WithStatus(rows, id, {version}, status));
      case DeleteAll(id) => WithoutSubset(rows, OfPolicy(id));
      case DeleteOne(id, version) => WithoutSubset(rows, OfVersion(id, version));
    }
  }

  ghost predicate Runs(rows: Table, ops: seq<Op>, to: Table)
    decreases |ops|
  {
    if ops == [] then rows == to else Allowed(rows, ops[0]) && Runs(Next(rows, ops[0]), ops[1..], to)
  }

  /** In every reachable table (id, version) is unique and each policy has at most one active version. */
  lemma {:induction false} RunsKeepSound(rows: Table, ops: seq<Op>, to: Table)
    requires Sound(rows) && Runs(rows, ops, to)
    ensures Sound(to)
    ensures forall id, v, w :: v in ActiveVersions(to, id) && w in ActiveVersions(to, id) ==> v == w
    decreases |ops|
  {
    if ops != [] {
      NextKeepsSound(rows, ops[0]);
      RunsKeepSound(Next(rows, ops[0]), ops[1..], to);
    } else {
      forall id, v, w | v in ActiveVersions(to, id) && w in ActiveVersions(to, id) ensures v == w {
        var i :| 0 <= i < |to| && Is(to[i], id, v) && to[i].status.ACTIVE?;
        var j :| 0 <= j < |to| && Is(to[j], id, w) && to[j].status.ACTIVE?;
        assert i == j;
      }
    }
  }

  /** Version numbers are not unique over time: the next update reuses a deleted newest number exactly when its predecessor lives. */
  lemma DeletedNewestIsReusedExactly(rows: Table, id: string)
    requires Sound(rows) && VersionsOf(rows, id) != {}
    ensures var newest := Highest(VersionsOf(rows, id));
            var left := Next(rows, DeleteOne(id, newest));
            VersionsOf(left, id) != {} && NextVersion(left, id) == newest <==> newest - 1 in VersionsOf(rows, id)
  {
    var newest := Highest(VersionsOf(rows, id));
    VersionDeleted(rows, id, newest);
    HighestBelow(VersionsOf(rows, id), newest);
  }

  lemma HighestBelow(s: set<int>, h: int)
    requires h in s && forall x :: x in s ==> x <= h
    ensures s - {h} != {} && Highest(s - {h}) == h - 1 <==> h - 1 in s
  {
    var rest := s - {h};
    if h - 1 in s { assert h - 1 in rest; }
  }
}
