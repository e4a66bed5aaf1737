/**
 * Keeping the relative graph symmetric when one citizen's relatives are
 * patched: the citizen's old relatives are diffed against the new list, and
 * the citizen's id is pushed onto, or pulled from, the relatives of the
 * citizens on either side of the difference by at most two bulk requests.
 */
module UpdateRelatives {
  import opened Wrappers
  import opened Errors
  import opened Sequences
  import opened Citizens
  import opened Store

  const PushOperation := "$push"
  const PullOperation := "$pull"
  const ImportOrCitizenNotFound := "Import or citizen with specified id not found"
  const CitizensNotFound := "Citizens with specified id not found"

  datatype Op = Push | Pull

  /**
   * An `UpdateMany` on the import `importId`: `op` applied with `citizenId`
   * to the relatives of every citizen whose id is in `targets`.
   */
  datatype UpdateMany = UpdateMany(importId: int, op: Op, citizenId: int, targets: set<int>)

  /** `_make_update_relatives_request`: only `$push` and `$pull` are operations. */
  function MakeUpdateRequest(operation: string, importId: int, citizenId: int, relativesIds: set<int>): (r: Result<UpdateMany, Error>)
    ensures r.Success? <==> operation == PushOperation || operation == PullOperation
    ensures r.Success? ==> r.value == UpdateMany(importId, if operation == PushOperation then Push else Pull, citizenId, relativesIds)
    ensures r.Failure? ==> r.error == ValueError("Operation " + operation + " is not valid operation")
  {
    if operation == PushOperation then Success(UpdateMany(importId, Push, citizenId, relativesIds))
    else if operation == PullOperation then Success(UpdateMany(importId, Pull, citizenId, relativesIds))
    else Failure(ValueError("Operation " + operation + " is not valid operation"))
  }

  /** `_get_relatives_difference`: the ids to push onto and to pull from. */
  function RelativesDifference(oldRelatives: set<int>, newRelatives: seq<int>): (r: (set<int>, set<int>))
    ensures r.0 !! r.1
    ensures r.0 !! oldRelatives && r.1 <= oldRelatives
    ensures (oldRelatives - r.1) + r.0 == SetOf(newRelatives)
    ensures r.0 + r.1 == (oldRelatives + SetOf(newRelatives)) - (oldRelatives * SetOf(newRelatives))
  {
    var newSet := SetOf(newRelatives);
    (newSet - oldRelatives, oldRelatives - newSet)
  }

  /** Only the set of new relatives matters: repeated ids collapse. */
  lemma DifferenceIgnoresRepetition(oldRelatives: set<int>, s: seq<int>, t: seq<int>)
    requires SetOf(s) == SetOf(t)
    ensures RelativesDifference(oldRelatives, s) == RelativesDifference(oldRelatives, t)
  {
  }

  lemma DifferenceExamples()
    ensures RelativesDifference({1, 2, 3}, [2, 3]) == ({}, {1})
    ensures RelativesDifference({1, 2, 3}, [1, 2, 3, 4]) == ({4}, {})
    ensures RelativesDifference({1, 2, 3}, [2, 3, 4, 4]) == ({4}, {1})
    ensures RelativesDifference({1, 2, 3}, []) == ({}, {1, 2, 3})
    ensures RelativesDifference({}, [1, 2, 3]) == ({1, 2, 3}, {})
  {
    assert SetOf([2, 3]) == {2, 3};
    assert {1, 2, 3} - {2, 3} == {1} && {2, 3} - {1, 2, 3} == {};
    assert SetOf([1, 2, 3, 4]) == {1, 2, 3, 4};
    assert {1, 2, 3} - {1, 2, 3, 4} == {} && {1, 2, 3, 4} - {1, 2, 3} == {4};
    assert SetOf([2, 3, 4, 4]) == {2, 3, 4};
    assert {1, 2, 3} - {2, 3, 4} == {1} && {2, 3, 4} - {1, 2, 3} == {4};
    assert SetOf<int>([]) == {};
    var none: set<int> := {};
    assert RelativesDifference({1, 2, 3}, []) == (none - {1, 2, 3}, {1, 2, 3} - none);
    assert none - {1, 2, 3} == none && {1, 2, 3} - none == {1, 2, 3};
    assert SetOf([1, 2, 3]) == {1, 2, 3};
  }

  /** The requests `_make_db_requests` returns: one per non-empty set, push first. */
  function DbRequests(toPush: set<int>, toPull: set<int>, importId: int, citizenId: int): seq<UpdateMany> {
    (if toPush != {} then [UpdateMany(importId, Push, citizenId, toPush)] else [])
    + (if toPull != {} then [UpdateMany(importId, Pull, citizenId, toPull)] else [])
  }

  lemma DbRequestsShape(toPush: set<int>, toPull: set<int>, importId: int, citizenId: int)
    ensures var r := DbRequests(toPush, toPull, importId, citizenId);
      && |r| == (if toPush != {} then 1 else 0) + (if toPull != {} then 1 else 0)
      && |r| <= 2
      && (forall k :: 0 <= k < |r| ==> r[k].importId == importId && r[k].citizenId == citizenId && r[k].targets != {})
      && (forall k :: 0 <= k < |r| ==> r[k].targets == if r[k].op == Push then toPush else toPull)
      && (toPush != {} ==> r[0].op == Push)
      && (toPull != {} ==> r[|r| - 1].op == Pull)
  {
  }

  /** `_make_db_requests`: the loop over the two operations. */
  method MakeDbRequests(toPush: set<int>, toPull: set<int>, importId: int, citizenId: int)
    returns (r: seq<UpdateMany>)
    ensures r == DbRequests(toPush, toPull, importId, citizenId)
  {
    var operations := [PushOperation, PullOperation];
    var relatives := [toPush, toPull];
    var requests: seq<UpdateMany> := [];
    for k := 0 to 2
      invariant requests ==
        (if k >= 1 && toPush != {} then [UpdateMany(importId, Push, citizenId, toPush)] else [])
        + (if k >= 2 && toPull != {} then [UpdateMany(importId, Pull, citizenId, toPull)] else [])
    {
      if relatives[k] != {} {
        var request := MakeUpdateRequest(operations[k], importId, citizenId, relatives[k]);
        requests := requests + [request.value];
      }
    }
    return requests;
  }

  // ---------------------------------------------------------------- the effect of a request

  /** One citizen after the request: the filter `element.citizen_id $in targets` picks it or not. */
  function UpdatedCitizen(c: Citizen, req: UpdateMany): Citizen {
    if c.citizenId !in req.targets then c
    else match req.op
      case Push => c.(relatives := c.relatives + [req.citizenId])
      case Pull => c.(relatives := Removed(c.relatives, req.citizenId))
  }

  function UpdatedImport(cs: seq<Citizen>, req: UpdateMany): (r: seq<Citizen>)
    ensures |r| == |cs| && forall i :: 0 <= i < |cs| ==> r[i] == UpdatedCitizen(cs[i], req)
  {
    seq(|cs|, i requires 0 <= i < |cs| => UpdatedCitizen(cs[i], req))
  }

  /** The collection after one request. */
  function Applied(db: Imports, req: UpdateMany): (r: Imports)
    ensures |r| == |db|
    ensures forall k :: 0 <= k < |db| && k != req.importId ==> r[k] == db[k]
  {
    if 0 <= req.importId < |db| then db[req.importId := UpdatedImport(db[req.importId], req)] else db
  }

  /** The `modified_count` of one request: 1 when the import document changed. */
  function Modified(db: Imports, req: UpdateMany): (r: nat)
    ensures r <= 1
    ensures r == 1 <==> Applied(db, req) != db
  {
    if 0 <= req.importId < |db| && UpdatedImport(db[req.importId], req) != db[req.importId] then 1 else 0
  }

  /** One request on the collection: the number of documents it modified, and the new state. */
  function Apply(db: Imports, req: UpdateMany): (nat, Imports) {
    (Modified(db, req), Applied(db, req))
  }

  /** The collection after the requests, in order. */
  function BulkApplied(db: Imports, reqs: seq<UpdateMany>): (r: Imports)
    ensures |r| == |db|
  {
    if reqs == [] then db else Applied(BulkApplied(db, reqs[..|reqs| - 1]), reqs[|reqs| - 1])
  }

  /** The summed `modified_count` of the requests. */
  function BulkModified(db: Imports, reqs: seq<UpdateMany>): (r: nat)
    ensures r <= |reqs|
  {
    if reqs == [] then 0
    else BulkModified(db, reqs[..|reqs| - 1]) + Modified(BulkApplied(db, reqs[..|reqs| - 1]), reqs[|reqs| - 1])
  }

  /** `bulk_write` of the requests in order: the summed `modified_count`, and the new state. */
  function BulkWrite(db: Imports, reqs: seq<UpdateMany>): (nat, Imports) {
    (BulkModified(db, reqs), BulkApplied(db, reqs))
  }

  /** `_write_relatives_update`: the write happens; the count is checked after it. */
  function WriteRelativesUpdateSpec(db: Imports, reqs: seq<UpdateMany>): (Outcome<Error>, Imports) {
    if reqs == [] then (Pass, db)
    else
      var (n, db') := BulkWrite(db, reqs);
      (if n != |reqs| then Fail(PyMongoError(ImportNotFound)) else Pass, db')
  }

  // ---------------------------------------------------------------- queries

  /** `_get_relatives`: the set of relatives of the first citizen with the id in the import. */
  function GetRelatives(db: Imports, citizenId: int, importId: int): (r: Result<set<int>, Error>)
    ensures r.Success? <==> 0 <= importId < |db| && citizenId in IdSet(db[importId])
    ensures r.Failure? ==> r.error == PyMongoError(ImportOrCitizenNotFound)
    ensures r.Success? ==> exists i :: 0 <= i < |db[importId]| && FindCitizen(db[importId], citizenId) == Some(i)
                                      && r.value == SetOf(db[importId][i].relatives)
  {
    if 0 <= importId < |db| then
      match FindCitizen(db[importId], citizenId)
      case Some(i) => Success(SetOf(db[importId][i].relatives))
      case None => Failure(PyMongoError(ImportOrCitizenNotFound))
    else Failure(PyMongoError(ImportOrCitizenNotFound))
  }

  /** `_check_all_citizens_exist`: a count of import documents holding every id (`$all`). */
  function CheckAllCitizensExist(db: Imports, citizenIds: set<int>, importId: int): (r: Outcome<Error>)
    ensures r.Pass? <==> citizenIds == {} || (0 <= importId < |db| && citizenIds <= IdSet(db[importId]))
    ensures r.Fail? ==> r.error == PyMongoError(CitizensNotFound)
  {
    if citizenIds == {} then Pass
    else if 0 <= importId < |db| && forall x :: x in citizenIds ==> exists i :: 0 <= i < |db[importId]| && db[importId][i].citizenId == x
    then Pass
    else Fail(PyMongoError(CitizensNotFound))
  }

  /** `update_relatives` on the value of the collection. */
  function UpdateRelativesSpec(db: Imports, citizenId: int, importId: int, relatives: Option<seq<int>>): (r: (Outcome<Error>, Imports))
    ensures relatives.None? ==> r == (Pass, db)
    ensures |r.1| == |db|
  {
    if relatives.None? then (Pass, db)
    else match GetRelatives(db, citizenId, importId)
      case Failure(e) => (Fail(e), db)
      case Success(oldRelatives) =>
        var (toPush, toPull) := RelativesDifference(oldRelatives, relatives.value);
        var exist := CheckAllCitizensExist(db, toPush, importId);
        if exist.Fail? then (exist, db)
        else WriteRelativesUpdateSpec(db, DbRequests(toPush, toPull, importId, citizenId))
  }

  // ---------------------------------------------------------------- in place

  /** One request on one import's citizen array; the count is 1 when the document changed. */
  method ApplyInPlace(a: array<Citizen>, req: UpdateMany) returns (modified: nat)
    modifies a
    ensures a[..] == UpdatedImport(old(a[..]), req)
    ensures modified == if a[..] != old(a[..]) then 1 else 0
  {
    var changed := false;
    for i := 0 to a.Length
      invariant forall j :: 0 <= j < i ==> a[j] == UpdatedCitizen(old(a[j]), req)
      invariant forall j :: i <= j < a.Length ==> a[j] == old(a[j])
      invariant changed <==> exists j :: 0 <= j < i && a[j] != old(a[j])
    {
      var c := a[i];
      if c.citizenId in req.targets {
        match req.op
        case Push => a[i] := c.(relatives := c.relatives + [req.citizenId]);
        case Pull => a[i] := c.(relatives := Removed(c.relatives, req.citizenId));
      }
      changed := changed || a[i] != c;
    }
    modified := if changed then 1 else 0;
    if changed {
      ghost var j :| 0 <= j < a.Length && a[j] != old(a[j]);
      assert a[..][j] != old(a[..])[j];
    }
  }

  method ApplyRequest(db: ImportsCollection, req: UpdateMany) returns (modified: nat)
    requires db.Valid()
    modifies db.Arrays()
    ensures (modified, db.Contents()) == Apply(old(db.Contents()), req)
  {
    if 0 <= req.importId < |db.docs| {
      var a := db.docs[req.importId];
      assert forall k :: 0 <= k < |db.docs| && k != req.importId ==> db.docs[k] != a;
      modified := ApplyInPlace(a, req);
      assert db.Contents() == old(db.Contents())[req.importId := a[..]];
    } else {
      modified := 0;
    }
  }

  /** `_write_relatives_update` on the collection. */
  method WriteRelativesUpdate(db: ImportsCollection, reqs: seq<UpdateMany>) returns (r: Outcome<Error>)
    requires db.Valid()
    modifies db.Arrays()
    ensures (r, db.Contents()) == WriteRelativesUpdateSpec(old(db.Contents()), reqs)
  {
    if reqs == [] {
      return Pass;
    }
    var modifiedCount := 0;
    for i := 0 to |reqs|
      invariant (modifiedCount, db.Contents()) == BulkWrite(old(db.Contents()), reqs[..i])
    {
      assert reqs[..i + 1][..i] == reqs[..i];
      var m := ApplyRequest(db, reqs[i]);
      modifiedCount := modifiedCount + m;
    }
    assert reqs[..|reqs|] == reqs;
    r := if modifiedCount != |reqs| then Fail(PyMongoError(ImportNotFound)) else Pass;
  }

  /** `update_relatives` on the collection. */
  method UpdateRelatives(db: ImportsCollection, citizenId: int, importId: int, relatives: Option<seq<int>>)
    returns (r: Outcome<Error>)
    requires db.Valid()
    modifies db.Arrays()
    ensures (r, db.Contents()) == UpdateRelativesSpec(old(db.Contents()), citizenId, importId, relatives)
  {
    if relatives.None? {
      return Pass;
    }
    var current := GetRelatives(db.Contents(), citizenId, importId);
    if current.Failure? {
      return Fail(current.error);
    }
    var (toPush, toPull) := RelativesDifference(current.value, relatives.value);
    r := CheckAllCitizensExist(db.Contents(), toPush, importId);
    if r.Fail? {
      return;
    }
    var requests := MakeDbRequests(toPush, toPull, importId, citizenId);
    r := WriteRelativesUpdate(db, requests);
  }

  // ---------------------------------------------------------------- what the update does

  /** A citizen after the push of `citizenId` onto `toPush` and the pull from `toPull`. */
  function RelinkedCitizen(c: Citizen, citizenId: int, toPush: set<int>, toPull: set<int>): Citizen {
    if c.citizenId in toPush then c.(relatives := c.relatives + [citizenId])
    else if c.citizenId in toPull then c.(relatives := Removed(c.relatives, citizenId))
    else c
  }

  function Relinked(cs: seq<Citizen>, citizenId: int, toPush: set<int>, toPull: set<int>): (r: seq<Citizen>)
    ensures |r| == |cs| && forall i :: 0 <= i < |cs| ==> r[i] == RelinkedCitizen(cs[i], citizenId, toPush, toPull)
  {
    seq(|cs|, i requires 0 <= i < |cs| => RelinkedCitizen(cs[i], citizenId, toPush, toPull))
  }

  /** `$pull` changes a list exactly when the value occurs in it. */
  lemma {:induction false} RemovedChanges(s: seq<int>, x: int)
    ensures Removed(s, x) == s <==> x !in s
  {
    if s != [] {
      RemovedChanges(s[1..], x);
    }
  }

  /** A request on an existing import replaces that import's document. */
  lemma AppliedAt(db: Imports, req: UpdateMany)
    requires 0 <= req.importId < |db|
    ensures Applied(db, req) == db[req.importId := UpdatedImport(db[req.importId], req)]
  {
  }

  lemma UpdateTwice<T>(s: seq<T>, i: nat, a: T, b: T)
    requires i < |s|
    ensures s[i := a][i := b] == s[i := b]
    ensures s[i := a][i] == a
  {
  }

  lemma BulkWriteSingle(db: Imports, a: UpdateMany)
    ensures BulkApplied(db, [a]) == Applied(db, a)
    ensures BulkModified(db, [a]) == Modified(db, a)
  {
    assert [a][..0] == [];
  }

  lemma BulkWritePair(db: Imports, a: UpdateMany, b: UpdateMany)
    ensures BulkApplied(db, [a, b]) == Applied(Applied(db, a), b)
    ensures BulkModified(db, [a, b]) == Modified(db, a) + Modified(Applied(db, a), b)
  {
    assert [a, b][..1] == [a];
    BulkWriteSingle(db, a);
  }

  /** A push followed by a pull on disjoint sets is one relinking step per citizen. */
  lemma PushThenPull(cs: seq<Citizen>, push: UpdateMany, pull: UpdateMany)
    requires push.op == Push && pull.op == Pull && push.citizenId == pull.citizenId
    requires push.targets !! pull.targets
    ensures UpdatedImport(UpdatedImport(cs, push), pull) == Relinked(cs, push.citizenId, push.targets, pull.targets)
  {
  }

  /** A push alone is a relinking step with nothing pulled. */
  lemma PushAlone(cs: seq<Citizen>, push: UpdateMany)
    requires push.op == Push
    ensures UpdatedImport(cs, push) == Relinked(cs, push.citizenId, push.targets, {})
  {
  }

  /** A pull alone is a relinking step with nothing pushed. */
  lemma PullAlone(cs: seq<Citizen>, pull: UpdateMany)
    requires pull.op == Pull
    ensures UpdatedImport(cs, pull) == Relinked(cs, pull.citizenId, {}, pull.targets)
  {
  }

  lemma RelinkPushOnly(db: Imports, toPush: set<int>, importId: int, citizenId: int)
    requires 0 <= importId < |db|
    ensures BulkApplied(db, [UpdateMany(importId, Push, citizenId, toPush)])
      == db[importId := Relinked(db[importId], citizenId, toPush, {})]
  {
    var push := UpdateMany(importId, Push, citizenId, toPush);
    BulkWriteSingle(db, push);
    PushAlone(db[importId], push);
  }

  lemma RelinkPullOnly(db: Imports, toPull: set<int>, importId: int, citizenId: int)
    requires 0 <= importId < |db|
    ensures BulkApplied(db, [UpdateMany(importId, Pull, citizenId, toPull)])
      == db[importId := Relinked(db[importId], citizenId, {}, toPull)]
  {
    var pull := UpdateMany(importId, Pull, citizenId, toPull);
    BulkWriteSingle(db, pull);
    PullAlone(db[importId], pull);
  }

  lemma RelinkPushPull(db: Imports, toPush: set<int>, toPull: set<int>, importId: int, citizenId: int)
    requires toPush !! toPull && 0 <= importId < |db|
    ensures BulkApplied(db, [UpdateMany(importId, Push, citizenId, toPush), UpdateMany(importId, Pull, citizenId, toPull)])
      == db[importId := Relinked(db[importId], citizenId, toPush, toPull)]
  {
    var push := UpdateMany(importId, Push, citizenId, toPush);
    var pull := UpdateMany(importId, Pull, citizenId, toPull);
    BulkWritePair(db, push, pull);
    var pushed := UpdatedImport(db[importId], push);
    AppliedAt(db, push);
    AppliedAt(db[importId := pushed], pull);
    UpdateTwice(db, importId, pushed, UpdatedImport(pushed, pull));
    PushThenPull(db[importId], push, pull);
  }

  /** The requests built from disjoint sets relink the import's citizens and touch no other import. */
  lemma RelinkEffect(db: Imports, toPush: set<int>, toPull: set<int>, importId: int, citizenId: int)
    requires toPush !! toPull && 0 <= importId < |db|
    ensures BulkApplied(db, DbRequests(toPush, toPull, importId, citizenId))
      == db[importId := Relinked(db[importId], citizenId, toPush, toPull)]
  {
    var reqs := DbRequests(toPush, toPull, importId, citizenId);
    if toPush == {} && toPull == {} {
      assert reqs == [];
      assert Relinked(db[importId], citizenId, toPush, toPull) == db[importId];
    } else if toPull == {} {
      RelinkPushOnly(db, toPush, importId, citizenId);
    } else if toPush == {} {
      RelinkPullOnly(db, toPull, importId, citizenId);
    } else {
      RelinkPushPull(db, toPush, toPull, importId, citizenId);
    }
  }

  /** A push changes the import exactly when some citizen is among its targets. */
  lemma PushChanges(cs: seq<Citizen>, push: UpdateMany)
    requires push.op == Push
    ensures UpdatedImport(cs, push) != cs <==> exists i :: 0 <= i < |cs| && cs[i].citizenId in push.targets
  {
    var pushed := UpdatedImport(cs, push);
    if exists i :: 0 <= i < |cs| && cs[i].citizenId in push.targets {
      var i :| 0 <= i < |cs| && cs[i].citizenId in push.targets;
      assert |pushed[i].relatives| == |cs[i].relatives| + 1;
    } else {
      assert pushed == cs;
    }
  }

  /** A pull changes the import exactly when some target lists the pulled id. */
  lemma PullChanges(cs: seq<Citizen>, pull: UpdateMany)
    requires pull.op == Pull
    ensures UpdatedImport(cs, pull) != cs <==>
      exists i :: 0 <= i < |cs| && cs[i].citizenId in pull.targets && pull.citizenId in cs[i].relatives
  {
    var pulled := UpdatedImport(cs, pull);
    if exists i :: 0 <= i < |cs| && cs[i].citizenId in pull.targets && pull.citizenId in cs[i].relatives {
      var i :| 0 <= i < |cs| && cs[i].citizenId in pull.targets && pull.citizenId in cs[i].relatives;
      RemovedChanges(cs[i].relatives, pull.citizenId);
      assert pulled[i] != cs[i];
    } else {
      forall i | 0 <= i < |cs| ensures pulled[i] == cs[i] {
        if cs[i].citizenId in pull.targets {
          RemovedChanges(cs[i].relatives, pull.citizenId);
        }
      }
      assert pulled == cs;
    }
  }

  lemma RelinkCountPushPull(db: Imports, toPush: set<int>, toPull: set<int>, importId: int, citizenId: int)
    requires toPush !! toPull && 0 <= importId < |db|
    ensures var reqs := [UpdateMany(importId, Push, citizenId, toPush), UpdateMany(importId, Pull, citizenId, toPull)];
      BulkWrite(db, reqs).0 == 2 <==>
        && (exists i :: 0 <= i < |db[importId]| && db[importId][i].citizenId in toPush)
        && (exists i :: 0 <= i < |db[importId]| && db[importId][i].citizenId in toPull && citizenId in db[importId][i].relatives)
  {
    var cs := db[importId];
    var push := UpdateMany(importId, Push, citizenId, toPush);
    var pull := UpdateMany(importId, Pull, citizenId, toPull);
    BulkWritePair(db, push, pull);
    PushChanges(cs, push);
    var pushed := UpdatedImport(cs, push);
    PullChanges(pushed, pull);
    assert Applied(db, push) == db[importId := pushed];
    assert db[importId := pushed][importId] == pushed;
    assert forall i :: 0 <= i < |cs| && cs[i].citizenId in toPull ==> pushed[i] == cs[i];
  }

  /** Each request modifies the import document exactly when some citizen's relatives change. */
  lemma RelinkCount(db: Imports, toPush: set<int>, toPull: set<int>, importId: int, citizenId: int)
    requires toPush !! toPull && 0 <= importId < |db|
    ensures var reqs := DbRequests(toPush, toPull, importId, citizenId);
      BulkWrite(db, reqs).0 == |reqs| <==>
        && (toPush != {} ==> exists i :: 0 <= i < |db[importId]| && db[importId][i].citizenId in toPush)
        && (toPull != {} ==> exists i :: 0 <= i < |db[importId]| && db[importId][i].citizenId in toPull
                                        && citizenId in db[importId][i].relatives)
  {
    var cs := db[importId];
    var push := UpdateMany(importId, Push, citizenId, toPush);
    var pull := UpdateMany(importId, Pull, citizenId, toPull);
    var reqs := DbRequests(toPush, toPull, importId, citizenId);
    if toPush == {} && toPull == {} {
      assert reqs == [];
    } else if toPull == {} {
      assert reqs == [push];
      BulkWriteSingle(db, push);
      PushChanges(cs, push);
    } else if toPush == {} {
      assert reqs == [pull];
      BulkWriteSingle(db, pull);
      PullChanges(cs, pull);
    } else {
      assert reqs == [push, pull];
      RelinkCountPushPull(db, toPush, toPull, importId, citizenId);
    }
  }

  // ---------------------------------------------------------------- update_relatives, end to end

  /** A patch carrying an id unknown to the import fails the existence check before any write. */
  lemma UnknownRelativeRejected(db: Imports, citizenId: int, importId: int, relatives: seq<int>, x: int)
    requires GetRelatives(db, citizenId, importId).Success?
    requires x in relatives && x !in GetRelatives(db, citizenId, importId).value
    requires 0 <= importId < |db| && x !in IdSet(db[importId])
    ensures UpdateRelativesSpec(db, citizenId, importId, Some(relatives)) == (Fail(PyMongoError(CitizensNotFound)), db)
  {
    var (toPush, toPull) := RelativesDifference(GetRelatives(db, citizenId, importId).value, relatives);
    assert x in toPush;
  }

  /**
   * On a well-formed import, `update_relatives` for an existing citizen fails
   * only when a new relative is unknown, and then writes nothing; otherwise it
   * relinks exactly the citizens on either side of the difference.
   */
  lemma UpdateRelativesOnWellFormed(db: Imports, citizenId: int, importId: int, p: nat, relatives: seq<int>)
    requires 0 <= importId < |db| && WellFormed(db[importId])
    requires p < |db[importId]| && db[importId][p].citizenId == citizenId
    ensures var r := UpdateRelativesSpec(db, citizenId, importId, Some(relatives));
      var oldRelatives := SetOf(db[importId][p].relatives);
      && (r.0.Pass? <==> SetOf(relatives) <= IdSet(db[importId]))
      && (r.0.Fail? ==> r == (Fail(PyMongoError(CitizensNotFound)), db))
      && (r.0.Pass? ==> r.1 == db[importId := Relinked(db[importId], citizenId,
                                 SetOf(relatives) - oldRelatives, oldRelatives - SetOf(relatives))])
  {
    var cs := db[importId];
    FindUnique(cs, p);
    var oldRelatives := SetOf(cs[p].relatives);
    assert GetRelatives(db, citizenId, importId) == Success(oldRelatives);
    var (toPush, toPull) := RelativesDifference(oldRelatives, relatives);
    assert oldRelatives <= IdSet(cs) by {
      assert RelativesOk(cs, p);
      forall x | x in oldRelatives ensures x in IdSet(cs) {
        assert x in cs[p].relatives;
      }
    }
    assert CheckAllCitizensExist(db, toPush, importId).Pass? <==> SetOf(relatives) <= IdSet(cs);
    if SetOf(relatives) <= IdSet(cs) {
      RelinkEffect(db, toPush, toPull, importId, citizenId);
      RelinkCount(db, toPush, toPull, importId, citizenId);
      if toPush != {} {
        var x :| x in toPush;
        var i :| 0 <= i < |cs| && cs[i].citizenId == x;
      }
      if toPull != {} {
        var x :| x in toPull;
        var i :| 0 <= i < |cs| && cs[i].citizenId == x;
        assert cs[i].citizenId in cs[p].relatives;
        assert citizenId in cs[i].relatives;
      }
    }
  }

  /** Relinking leaves every id in place and changes no field but `relatives`. */
  lemma RelinkFrame(cs: seq<Citizen>, citizenId: int, toPush: set<int>, toPull: set<int>)
    ensures var r := Relinked(cs, citizenId, toPush, toPull);
      && Ids(r) == Ids(cs)
      && (forall i :: 0 <= i < |cs| ==> r[i] == cs[i].(relatives := r[i].relatives))
      && (forall i :: 0 <= i < |cs| && cs[i].citizenId !in toPush + toPull ==> r[i] == cs[i])
  {
  }

  /** After relinking, `relatives` of every citizen other than the patched one differ only in `citizenId`. */
  lemma RelinkedRelatives(cs: seq<Citizen>, p: nat, relatives: seq<int>, j: nat)
    requires WellFormed(cs) && p < |cs| && j < |cs| && j != p
    requires SetOf(relatives) <= IdSet(cs)
    ensures var oldRelatives := SetOf(cs[p].relatives);
      var c := RelinkedCitizen(cs[j], cs[p].citizenId, SetOf(relatives) - oldRelatives, oldRelatives - SetOf(relatives));
      && (forall y :: y != cs[p].citizenId ==> (y in c.relatives <==> y in cs[j].relatives))
      && (cs[p].citizenId in c.relatives <==> cs[j].citizenId in relatives)
      && Distinct(c.relatives) && c.citizenId == cs[j].citizenId && c.citizenId !in c.relatives
      && (forall y :: y in c.relatives ==> y in IdSet(cs))
  {
    var cid := cs[p].citizenId;
    var oldRelatives := SetOf(cs[p].relatives);
    assert cid in cs[j].relatives <==> cs[j].citizenId in oldRelatives;
    assert RelativesOk(cs, j);
    assert cid != cs[j].citizenId;
    if cs[j].citizenId in SetOf(relatives) - oldRelatives {
      var s := cs[j].relatives;
      assert cid !in s;
      assert Distinct(s + [cid]) by {
        forall a, b | 0 <= a < b < |s| + 1 ensures (s + [cid])[a] != (s + [cid])[b] {
          if b == |s| { assert (s + [cid])[a] == s[a]; }
        }
      }
      assert cid in IdSet(cs) by { assert cs[p].citizenId == cid; }
    }
  }

  /** Relinking and then replacing the patched citizen by one with the same id keeps every id in place. */
  lemma RelinkedPatchedIds(cs: seq<Citizen>, citizenId: int, toPush: set<int>, toPull: set<int>, p: nat, patched: Citizen)
    requires p < |cs| && patched.citizenId == cs[p].citizenId
    ensures var r := Relinked(cs, citizenId, toPush, toPull)[p := patched];
      && (forall i :: 0 <= i < |cs| ==> r[i].citizenId == cs[i].citizenId)
      && IdSet(r) == IdSet(cs)
  {
    var r := Relinked(cs, citizenId, toPush, toPull)[p := patched];
    forall x ensures x in IdSet(r) <==> x in IdSet(cs) {
      if x in IdSet(cs) {
        var i :| 0 <= i < |cs| && cs[i].citizenId == x;
        assert r[i].citizenId == x;
      }
      if x in IdSet(r) {
        var i :| 0 <= i < |r| && r[i].citizenId == x;
        assert cs[i].citizenId == x;
      }
    }
  }

  /**
   * Symmetry is restored when the patched citizen `p` gets `relatives`, every
   * other citizen lists `cid` exactly when it is in `relatives`, and no
   * other relation changes.
   */
  lemma SymmetricAfterRelink(cs: seq<Citizen>, r: seq<Citizen>, p: nat, relatives: seq<int>)
    requires WellFormed(cs) && p < |cs| && |r| == |cs| && r[p].relatives == relatives
    requires forall i :: 0 <= i < |cs| ==> r[i].citizenId == cs[i].citizenId
    requires forall j, y :: 0 <= j < |r| && j != p && y != cs[p].citizenId ==> (y in r[j].relatives <==> y in cs[j].relatives)
    requires forall j :: 0 <= j < |r| && j != p ==> (cs[p].citizenId in r[j].relatives <==> cs[j].citizenId in relatives)
    ensures Symmetric(r)
  {
    var cid := cs[p].citizenId;
    forall i, j | 0 <= i < |r| && 0 <= j < |r|
      ensures r[j].citizenId in r[i].relatives <==> r[i].citizenId in r[j].relatives
    {
      if i != p && j != p {
        assert cs[i].citizenId != cid && cs[j].citizenId != cid by {
          assert UniqueIds(cs);
        }
        assert r[j].citizenId in r[i].relatives <==> cs[j].citizenId in cs[i].relatives;
        assert r[i].citizenId in r[j].relatives <==> cs[i].citizenId in cs[j].relatives;
      }
    }
  }

  /**
   * The symmetry theorem: relinking a well-formed import for a validated
   * relatives list, then setting that list on the patched citizen, gives a
   * well-formed import again.
   */
  lemma RelinkKeepsWellFormed(cs: seq<Citizen>, p: nat, relatives: seq<int>, patched: Citizen)
    requires WellFormed(cs) && p < |cs|
    requires Distinct(relatives) && cs[p].citizenId !in relatives && SetOf(relatives) <= IdSet(cs)
    requires patched.citizenId == cs[p].citizenId && patched.relatives == relatives
    ensures var oldRelatives := SetOf(cs[p].relatives);
      WellFormed(Relinked(cs, cs[p].citizenId, SetOf(relatives) - oldRelatives, oldRelatives - SetOf(relatives))[p := patched])
  {
    var cid := cs[p].citizenId;
    var oldRelatives := SetOf(cs[p].relatives);
    var toPush, toPull := SetOf(relatives) - oldRelatives, oldRelatives - SetOf(relatives);
    var r := Relinked(cs, cid, toPush, toPull)[p := patched];
    RelinkedPatchedIds(cs, cid, toPush, toPull, p, patched);
    assert UniqueIds(r) by {
      assert UniqueIds(cs);
    }
    forall j | 0 <= j < |r| && j != p
      ensures forall y :: y != cid ==> (y in r[j].relatives <==> y in cs[j].relatives)
      ensures cid in r[j].relatives <==> cs[j].citizenId in relatives
      ensures RelativesOk(r, j)
    {
      RelinkedRelatives(cs, p, relatives, j);
    }
    assert RelativesOk(r, p) by {
      forall y | y in relatives ensures y in IdSet(cs) {
        assert y in SetOf(relatives);
      }
    }
    SymmetricAfterRelink(cs, r, p, relatives);
  }
}
