/**
 * PATCH of one citizen: the birth date is parsed, then, in one transaction,
 * the relatives of the citizen's old and new relatives are relinked and the
 * patched fields are `$set` on the citizen. Any failure inside the
 * transaction aborts it.
 */
module PatchCitizenHandler {
  import opened Wrappers
  import opened Errors
  import opened Dates
  import opened Sequences
  import opened Citizens
  import opened Store
  import opened UpdateRelatives
  import opened DataValidator
  import opened Shared

  /** `_parse_birth_date`: a present birth date is replaced by the date it denotes. */
  function ParseBirthDate(patch: PatchOf<string>): (r: Result<CitizenPatch, Error>)
    ensures patch.birthDate.None? ==> r.Success? && r.value.birthDate.None?
    ensures patch.birthDate.Some? ==>
      match ParseDate(patch.birthDate.value)
      case Success(d) => r.Success? && r.value.birthDate == Some(d)
      case Failure(e) => r == Failure(e)
    ensures r.Success? ==>
      && r.value.town == patch.town && r.value.street == patch.street
      && r.value.building == patch.building && r.value.apartment == patch.apartment
      && r.value.name == patch.name && r.value.gender == patch.gender
      && r.value.relatives == patch.relatives
  {
    var birthDate :- match patch.birthDate
      case None => Success(None)
      case Some(text) =>
        var d :- ParseDate(text);
        Success(Some(d));
    Success(Patch(patch.town, patch.street, patch.building, patch.apartment, patch.name,
                  birthDate, patch.gender, patch.relatives))
  }

  lemma ParseBirthDateExamples()
    ensures ParseBirthDate(Patch(None, None, None, None, None, Some("31.12.2019"), None, None))
      == Success(Patch(None, None, None, None, None, Some(Date(2019, 12, 31)), None, None))
    ensures ParseBirthDate(Patch(None, None, None, None, None, Some("35.02.1998"), None, None)).Failure?
    ensures ParseBirthDate(Patch(None, None, None, None, None, Some("12.14.2019"), None, None)).Failure?
  {
    ParseExample();
    DayOutOfRangeRejected();
    MonthOutOfRangeRejected();
  }

  /**
   * `_write_citizen_update` on the value of the collection: `$set` on the first
   * citizen with the id (the positional `$`), then that citizen as stored.
   */
  function WriteCitizenUpdateSpec(db: Imports, citizenId: int, importId: int, patch: CitizenPatch): (Result<Citizen, Error>, Imports) {
    if 0 <= importId < |db| then
      match FindCitizen(db[importId], citizenId)
      case Some(i) =>
        var c := SetFields(db[importId][i], patch);
        (Success(c), db[importId := db[importId][i := c]])
      case None => (Failure(PyMongoError(ImportOrCitizenNotFound)), db)
    else (Failure(PyMongoError(ImportOrCitizenNotFound)), db)
  }

  /**
   * The citizen write fails exactly when the import or the citizen is absent,
   * and then changes nothing; otherwise it changes only the first citizen with
   * the id, sets exactly the patched fields on it, and returns it as stored.
   */
  lemma WriteCitizenUpdateCorrect(db: Imports, citizenId: int, importId: int, patch: CitizenPatch)
    ensures var (r, db') := WriteCitizenUpdateSpec(db, citizenId, importId, patch);
      && |db'| == |db|
      && (r.Success? <==> 0 <= importId < |db| && citizenId in IdSet(db[importId]))
      && (r.Failure? ==> r.error == PyMongoError(ImportOrCitizenNotFound) && db' == db)
      && (forall k :: 0 <= k < |db| && k != importId ==> db'[k] == db[k])
      && (r.Success? ==> exists i ::
            && 0 <= i < |db[importId]| && FindCitizen(db[importId], citizenId) == Some(i)
            && |db'[importId]| == |db[importId]|
            && (forall j :: 0 <= j < |db[importId]| && j != i ==> db'[importId][j] == db[importId][j])
            && r.value == db'[importId][i]
            && FindCitizen(db'[importId], citizenId) == Some(i)
            && r.value.citizenId == citizenId
            && r.value == SetFields(db[importId][i], patch))
  {
    if 0 <= importId < |db| && citizenId in IdSet(db[importId]) {
      var i := FindCitizen(db[importId], citizenId).value;
      var cs' := db[importId][i := SetFields(db[importId][i], patch)];
      assert forall k :: 0 <= k < i ==> cs'[k] == db[importId][k];
      FindPrefix(cs', citizenId, i);
    }
  }

  /** The first citizen with an id is found again after the citizens before it are left alone. */
  lemma FindPrefix(cs: seq<Citizen>, citizenId: int, i: nat)
    requires i < |cs| && cs[i].citizenId == citizenId
    requires forall k :: 0 <= k < i ==> cs[k].citizenId != citizenId
    ensures FindCitizen(cs, citizenId) == Some(i)
  {
    var r := FindCitizen(cs, citizenId);
    assert citizenId in IdSet(cs);
  }

  method WriteCitizenUpdate(db: ImportsCollection, citizenId: int, importId: int, patch: CitizenPatch)
    returns (r: Result<Citizen, Error>)
    requires db.Valid()
    modifies db.Arrays()
    ensures (r, db.Contents()) == WriteCitizenUpdateSpec(old(db.Contents()), citizenId, importId, patch)
  {
    if !(0 <= importId < |db.docs|) {
      return Failure(PyMongoError(ImportOrCitizenNotFound));
    }
    var a := db.docs[importId];
    var found := FindCitizen(a[..], citizenId);
    if found.None? {
      return Failure(PyMongoError(ImportOrCitizenNotFound));
    }
    var i := found.value;
    assert forall k :: 0 <= k < |db.docs| && k != importId ==> db.docs[k] != a;
    a[i] := SetFields(a[i], patch);
    assert db.Contents() == old(db.Contents())[importId := old(a[..])[i := a[i]]];
    r := Success(a[i]);
  }

  /** `_get_citizen_data`: the citizen with its birth date formatted `DD.MM.YYYY`. */
  function GetCitizenData(c: Citizen): (r: CitizenOf<string>)
    ensures r == WithBirthDate(c, r.birthDate) && SetOf(r.relatives) == SetOf(c.relatives)
    ensures ValidDate(c.birthDate) ==> ParseDate(r.birthDate) == Success(c.birthDate)
  {
    assert ValidDate(c.birthDate) ==> ParseDate(FormatDate(c.birthDate)) == Success(c.birthDate) by {
      if ValidDate(c.birthDate) { FormatThenParse(c.birthDate); }
    }
    WithBirthDate(c, FormatDate(c.birthDate))
  }

  lemma GetCitizenDataExample(c: Citizen)
    requires c.birthDate == Date(2019, 12, 31)
    ensures GetCitizenData(c).birthDate == "31.12.2019"
    ensures GetCitizenData(c).citizenId == c.citizenId
  {
    FormatExample();
  }

  /** The transaction of `patch_citizen` on the value of the collection; a failure inside it keeps the old state. */
  function TransactionSpec(db: Imports, importId: int, citizenId: int, patch: CitizenPatch): (r: (Result<Citizen, Error>, Imports))
    ensures r.0.Failure? ==> r.1 == db
    ensures |r.1| == |db|
  {
    var (u, db1) := UpdateRelativesSpec(db, citizenId, importId, patch.relatives);
    if u.Fail? then (Failure(u.error), db)
    else
      var (w, db2) := WriteCitizenUpdateSpec(db1, citizenId, importId, patch);
      WriteCitizenUpdateCorrect(db1, citizenId, importId, patch);
      if w.Failure? then (w, db) else (w, db2)
  }

  /** `patch_citizen` on the value of the collection. */
  function PatchSpec(db: Imports, importId: int, citizenId: int, raw: PatchOf<string>): (r: (Result<(CitizenOf<string>, int), Error>, Imports))
    ensures r.0.Failure? ==> r.1 == db
    ensures r.0.Success? ==> r.0.value.1 == Created
    ensures |r.1| == |db|
  {
    match ParseBirthDate(raw)
    case Failure(e) => (Failure(e), db)
    case Success(patch) =>
      var (t, db') := TransactionSpec(db, importId, citizenId, patch);
      if t.Failure? then (Failure(t.error), db')
      else (Success((GetCitizenData(t.value), Created)), db')
  }

  /** `update_relatives` changes at most the import it was given, and keeps its length. */
  lemma UpdateRelativesTouchesOneImport(db: Imports, citizenId: int, importId: int, relatives: Option<seq<int>>)
    ensures var db' := UpdateRelativesSpec(db, citizenId, importId, relatives).1;
      0 <= importId < |db| ==> db' == db[importId := db'[importId]] && |db'[importId]| == |db[importId]|
    ensures !(0 <= importId < |db|) ==> UpdateRelativesSpec(db, citizenId, importId, relatives).1 == db
  {
    if relatives.Some? {
      match GetRelatives(db, citizenId, importId)
      case Failure(_) =>
      case Success(oldRelatives) =>
        var (toPush, toPull) := RelativesDifference(oldRelatives, relatives.value);
        RelinkEffect(db, toPush, toPull, importId, citizenId);
    }
  }

  /** The relinking and the citizen write, undone when either fails. */
  method RunTransaction(db: ImportsCollection, importId: int, citizenId: int, patch: CitizenPatch)
    returns (r: Result<Citizen, Error>)
    requires db.Valid()
    modifies db.Arrays()
    ensures (r, db.Contents()) == TransactionSpec(old(db.Contents()), importId, citizenId, patch)
  {
    ghost var before := db.Contents();
    var saved := if 0 <= importId < |db.docs| then db.docs[importId][..] else [];
    UpdateRelativesTouchesOneImport(before, citizenId, importId, patch.relatives);
    var u := UpdateRelatives.UpdateRelatives(db, citizenId, importId, patch.relatives);
    if u.Fail? {
      if 0 <= importId < |db.docs| {
        db.RestoreImport(importId, saved);
        assert db.Contents() == before;
      }
      return Failure(u.error);
    }
    ghost var middle := db.Contents();
    r := WriteCitizenUpdate(db, citizenId, importId, patch);
    WriteCitizenUpdateCorrect(middle, citizenId, importId, patch);
    if r.Failure? && 0 <= importId < |db.docs| {
      db.RestoreImport(importId, saved);
      assert db.Contents() == before;
    }
  }

  /** `patch_citizen`: parse, then the transaction; the response is the stored citizen with status 201. */
  method PatchCitizen(db: ImportsCollection, importId: int, citizenId: int, raw: PatchOf<string>)
    returns (r: Result<(CitizenOf<string>, int), Error>)
    requires db.Valid()
    modifies db.Arrays()
    ensures (r, db.Contents()) == PatchSpec(old(db.Contents()), importId, citizenId, raw)
    ensures r.Failure? ==> db.Contents() == old(db.Contents())
  {
    var parsed := ParseBirthDate(raw);
    if parsed.Failure? {
      return Failure(parsed.error);
    }
    var w := RunTransaction(db, importId, citizenId, parsed.value);
    if w.Failure? {
      return Failure(w.error);
    }
    r := Success((GetCitizenData(w.value), Created));
  }

  // ---------------------------------------------------------------- the relative graph stays well formed

  /** Two imports with the same ids and relatives at every position are equally well formed. */
  lemma WellFormedOnGraph(cs: seq<Citizen>, ds: seq<Citizen>)
    requires |cs| == |ds|
    requires forall i :: 0 <= i < |cs| ==> ds[i].citizenId == cs[i].citizenId && ds[i].relatives == cs[i].relatives
    ensures WellFormed(cs) ==> WellFormed(ds)
  {
    assert IdSet(cs) == IdSet(ds) by {
      forall x ensures x in IdSet(cs) <==> x in IdSet(ds) {
        if x in IdSet(cs) {
          var i :| 0 <= i < |cs| && cs[i].citizenId == x;
          assert ds[i].citizenId == x;
        }
        if x in IdSet(ds) {
          var i :| 0 <= i < |ds| && ds[i].citizenId == x;
          assert cs[i].citizenId == x;
        }
      }
    }
    if WellFormed(cs) {
      forall i | 0 <= i < |ds| ensures RelativesOk(ds, i) {
        assert RelativesOk(cs, i);
      }
    }
  }

  /** A patch without relatives changes no id and no relatives list. */
  lemma PatchWithoutRelativesKeepsWellFormed(db: Imports, importId: int, citizenId: int, patch: CitizenPatch)
    requires 0 <= importId < |db| && WellFormed(db[importId]) && patch.relatives.None?
    ensures WellFormed(WriteCitizenUpdateSpec(db, citizenId, importId, patch).1[importId])
  {
    var written := WriteCitizenUpdateSpec(db, citizenId, importId, patch).1;
    WellFormedOnGraph(db[importId], written[importId]);
  }

  /** A validated relatives list for an existing citizen: relinking, then the `$set`. */
  lemma PatchWithRelativesKeepsWellFormed(db: Imports, importId: int, citizenId: int, patch: CitizenPatch, i: nat)
    requires 0 <= importId < |db| && WellFormed(db[importId])
    requires i < |db[importId]| && db[importId][i].citizenId == citizenId
    requires patch.relatives.Some? && Distinct(patch.relatives.value) && citizenId !in patch.relatives.value
    requires UpdateRelativesSpec(db, citizenId, importId, patch.relatives).0.Pass?
    ensures var db1 := UpdateRelativesSpec(db, citizenId, importId, patch.relatives).1;
      WellFormed(WriteCitizenUpdateSpec(db1, citizenId, importId, patch).1[importId])
  {
    var cs := db[importId];
    var relatives := patch.relatives.value;
    UpdateRelativesOnWellFormed(db, citizenId, importId, i, relatives);
    var oldRelatives := SetOf(cs[i].relatives);
    var relinked := Relinked(cs, citizenId, SetOf(relatives) - oldRelatives, oldRelatives - SetOf(relatives));
    var db1 := db[importId := relinked];
    RelinkFrame(cs, citizenId, SetOf(relatives) - oldRelatives, oldRelatives - SetOf(relatives));
    assert UniqueIds(relinked) by {
      assert forall j :: 0 <= j < |cs| ==> Ids(relinked)[j] == Ids(cs)[j];
    }
    FindUnique(relinked, i);
    assert WriteCitizenUpdateSpec(db1, citizenId, importId, patch).1[importId]
      == relinked[i := SetFields(relinked[i], patch)];
    RelinkKeepsWellFormed(cs, i, relatives, SetFields(relinked[i], patch));
  }

  /**
   * The headline property: a patch that passed `validate_citizen_patch`,
   * applied to a well-formed import, leaves that import well formed, whether
   * it succeeds or fails, and leaves every other import as it was.
   */
  lemma PatchKeepsWellFormed(db: Imports, importId: int, citizenId: int, raw: PatchOf<string>)
    requires 0 <= importId < |db| && WellFormed(db[importId])
    requires ValidateCitizenPatch(citizenId, raw.relatives).Pass?
    ensures var db' := PatchSpec(db, importId, citizenId, raw).1;
      WellFormed(db'[importId]) && forall k :: 0 <= k < |db| && k != importId ==> db'[k] == db[k]
  {
    var r := PatchSpec(db, importId, citizenId, raw);
    if r.0.Success? {
      var patch := ParseBirthDate(raw).value;
      var (u, db1) := UpdateRelativesSpec(db, citizenId, importId, patch.relatives);
      UpdateRelativesTouchesOneImport(db, citizenId, importId, patch.relatives);
      WriteCitizenUpdateCorrect(db1, citizenId, importId, patch);
      assert r.1 == TransactionSpec(db, importId, citizenId, patch).1 == WriteCitizenUpdateSpec(db1, citizenId, importId, patch).1;
      if patch.relatives.None? {
        PatchWithoutRelativesKeepsWellFormed(db, importId, citizenId, patch);
      } else {
        ValidateCitizenPatchCorrect(citizenId, raw.relatives);
        var q := FindCitizen(db[importId], citizenId);
        assert q.Some?;
        PatchWithRelativesKeepsWellFormed(db, importId, citizenId, patch, q.value);
      }
    }
  }

  /** On success the response is the citizen as stored after the update, birth date formatted. */
  lemma PatchReturnsStoredCitizen(db: Imports, importId: int, citizenId: int, raw: PatchOf<string>)
    requires PatchSpec(db, importId, citizenId, raw).0.Success?
    ensures var (r, db') := PatchSpec(db, importId, citizenId, raw);
      && 0 <= importId < |db'|
      && exists i :: 0 <= i < |db'[importId]| && FindCitizen(db'[importId], citizenId) == Some(i)
                     && r.value == (GetCitizenData(db'[importId][i]), Created)
  {
    var patch := ParseBirthDate(raw).value;
    var (u, db1) := UpdateRelativesSpec(db, citizenId, importId, patch.relatives);
    WriteCitizenUpdateCorrect(db1, citizenId, importId, patch);
  }
}
