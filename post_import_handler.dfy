/**
 * `post_import`: parse every birth date, give the import the next id (the
 * number of imports stored) and insert it.
 */
module PostImportHandler {
  import opened Wrappers
  import opened Errors
  import opened Dates
  import opened Citizens
  import opened Store
  import opened Shared

  const NotAcknowledged := "Operation was not acknowledged"

  /** `_parse_birth_date` as a value: the citizens with parsed dates, or the first parse error. */
  function ParseAll(cs: seq<CitizenOf<string>>): Result<seq<Citizen>, Error> {
    if cs == [] then Success([])
    else
      var init :- ParseAll(cs[..|cs| - 1]);
      var c := cs[|cs| - 1];
      var d :- ParseDate(c.birthDate);
      Success(init + [WithBirthDate(c, d)])
  }

  /** `_parse_birth_date`: converts the citizens' dates in list order, stopping at the first malformed one. */
  method ParseBirthDates(cs: seq<CitizenOf<string>>) returns (r: Result<seq<Citizen>, Error>)
    ensures r == ParseAll(cs)
  {
    var parsed: seq<Citizen> := [];
    for i := 0 to |cs|
      invariant ParseAll(cs[..i]) == Success(parsed)
    {
      assert cs[..i + 1][..i] == cs[..i];
      var d := ParseDate(cs[i].birthDate);
      if d.Failure? {
        ParseAllFailure(cs, i + 1);
        return Failure(d.error);
      }
      parsed := parsed + [WithBirthDate(cs[i], d.value)];
    }
    assert cs[..|cs|] == cs;
    return Success(parsed);
  }

  /** A failure in a prefix is the failure of the whole list. */
  lemma {:induction false} ParseAllFailure(cs: seq<CitizenOf<string>>, n: nat)
    requires n <= |cs| && ParseAll(cs[..n]).Failure?
    ensures ParseAll(cs) == ParseAll(cs[..n])
    decreases |cs| - n
  {
    if n < |cs| {
      assert cs[..n + 1][..n] == cs[..n];
      ParseAllFailure(cs, n + 1);
    } else {
      assert cs[..n] == cs;
    }
  }

  lemma {:induction false} ParseAllSucceeds(cs: seq<CitizenOf<string>>)
    ensures ParseAll(cs).Success? <==> forall i :: 0 <= i < |cs| ==> ParseDate(cs[i].birthDate).Success?
  {
    if cs != [] {
      var init := cs[..|cs| - 1];
      ParseAllSucceeds(init);
      assert forall i :: 0 <= i < |init| ==> init[i] == cs[i];
    }
  }

  lemma {:induction false} ParseAllValue(cs: seq<CitizenOf<string>>)
    requires ParseAll(cs).Success?
    ensures |ParseAll(cs).value| == |cs|
    ensures forall i :: 0 <= i < |cs| ==>
      ParseDate(cs[i].birthDate).Success? && ParseAll(cs).value[i] == WithBirthDate(cs[i], ParseDate(cs[i].birthDate).value)
  {
    if cs != [] {
      var init, c := cs[..|cs| - 1], cs[|cs| - 1];
      ParseAllValue(init);
      assert forall i :: 0 <= i < |init| ==> init[i] == cs[i];
      assert ParseAll(cs).value == ParseAll(init).value + [WithBirthDate(c, ParseDate(c.birthDate).value)];
    }
  }

  lemma {:induction false} ParseAllError(cs: seq<CitizenOf<string>>)
    requires ParseAll(cs).Failure?
    ensures exists i ::
      && 0 <= i < |cs|
      && ParseDate(cs[i].birthDate) == Failure(ParseAll(cs).error)
      && forall j :: 0 <= j < i ==> ParseDate(cs[j].birthDate).Success?
  {
    var init, c := cs[..|cs| - 1], cs[|cs| - 1];
    assert forall i :: 0 <= i < |init| ==> init[i] == cs[i];
    if ParseAll(init).Failure? {
      ParseAllError(init);
      var i :| 0 <= i < |init|
        && ParseDate(init[i].birthDate) == Failure(ParseAll(init).error)
        && forall j :: 0 <= j < i ==> ParseDate(init[j].birthDate).Success?;
      assert ParseDate(cs[i].birthDate) == Failure(ParseAll(cs).error);
    } else {
      ParseAllSucceeds(init);
      assert ParseDate(cs[|cs| - 1].birthDate) == Failure(ParseAll(cs).error);
    }
  }

  /**
   * Parsing succeeds exactly when every date parses; it then keeps every
   * citizen in place with its date converted, and otherwise reports the
   * error of the first malformed date.
   */
  lemma ParseAllCorrect(cs: seq<CitizenOf<string>>)
    ensures ParseAll(cs).Success? <==> forall i :: 0 <= i < |cs| ==> ParseDate(cs[i].birthDate).Success?
    ensures ParseAll(cs).Success? ==>
      && |ParseAll(cs).value| == |cs|
      && forall i :: 0 <= i < |cs| ==> ParseAll(cs).value[i] == WithBirthDate(cs[i], ParseDate(cs[i].birthDate).value)
    ensures ParseAll(cs).Failure? ==>
      exists i ::
        && 0 <= i < |cs|
        && ParseDate(cs[i].birthDate) == Failure(ParseAll(cs).error)
        && forall j :: 0 <= j < i ==> ParseDate(cs[j].birthDate).Success?
  {
    ParseAllSucceeds(cs);
    if ParseAll(cs).Success? {
      ParseAllValue(cs);
    } else {
      ParseAllError(cs);
    }
  }

  /**
   * `post_import` on the value of the store: a malformed date stores
   * nothing; otherwise the import is inserted under the next id, and the
   * reply is `({'data': {'import_id': id}}, 201)` when the write is
   * acknowledged.
   */
  function PostImportSpec(db: Imports, payload: seq<CitizenOf<string>>, acknowledged: bool): (Result<(int, int), Error>, Imports) {
    var parsed := ParseAll(payload);
    if parsed.Failure? then (Failure(parsed.error), db)
    else
      var importId := |db|;
      var db' := db + [parsed.value];
      if acknowledged then (Success((importId, Created)), db')
      else (Failure(PyMongoError(NotAcknowledged)), db')
  }

  /** `post_import`, with `_add_import_id` and `_write_to_db` inlined. */
  method PostImport(db: ImportsCollection, payload: seq<CitizenOf<string>>, acknowledged: bool)
    returns (r: Result<(int, int), Error>)
    requires db.Valid()
    modifies db
    ensures db.Valid()
    ensures (r, db.Contents()) == PostImportSpec(old(db.Contents()), payload, acknowledged)
  {
    var parsed := ParseBirthDates(payload);
    if parsed.Failure? {
      assert db.Contents() == old(db.Contents());
      return Failure(parsed.error);
    }
    var citizens := parsed.value;
    var importId := |db.docs|;
    var document := new Citizen[|citizens|](i requires 0 <= i < |citizens| => citizens[i]);
    assert document[..] == citizens;
    db.InsertOne(document);
    if acknowledged {
      return Success((importId, Created));
    }
    return Failure(PyMongoError(NotAcknowledged));
  }

  /**
   * A successful post is found again by the id it returns, with the dates
   * converted; the imports stored before are unchanged.
   */
  lemma PostThenGet(db: Imports, payload: seq<CitizenOf<string>>)
    requires PostImportSpec(db, payload, true).0.Success?
    ensures var (r, db') := PostImportSpec(db, payload, true);
      && r.value == (|db|, Created)
      && GetCitizens(db', r.value.0) == ParseAll(payload)
      && db'[..|db|] == db
  {
    var (r, db') := PostImportSpec(db, payload, true);
    assert (db + [ParseAll(payload).value])[..|db|] == db;
  }

  /** A malformed birth date stores nothing and reports the date's error. */
  lemma MalformedDateStoresNothing(db: Imports, payload: seq<CitizenOf<string>>, acknowledged: bool, i: nat)
    requires i < |payload| && ParseDate(payload[i].birthDate).Failure?
    ensures PostImportSpec(db, payload, acknowledged).1 == db
    ensures PostImportSpec(db, payload, acknowledged).0.Failure?
    ensures PostImportSpec(db, payload, acknowledged).0.error.ValueError?
  {
    ParseAllCorrect(payload);
    var k :| 0 <= k < |payload|
      && ParseDate(payload[k].birthDate) == Failure(ParseAll(payload).error)
      && forall j :: 0 <= j < k ==> ParseDate(payload[j].birthDate).Success?;
  }

  /** Posting the payloads one after another, every write acknowledged. */
  function PostAll(db: Imports, payloads: seq<seq<CitizenOf<string>>>): (seq<Result<(int, int), Error>>, Imports) {
    if payloads == [] then ([], db)
    else
      var (rs, db') := PostAll(db, payloads[..|payloads| - 1]);
      var (r, db'') := PostImportSpec(db', payloads[|payloads| - 1], true);
      (rs + [r], db'')
  }

  /** n successful posts on an empty store get the ids 0, 1, ..., n - 1. */
  lemma {:induction false} SuccessiveIds(payloads: seq<seq<CitizenOf<string>>>)
    requires forall k :: 0 <= k < |payloads| ==> ParseAll(payloads[k]).Success?
    ensures |PostAll([], payloads).0| == |payloads|
    ensures |PostAll([], payloads).1| == |payloads|
    ensures forall k :: 0 <= k < |payloads| ==> PostAll([], payloads).0[k] == Success((k, Created))
  {
    if payloads != [] {
      var init := payloads[..|payloads| - 1];
      SuccessiveIds(init);
      var (rs, db') := PostAll([], init);
      assert forall k :: 0 <= k < |rs| ==> (rs + [PostImportSpec(db', payloads[|payloads| - 1], true).0])[k] == rs[k];
    }
  }
}
