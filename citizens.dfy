/**
 * Citizen records, patches, and the relative graph they embed.
 * The birth-date type is a parameter: it is `string` in a payload as
 * received and `Date` in a record as stored.
 */
module Citizens {
  import opened Wrappers
  import opened Sequences
  import opened Dates

  datatype CitizenOf<D> = Citizen(
    citizenId: int,
    town: string,
    street: string,
    building: string,
    apartment: int,
    name: string,
    birthDate: D,
    gender: string,
    relatives: seq<int>)

  type Citizen = CitizenOf<Date>

  /** A PATCH payload: each field is present or absent; `citizen_id` cannot be patched. */
  datatype PatchOf<D> = Patch(
    town: Option<string>,
    street: Option<string>,
    building: Option<string>,
    apartment: Option<int>,
    name: Option<string>,
    birthDate: Option<D>,
    gender: Option<string>,
    relatives: Option<seq<int>>)

  type CitizenPatch = PatchOf<Date>

  function WithBirthDate<D, E>(c: CitizenOf<D>, d: E): (r: CitizenOf<E>)
    ensures r.citizenId == c.citizenId && r.relatives == c.relatives && r.birthDate == d
  {
    Citizen(c.citizenId, c.town, c.street, c.building, c.apartment, c.name, d, c.gender, c.relatives)
  }

  // ---------------------------------------------------------------- the graph

  function IdSet<D>(cs: seq<CitizenOf<D>>): set<int> {
    set i | 0 <= i < |cs| :: cs[i].citizenId
  }

  function Ids<D>(cs: seq<CitizenOf<D>>): (r: seq<int>)
    ensures |r| == |cs| && forall i :: 0 <= i < |cs| ==> r[i] == cs[i].citizenId
  {
    seq(|cs|, i requires 0 <= i < |cs| => cs[i].citizenId)
  }

  predicate UniqueIds<D>(cs: seq<CitizenOf<D>>) {
    forall i, j :: 0 <= i < j < |cs| ==> cs[i].citizenId != cs[j].citizenId
  }

  lemma IdSetOfIds<D>(cs: seq<CitizenOf<D>>)
    ensures IdSet(cs) == SetOf(Ids(cs))
    ensures UniqueIds(cs) <==> Distinct(Ids(cs))
  {
    var ids := Ids(cs);
    forall x ensures x in IdSet(cs) <==> x in SetOf(ids) {
      if x in SetOf(ids) {
        var i :| 0 <= i < |ids| && ids[i] == x;
        assert cs[i].citizenId == x;
      }
    }
  }

  /** `len({ids}) == len(citizens)` exactly when the ids are unique. */
  lemma UniqueIdsIffCard<D>(cs: seq<CitizenOf<D>>)
    ensures |IdSet(cs)| == |cs| <==> UniqueIds(cs)
  {
    IdSetOfIds(cs);
    DistinctIffCard(Ids(cs));
  }

  /** The index of the first citizen with the given id, as `$elemMatch` and the positional `$` pick it. */
  function FindCitizen<D>(cs: seq<CitizenOf<D>>, citizenId: int): (r: Option<nat>)
    ensures r.Some? ==> r.value < |cs| && cs[r.value].citizenId == citizenId
    ensures r.Some? ==> forall k :: 0 <= k < r.value ==> cs[k].citizenId != citizenId
    ensures r.None? <==> citizenId !in IdSet(cs)
  {
    if cs == [] then None
    else if cs[0].citizenId == citizenId then Some(0)
    else
      match FindCitizen(cs[1..], citizenId)
      case None =>
        assert forall k :: 1 <= k < |cs| ==> cs[k] == cs[1..][k - 1];
        None
      case Some(k) => Some(k + 1)
  }

  lemma FindUnique<D>(cs: seq<CitizenOf<D>>, i: nat)
    requires UniqueIds(cs) && i < |cs|
    ensures FindCitizen(cs, cs[i].citizenId) == Some(i)
  {
  }

  /** The relatives list of a citizen: unique, not the citizen itself, only existing citizens. */
  predicate RelativesOk<D>(cs: seq<CitizenOf<D>>, i: int)
    requires 0 <= i < |cs|
  {
    && Distinct(cs[i].relatives)
    && cs[i].citizenId !in cs[i].relatives
    && forall r :: r in cs[i].relatives ==> r in IdSet(cs)
  }

  /** b is a relative of a exactly when a is a relative of b. */
  predicate Symmetric<D>(cs: seq<CitizenOf<D>>) {
    forall i, j :: 0 <= i < |cs| && 0 <= j < |cs| ==>
      (cs[j].citizenId in cs[i].relatives <==> cs[i].citizenId in cs[j].relatives)
  }

  /** The invariant every stored import keeps. */
  predicate WellFormed<D>(cs: seq<CitizenOf<D>>) {
    && UniqueIds(cs)
    && (forall i :: 0 <= i < |cs| ==> RelativesOk(cs, i))
    && Symmetric(cs)
  }

  // ---------------------------------------------------------------- patching

  function Patched<T>(current: T, field: Option<T>): T {
    if field.Some? then field.value else current
  }

  /** `$set` of every field present in the patch on one citizen. */
  function SetFields(c: Citizen, p: CitizenPatch): (r: Citizen)
    ensures r.citizenId == c.citizenId
    ensures r.town == Patched(c.town, p.town) && r.street == Patched(c.street, p.street)
    ensures r.building == Patched(c.building, p.building) && r.apartment == Patched(c.apartment, p.apartment)
    ensures r.name == Patched(c.name, p.name) && r.birthDate == Patched(c.birthDate, p.birthDate)
    ensures r.gender == Patched(c.gender, p.gender) && r.relatives == Patched(c.relatives, p.relatives)
  {
    Citizen(c.citizenId, Patched(c.town, p.town), Patched(c.street, p.street),
            Patched(c.building, p.building), Patched(c.apartment, p.apartment),
            Patched(c.name, p.name), Patched(c.birthDate, p.birthDate),
            Patched(c.gender, p.gender), Patched(c.relatives, p.relatives))
  }

  /** Setting the same fields twice is setting them once. */
  lemma SetFieldsIdempotent(c: Citizen, p: CitizenPatch)
    ensures SetFields(SetFields(c, p), p) == SetFields(c, p)
  {
  }
}
