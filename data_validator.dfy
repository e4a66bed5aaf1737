/**
 * The semantic checks `DataValidator` runs after the schema check: on a whole
 * import before it is ingested, and on a citizen patch before it is applied.
 */
module DataValidator {
  import opened Wrappers
  import opened Errors
  import opened Sequences
  import opened Citizens

  const IdsNotUnique := "Citizens ids are not unique"
  const RelativesNotUnique := "Relatives ids should be unique"
  const SelfRelative := "Citizen can not be relative to himself"
  const RelativeMissing := "Citizen relative does not exists"
  const NotDuplex := "Citizen relatives are not duplex"

  /** `citizen_relatives[id]`: the relatives, as a set, of the citizen with that id. */
  function RelativesOfId<D>(cs: seq<CitizenOf<D>>, id: int): set<int> {
    match FindCitizen(cs, id)
    case Some(k) => SetOf(cs[k].relatives)
    case None => {}
  }

  /** The loop over one citizen's relatives: existence first, then the reverse link. */
  function CheckRelatives<D>(cs: seq<CitizenOf<D>>, citizenId: int, relatives: seq<int>): Outcome<Error> {
    if relatives == [] then Pass
    else if relatives[0] !in IdSet(cs) then Fail(ValidationError(RelativeMissing))
    else if citizenId !in RelativesOfId(cs, relatives[0]) then Fail(ValidationError(NotDuplex))
    else CheckRelatives(cs, citizenId, relatives[1..])
  }

  /** The checks on one citizen, in the order `validate_import` runs them. */
  function CheckCitizen<D>(cs: seq<CitizenOf<D>>, c: CitizenOf<D>): Outcome<Error> {
    var relatives := SetOf(c.relatives);
    if |relatives| != |c.relatives| then Fail(ValidationError(RelativesNotUnique))
    else if c.citizenId in relatives then Fail(ValidationError(SelfRelative))
    else CheckRelatives(cs, c.citizenId, c.relatives)
  }

  /** The outer loop: the first citizen that fails decides the error. */
  function CheckCitizens<D>(cs: seq<CitizenOf<D>>, rest: seq<CitizenOf<D>>): Outcome<Error> {
    if rest == [] then Pass
    else
      var e := CheckCitizen(cs, rest[0]);
      if e.Fail? then e else CheckCitizens(cs, rest[1..])
  }

  /** `validate_import` after the schema check. */
  function ValidateImport<D>(cs: seq<CitizenOf<D>>): Outcome<Error> {
    if |IdSet(cs)| != |cs| then Fail(ValidationError(IdsNotUnique))
    else CheckCitizens(cs, cs)
  }

  /** `validate_citizen_patch` after the schema check. */
  function ValidateCitizenPatch(citizenId: int, relatives: Option<seq<int>>): Outcome<Error> {
    if relatives.None? then Pass
    else if |SetOf(relatives.value)| != |relatives.value| then Fail(ValidationError(RelativesNotUnique))
    else if citizenId in SetOf(relatives.value) then Fail(ValidationError(SelfRelative))
    else Pass
  }

  // ---------------------------------------------------------------- what passes

  /** Every relative in the list exists and lists the citizen back. */
  predicate LinksBack<D>(cs: seq<CitizenOf<D>>, citizenId: int, relatives: seq<int>) {
    forall r :: r in relatives ==> r in IdSet(cs) && citizenId in RelativesOfId(cs, r)
  }

  predicate CitizenPasses<D>(cs: seq<CitizenOf<D>>, c: CitizenOf<D>) {
    Distinct(c.relatives) && c.citizenId !in c.relatives && LinksBack(cs, c.citizenId, c.relatives)
  }

  lemma {:induction false} CheckRelativesPass<D>(cs: seq<CitizenOf<D>>, citizenId: int, relatives: seq<int>)
    ensures CheckRelatives(cs, citizenId, relatives).Pass? <==> LinksBack(cs, citizenId, relatives)
  {
    if relatives != [] {
      CheckRelativesPass(cs, citizenId, relatives[1..]);
      assert forall r :: r in relatives ==> r == relatives[0] || r in relatives[1..];
    }
  }

  lemma CheckCitizenPass<D>(cs: seq<CitizenOf<D>>, c: CitizenOf<D>)
    ensures CheckCitizen(cs, c).Pass? <==> CitizenPasses(cs, c)
  {
    DistinctIffCard(c.relatives);
    CheckRelativesPass(cs, c.citizenId, c.relatives);
  }

  lemma {:induction false} CheckCitizensPass<D>(cs: seq<CitizenOf<D>>, rest: seq<CitizenOf<D>>)
    ensures CheckCitizens(cs, rest).Pass? <==> forall k :: 0 <= k < |rest| ==> CitizenPasses(cs, rest[k])
  {
    if rest != [] {
      CheckCitizenPass(cs, rest[0]);
      CheckCitizensPass(cs, rest[1..]);
      assert forall k :: 1 <= k < |rest| ==> rest[k] == rest[1..][k - 1];
    }
  }

  /** Under unique ids, `citizen_relatives[id]` is the relatives list of the citizen with that id. */
  lemma RelativesOfIdAt<D>(cs: seq<CitizenOf<D>>, j: int)
    requires UniqueIds(cs) && 0 <= j < |cs|
    ensures RelativesOfId(cs, cs[j].citizenId) == SetOf(cs[j].relatives)
  {
    FindUnique(cs, j);
  }

  /** Under unique ids, the per-citizen checks pass exactly on a well-formed graph. */
  lemma AllPassIffWellFormed<D>(cs: seq<CitizenOf<D>>)
    requires UniqueIds(cs)
    ensures (forall k :: 0 <= k < |cs| ==> CitizenPasses(cs, cs[k])) <==> WellFormed(cs)
  {
    forall j | 0 <= j < |cs| ensures RelativesOfId(cs, cs[j].citizenId) == SetOf(cs[j].relatives) {
      RelativesOfIdAt(cs, j);
    }
    if forall k :: 0 <= k < |cs| ==> CitizenPasses(cs, cs[k]) {
      forall i, j | 0 <= i < |cs| && 0 <= j < |cs|
        ensures cs[j].citizenId in cs[i].relatives ==> cs[i].citizenId in cs[j].relatives
      {
        if cs[j].citizenId in cs[i].relatives {
          assert CitizenPasses(cs, cs[i]);
        }
      }
      assert Symmetric(cs);
    }
    if WellFormed(cs) {
      forall k | 0 <= k < |cs| ensures CitizenPasses(cs, cs[k]) {
        assert RelativesOk(cs, k);
        forall r | r in cs[k].relatives ensures r in IdSet(cs) && cs[k].citizenId in RelativesOfId(cs, r) {
          var j :| 0 <= j < |cs| && cs[j].citizenId == r;
          assert cs[k].citizenId in cs[j].relatives;
        }
      }
    }
  }

  /** `validate_import` accepts exactly the well-formed imports (the empty one included). */
  lemma ValidateImportCorrect<D>(cs: seq<CitizenOf<D>>)
    ensures ValidateImport(cs).Pass? <==> WellFormed(cs)
  {
    UniqueIdsIffCard(cs);
    CheckCitizensPass(cs, cs);
    if UniqueIds(cs) {
      AllPassIffWellFormed(cs);
    }
  }

  // ---------------------------------------------------------------- which error

  /** Duplicate citizen ids are reported before anything else is looked at. */
  lemma DuplicateIdsReportedFirst<D>(cs: seq<CitizenOf<D>>)
    requires !UniqueIds(cs)
    ensures ValidateImport(cs) == Fail(ValidationError(IdsNotUnique))
  {
    UniqueIdsIffCard(cs);
  }

  /** The citizens before the first failing one do not influence the error. */
  lemma {:induction false} FirstFailingCitizen<D>(cs: seq<CitizenOf<D>>, rest: seq<CitizenOf<D>>, i: nat)
    requires i < |rest|
    requires forall k :: 0 <= k < i ==> CitizenPasses(cs, rest[k])
    requires CheckCitizen(cs, rest[i]).Fail?
    ensures CheckCitizens(cs, rest) == CheckCitizen(cs, rest[i])
  {
    if i > 0 {
      CheckCitizenPass(cs, rest[0]);
      FirstFailingCitizen(cs, rest[1..], i - 1);
    }
  }

  /** The error an import gets when citizen `i` is the first with a defect. */
  lemma ReportedError<D>(cs: seq<CitizenOf<D>>, i: nat)
    requires UniqueIds(cs) && i < |cs|
    requires forall k :: 0 <= k < i ==> CitizenPasses(cs, cs[k])
    requires CheckCitizen(cs, cs[i]).Fail?
    ensures ValidateImport(cs) == CheckCitizen(cs, cs[i])
  {
    UniqueIdsIffCard(cs);
    FirstFailingCitizen(cs, cs, i);
  }

  lemma DuplicateRelativesReported<D>(cs: seq<CitizenOf<D>>, i: nat)
    requires UniqueIds(cs) && i < |cs|
    requires forall k :: 0 <= k < i ==> CitizenPasses(cs, cs[k])
    requires !Distinct(cs[i].relatives)
    ensures ValidateImport(cs) == Fail(ValidationError(RelativesNotUnique))
  {
    DistinctIffCard(cs[i].relatives);
    ReportedError(cs, i);
  }

  lemma SelfRelationReported<D>(cs: seq<CitizenOf<D>>, i: nat)
    requires UniqueIds(cs) && i < |cs|
    requires forall k :: 0 <= k < i ==> CitizenPasses(cs, cs[k])
    requires Distinct(cs[i].relatives) && cs[i].citizenId in cs[i].relatives
    ensures ValidateImport(cs) == Fail(ValidationError(SelfRelative))
  {
    DistinctIffCard(cs[i].relatives);
    ReportedError(cs, i);
  }

  /** A relatives list whose only defects are missing relatives reports a missing relative. */
  lemma {:induction false} MissingOnlyReported<D>(cs: seq<CitizenOf<D>>, citizenId: int, relatives: seq<int>)
    requires exists r :: r in relatives && r !in IdSet(cs)
    requires forall r :: r in relatives && r in IdSet(cs) ==> citizenId in RelativesOfId(cs, r)
    ensures CheckRelatives(cs, citizenId, relatives) == Fail(ValidationError(RelativeMissing))
  {
    if relatives[0] in IdSet(cs) {
      var r :| r in relatives && r !in IdSet(cs);
      assert r in relatives[1..];
      MissingOnlyReported(cs, citizenId, relatives[1..]);
    }
  }

  /** A relatives list whose only defects are missing reverse links reports "not duplex". */
  lemma {:induction false} AsymmetryOnlyReported<D>(cs: seq<CitizenOf<D>>, citizenId: int, relatives: seq<int>)
    requires forall r :: r in relatives ==> r in IdSet(cs)
    requires exists r :: r in relatives && citizenId !in RelativesOfId(cs, r)
    ensures CheckRelatives(cs, citizenId, relatives) == Fail(ValidationError(NotDuplex))
  {
    if citizenId in RelativesOfId(cs, relatives[0]) {
      var r :| r in relatives && citizenId !in RelativesOfId(cs, r);
      assert r in relatives[1..];
      AsymmetryOnlyReported(cs, citizenId, relatives[1..]);
    }
  }

  lemma MissingRelativeReported<D>(cs: seq<CitizenOf<D>>, i: nat)
    requires UniqueIds(cs) && i < |cs|
    requires forall k :: 0 <= k < i ==> CitizenPasses(cs, cs[k])
    requires Distinct(cs[i].relatives) && cs[i].citizenId !in cs[i].relatives
    requires exists r :: r in cs[i].relatives && r !in IdSet(cs)
    requires forall r :: r in cs[i].relatives && r in IdSet(cs) ==> cs[i].citizenId in RelativesOfId(cs, r)
    ensures ValidateImport(cs) == Fail(ValidationError(RelativeMissing))
  {
    DistinctIffCard(cs[i].relatives);
    MissingOnlyReported(cs, cs[i].citizenId, cs[i].relatives);
    ReportedError(cs, i);
  }

  lemma AsymmetryReported<D>(cs: seq<CitizenOf<D>>, i: nat)
    requires UniqueIds(cs) && i < |cs|
    requires forall k :: 0 <= k < i ==> CitizenPasses(cs, cs[k])
    requires Distinct(cs[i].relatives) && cs[i].citizenId !in cs[i].relatives
    requires forall r :: r in cs[i].relatives ==> r in IdSet(cs)
    requires exists r :: r in cs[i].relatives && cs[i].citizenId !in RelativesOfId(cs, r)
    ensures ValidateImport(cs) == Fail(ValidationError(NotDuplex))
  {
    DistinctIffCard(cs[i].relatives);
    AsymmetryOnlyReported(cs, cs[i].citizenId, cs[i].relatives);
    ReportedError(cs, i);
  }

  // ---------------------------------------------------------------- patches

  /** A patch fails the semantic checks only through its relatives: repeated, or containing the citizen. */
  lemma ValidateCitizenPatchCorrect(citizenId: int, relatives: Option<seq<int>>)
    ensures ValidateCitizenPatch(citizenId, relatives).Pass? <==>
      (relatives.None? || (Distinct(relatives.value) && citizenId !in relatives.value))
    ensures relatives.Some? && !Distinct(relatives.value) ==>
      ValidateCitizenPatch(citizenId, relatives) == Fail(ValidationError(RelativesNotUnique))
    ensures relatives.Some? && Distinct(relatives.value) && citizenId in relatives.value ==>
      ValidateCitizenPatch(citizenId, relatives) == Fail(ValidationError(SelfRelative))
  {
    if relatives.Some? {
      DistinctIffCard(relatives.value);
    }
  }
}
