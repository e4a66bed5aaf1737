/** The lookup every read handler starts with. */
module Shared {
  import opened Wrappers
  import opened Errors
  import opened Citizens
  import opened Store

  /** The HTTP status every successful handler answers with. */
  const Created := 201

  /** `get_citizens`: the citizens of the import with the id, as stored. */
  function GetCitizens(db: Imports, importId: int): (r: Result<seq<Citizen>, Error>)
    ensures r.Success? <==> 0 <= importId < |db|
    ensures r.Success? ==> r.value == db[importId]
    ensures r.Failure? ==> r.error == PyMongoError(ImportNotFound)
  {
    if 0 <= importId < |db| then Success(db[importId]) else Failure(PyMongoError(ImportNotFound))
  }
}
