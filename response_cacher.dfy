/**
 * `cache_response`: a collection of cached response bodies keyed by the
 * import they were computed from. A cached body is answered directly; a
 * missing one is computed by the wrapped handler and stored.
 */
module ResponseCacher {
  import opened Wrappers
  import opened Errors
  import opened Citizens
  import opened Shared

  /** A JSON value as stored in a document. */
  datatype Json =
    | JNull
    | JBool(b: bool)
    | JInt(i: int)
    | JStr(s: string)
    | JArray(items: seq<Json>)
    | JObject(members: seq<(string, Json)>)

  /** A document of the cache collection: field -> value. */
  type Document = map<string, Json>

  /** What a wrapped handler answers: a JSON body and an HTTP status. */
  datatype Response = Response(body: Document, status: int)

  const ImportIdField := "import_id"

  /** The query `{'import_id': import_id}`. */
  predicate Matches(doc: Document, importId: int) {
    ImportIdField in doc && doc[ImportIdField] == JInt(importId)
  }

  /** Where `find_one` stops: the first document matching the query. */
  function FirstMatch(docs: seq<Document>, importId: int): (r: Option<nat>)
    ensures r.Some? ==> r.value < |docs| && Matches(docs[r.value], importId)
    ensures r.Some? ==> forall j :: 0 <= j < r.value ==> !Matches(docs[j], importId)
    ensures r.None? <==> forall j :: 0 <= j < |docs| ==> !Matches(docs[j], importId)
  {
    if docs == [] then None
    else
      var m := FirstMatch(docs[..|docs| - 1], importId);
      if m.Some? then m
      else if Matches(docs[|docs| - 1], importId) then Some(|docs| - 1)
      else None
  }

  /** The projection `{'_id': 0, 'import_id': 0}`. */
  function Project(doc: Document): (r: Document)
    ensures ImportIdField !in r
    ensures forall k :: k != ImportIdField ==> (k in r <==> k in doc) && (k in r ==> r[k] == doc[k])
  {
    doc - {ImportIdField}
  }

  /** `_get_cached_data` on the collection's documents. */
  function CachedData(docs: seq<Document>, importId: int): (r: Option<Document>)
    ensures r.None? <==> forall j :: 0 <= j < |docs| ==> !Matches(docs[j], importId)
  {
    var m := FirstMatch(docs, importId);
    if m.None? then None else Some(Project(docs[m.value]))
  }

  /** `{**{'import_id': import_id}, **response_data}`: the response's own fields win. */
  function Entry(importId: int, responseData: Document): (r: Document)
    ensures r.Keys == responseData.Keys + {ImportIdField}
    ensures forall k :: k in responseData ==> r[k] == responseData[k]
    ensures ImportIdField !in responseData ==> r[ImportIdField] == JInt(importId)
  {
    map[ImportIdField := JInt(importId)] + responseData
  }

  /**
   * The wrapped handler on the import: a stored body answers with status
   * 201; otherwise the handler's answer is returned and, when it succeeded,
   * its body is stored.
   */
  function WrapSpec(docs: seq<Document>, importId: int, f: int -> Result<Response, Error>): (Result<Response, Error>, seq<Document>) {
    var cached := CachedData(docs, importId);
    if cached.Some? then (Success(Response(cached.value, Created)), docs)
    else
      var response := f(importId);
      if response.Failure? then (response, docs)
      else (response, docs + [Entry(importId, response.value.body)])
  }

  /** A body carries no `import_id`, or the one it is cached under. */
  predicate KeepsImportId(body: Document, importId: int) {
    ImportIdField in body ==> body[ImportIdField] == JInt(importId)
  }

  lemma FirstMatchSnoc(docs: seq<Document>, d: Document, importId: int)
    ensures FirstMatch(docs + [d], importId) ==
      if FirstMatch(docs, importId).Some? then FirstMatch(docs, importId)
      else if Matches(d, importId) then Some(|docs|) else None
  {
    assert (docs + [d])[..|docs|] == docs;
  }

  /** Storing a body for an import with no entry makes `_get_cached_data` return it without `import_id`. */
  lemma CacheRoundTrip(docs: seq<Document>, importId: int, body: Document)
    requires CachedData(docs, importId).None? && KeepsImportId(body, importId)
    ensures CachedData(docs + [Entry(importId, body)], importId) == Some(Project(body))
  {
    FirstMatchSnoc(docs, Entry(importId, body), importId);
    assert Project(Entry(importId, body)) == Project(body);
  }

  /** Storing a body for one import leaves what is cached for every other import unchanged. */
  lemma CacheFrame(docs: seq<Document>, importId: int, body: Document, other: int)
    requires other != importId && KeepsImportId(body, importId)
    ensures CachedData(docs + [Entry(importId, body)], other) == CachedData(docs, other)
  {
    FirstMatchSnoc(docs, Entry(importId, body), other);
    assert (docs + [Entry(importId, body)])[..|docs|] == docs;
    if FirstMatch(docs, other).Some? {
      assert (docs + [Entry(importId, body)])[FirstMatch(docs, other).value] == docs[FirstMatch(docs, other).value];
    }
  }

  /** A hit answers the stored body with 201 and leaves the cache as it was, whatever the handler would do. */
  lemma WrapHit(docs: seq<Document>, importId: int, f: int -> Result<Response, Error>, g: int -> Result<Response, Error>)
    requires CachedData(docs, importId).Some?
    ensures WrapSpec(docs, importId, f) == (Success(Response(CachedData(docs, importId).value, Created)), docs)
    ensures WrapSpec(docs, importId, f) == WrapSpec(docs, importId, g)
  {
  }

  /**
   * A miss answers exactly what the handler answers; the body is stored
   * only when the handler succeeded, and the next call for the import is a
   * hit returning that body without `import_id`.
   */
  lemma WrapMiss(docs: seq<Document>, importId: int, f: int -> Result<Response, Error>, g: int -> Result<Response, Error>)
    requires CachedData(docs, importId).None?
    ensures WrapSpec(docs, importId, f).0 == f(importId)
    ensures f(importId).Failure? ==> WrapSpec(docs, importId, f).1 == docs
    ensures f(importId).Success? ==> WrapSpec(docs, importId, f).1 == docs + [Entry(importId, f(importId).value.body)]
    ensures f(importId).Success? && KeepsImportId(f(importId).value.body, importId) ==>
      WrapSpec(WrapSpec(docs, importId, f).1, importId, g).0 == Success(Response(Project(f(importId).value.body), Created))
  {
    if f(importId).Success? && KeepsImportId(f(importId).value.body, importId) {
      CacheRoundTrip(docs, importId, f(importId).value.body);
    }
  }

  /** A wrapped call never changes what is cached for another import. */
  lemma WrapFrame(docs: seq<Document>, importId: int, f: int -> Result<Response, Error>, other: int)
    requires other != importId
    requires f(importId).Success? ==> KeepsImportId(f(importId).value.body, importId)
    ensures CachedData(WrapSpec(docs, importId, f).1, other) == CachedData(docs, other)
  {
    if CachedData(docs, importId).None? && f(importId).Success? {
      CacheFrame(docs, importId, f(importId).value.body, other);
    }
  }

  // ---------------------------------------------------------------- invalidation

  /** The documents left after deleting every entry of the import. */
  function WithoutEntries(docs: seq<Document>, importId: int): (r: seq<Document>)
    ensures |r| <= |docs|
    ensures forall j :: 0 <= j < |r| ==> !Matches(r[j], importId)
  {
    if docs == [] then []
    else
      var rest := WithoutEntries(docs[..|docs| - 1], importId);
      if Matches(docs[|docs| - 1], importId) then rest else rest + [docs[|docs| - 1]]
  }

  /** Deleting the entries of one import leaves what is cached for every other import unchanged. */
  lemma {:induction false} WithoutEntriesFrame(docs: seq<Document>, importId: int, other: int)
    requires other != importId
    ensures CachedData(WithoutEntries(docs, importId), other) == CachedData(docs, other)
  {
    if docs != [] {
      var init, last := docs[..|docs| - 1], docs[|docs| - 1];
      WithoutEntriesFrame(init, importId, other);
      assert docs == init + [last];
      var rest := WithoutEntries(init, importId);
      FirstMatchSnoc(init, last, other);
      if !Matches(last, importId) {
        FirstMatchSnoc(rest, last, other);
        var m := FirstMatch(rest, other);
        if m.Some? {
          assert (rest + [last])[m.value] == rest[m.value];
        }
      }
      var m := FirstMatch(init, other);
      if m.Some? {
        assert docs[m.value] == init[m.value];
      }
    }
  }

  /** `_delete_birthdays_data` acts exactly when the patch has `relatives` or `birth_date`. */
  predicate InvalidatesBirthdays(patch: CitizenPatch) {
    patch.relatives.Some? || patch.birthDate.Some?
  }

  /** `_delete_percentile_age_data` acts exactly when the patch has `town` or `birth_date`. */
  predicate InvalidatesPercentiles(patch: CitizenPatch) {
    patch.town.Some? || patch.birthDate.Some?
  }

  /** The cache collection, as the documents it holds in insertion order. */
  class ResponseCache {
    var docs: seq<Document>

    constructor ()
      ensures docs == []
    {
      docs := [];
    }

    /** `_get_cached_data`. */
    method GetCachedData(importId: int) returns (r: Option<Document>)
      ensures r == CachedData(docs, importId)
    {
      var i := 0;
      while i < |docs| && !Matches(docs[i], importId)
        invariant 0 <= i <= |docs|
        invariant forall j :: 0 <= j < i ==> !Matches(docs[j], importId)
      {
        i := i + 1;
      }
      if i == |docs| {
        return None;
      }
      return Some(Project(docs[i]));
    }

    /** `_cache_data`: `insert_one` of the body tagged with the import id. */
    method CacheData(importId: int, responseData: Document)
      modifies this
      ensures docs == old(docs) + [Entry(importId, responseData)]
    {
      var data := map[ImportIdField := JInt(importId)];
      data := data + responseData;
      docs := docs + [data];
    }

    /** `wrap`: answer from the cache, or call the handler and cache its body. */
    method Wrap(importId: int, f: int -> Result<Response, Error>) returns (r: Result<Response, Error>)
      modifies this
      ensures (r, docs) == WrapSpec(old(docs), importId, f)
    {
      var cachedData := GetCachedData(importId);
      if cachedData.Some? {
        return Success(Response(cachedData.value, Created));
      }
      var response :- f(importId);
      CacheData(importId, response.body);
      return Success(response);
    }

    /** Deletes every entry of the import. */
    method DeleteEntries(importId: int)
      modifies this
      ensures docs == WithoutEntries(old(docs), importId)
      ensures CachedData(docs, importId).None?
    {
      var kept := [];
      for i := 0 to |docs|
        invariant kept == WithoutEntries(docs[..i], importId)
      {
        if !Matches(docs[i], importId) {
          kept := kept + [docs[i]];
        }
        assert docs[..i + 1][..i] == docs[..i];
      }
      assert docs[..|docs|] == docs;
      docs := kept;
    }
  }

  /**
   * The cache invalidation a patch triggers: the birthdays entries go when
   * the patch has `relatives` or `birth_date`, the percentile entries when
   * it has `town` or `birth_date`; each collection is otherwise untouched.
   */
  method InvalidateCaches(birthdays: ResponseCache, percentiles: ResponseCache, importId: int, patch: CitizenPatch)
    requires birthdays != percentiles
    modifies birthdays, percentiles
    ensures birthdays.docs == if InvalidatesBirthdays(patch) then WithoutEntries(old(birthdays.docs), importId) else old(birthdays.docs)
    ensures percentiles.docs == if InvalidatesPercentiles(patch) then WithoutEntries(old(percentiles.docs), importId) else old(percentiles.docs)
  {
    if InvalidatesBirthdays(patch) {
      birthdays.DeleteEntries(importId);
    }
    if InvalidatesPercentiles(patch) {
      percentiles.DeleteEntries(importId);
    }
  }
}
