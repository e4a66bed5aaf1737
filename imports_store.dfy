/**
 * The `imports` collection. Each document holds one import: the array of its
 * citizen records, which the update handlers change in place. Ingestion gives
 * a new import the number of imports already stored as its id and nothing is
 * ever deleted, so an import's id is its position in the collection.
 */
module Store {
  import opened Citizens

  /** The value of the collection: the citizens of the import with id `k` are at `k`. */
  type Imports = seq<seq<Citizen>>

  /** The message of the error raised when no import has the requested id. */
  const ImportNotFound := "Import with specified id not found"

  class ImportsCollection {
    var docs: seq<array<Citizen>>

    ghost function Arrays(): set<array<Citizen>>
      reads this
    {
      set k | 0 <= k < |docs| :: docs[k]
    }

    /** No two imports share their citizen array. */
    ghost predicate Valid()
      reads this
    {
      forall j, k :: 0 <= j < k < |docs| ==> docs[j] != docs[k]
    }

    /** The imports as values. */
    function Contents(): (r: Imports)
      reads this, Arrays()
      ensures |r| == |docs|
      ensures forall k :: 0 <= k < |docs| ==> r[k] == docs[k][..]
    {
      seq(|docs|, k reads this, Arrays() requires 0 <= k < |docs| => docs[k][..])
    }

    constructor ()
      ensures Valid() && Contents() == []
    {
      docs := [];
    }

    /** `insert_one` of a new import document. */
    method InsertOne(a: array<Citizen>)
      requires Valid() && a !in Arrays()
      modifies this
      ensures Valid()
      ensures docs == old(docs) + [a]
      ensures Contents() == old(Contents()) + [a[..]]
    {
      docs := docs + [a];
    }

    /** Writes a saved state of one import back into its array: the abort of a transaction. */
    method RestoreImport(k: nat, saved: seq<Citizen>)
      requires Valid() && k < |docs| && |saved| == docs[k].Length
      modifies docs[k]
      ensures Contents() == old(Contents())[k := saved]
    {
      var a := docs[k];
      var i := 0;
      while i < a.Length
        invariant 0 <= i <= a.Length
        invariant a[..i] == saved[..i]
        invariant forall j :: i <= j < a.Length ==> a[j] == old(a[j])
      {
        a[i] := saved[i];
        i := i + 1;
        assert a[..i] == a[..i - 1] + [a[i - 1]];
        assert saved[..i] == saved[..i - 1] + [saved[i - 1]];
      }
      assert a[..] == a[..a.Length];
      assert saved == saved[..a.Length];
      assert forall j :: 0 <= j < |docs| && j != k ==> docs[j] != a;
    }
  }
}
