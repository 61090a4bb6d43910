/**
 * The module-level `products` array and the routes that change it in place:
 * create pushes a record, update overwrites one slot with a shallow merge,
 * delete splices one slot out. The stats route is the one read-only route
 * that works by a loop, accumulating counts into a dictionary.
 */
module ProductStore {
  import opened Wrappers
  import opened Records
  import opened ProductQueries

  /** A record as the collection holds it: it has an `id`, a string `name` and a string `category`. */
  predicate Stored(p: Record)
  {
    "id" in p && Named(p) && Categorised(p)
  }

  /** Every record of the collection is stored as above. */
  predicate AllStored(s: seq<Record>)
  {
    forall i :: 0 <= i < |s| ==> Stored(s[i])
  }

  /** No two records of the collection have the same `id`. */
  predicate UniqueIds(s: seq<Record>)
  {
    forall i, j :: 0 <= i < j < |s| && "id" in s[i] && "id" in s[j] ==> s[i]["id"] != s[j]["id"]
  }

  /** The `products` array of the router, created empty when the module loads. */
  class Store {
    /** The records in insertion order. */
    var products: seq<Record>

    /** Every record has an id, and a name and category that search and stats can read. */
    ghost predicate Valid()
      reads this
    {
      AllStored(products)
    }

    /** `let products = []` */
    constructor ()
      ensures Valid() && products == []
    {
      products := [];
    }

    /**
     * `POST /`: push `{ id: freshId, ...body }` and return it. `freshId`
     * stands for the `uuidv4()` call; the body has passed validation.
     */
    method Create(body: Record, freshId: string) returns (created: Record)
      requires Valid() && ValidCreateBody(body)
      modifies this
      ensures Valid()
      ensures created == NewRecord(freshId, body)
      ensures products == old(products) + [created]
    {
      created := NewRecord(freshId, body);
      products := products + [created];
    }

    /**
     * `PUT /:id`: NotFound when no record has the id; otherwise the first
     * such record becomes `{ ...old, ...body }` in its own slot and is returned.
     */
    method Update(id: string, body: Record) returns (r: Result<Record, Error>)
      requires Valid() && ValidUpdateBody(body)
      modifies this
      ensures Valid()
      ensures FindIndex(old(products), id).None? ==> r == Err(NotFound) && products == old(products)
      ensures FindIndex(old(products), id).Some? ==>
        var i := FindIndex(old(products), id).value;
        && r == Ok(Spread(old(products)[i], body))
        && products == old(products)[i := r.value]
    {
      var index := FindIndex(products, id);
      if index.None? {
        return Err(NotFound);
      }
      var i := index.value;
      SpreadKeepsWellFormed(products[i], body);
      products := products[i := Spread(products[i], body)];
      r := Ok(products[i]);
    }

    /**
     * `DELETE /:id`: NotFound when no record has the id; otherwise the first
     * such record is spliced out and returned.
     */
    method Delete(id: string) returns (r: Result<Record, Error>)
      requires Valid()
      modifies this
      ensures Valid()
      ensures FindIndex(old(products), id).None? ==> r == Err(NotFound) && products == old(products)
      ensures FindIndex(old(products), id).Some? ==>
        var i := FindIndex(old(products), id).value;
        && r == Ok(old(products)[i])
        && products == old(products)[..i] + old(products)[i + 1..]
    {
      var index := FindIndex(products, id);
      if index.None? {
        return Err(NotFound);
      }
      var i := index.value;
      var deleted := products[i];
      products := products[..i] + products[i + 1..];
      r := Ok(deleted);
    }

    /** `GET /stats`: one pass over the records, bumping the count of each record's category. */
    method Stats() returns (stats: map<string, nat>)
      requires Valid()
      ensures stats == CategoryCounts(products)
    {
      stats := map[];
      var i := 0;
      while i < |products|
        invariant 0 <= i <= |products|
        invariant AllCategorised(products[..i])
        invariant stats == CategoryCounts(products[..i])
      {
        var p := products[i];
        CategoryCountsSnoc(products[..i], p);
        assert products[..i + 1] == products[..i] + [p];
        var c := CategoryOf(p);
        stats := stats[c := (if c in stats then stats[c] else 0) + 1];
        i := i + 1;
      }
      assert products[..i] == products;
    }
  }

  /** A create whose body has no `id` and whose fresh id is unused keeps the ids unique. */
  lemma CreateKeepsIdsUnique(s: seq<Record>, freshId: string, body: Record)
    requires UniqueIds(s) && "id" !in body
    requires forall i :: 0 <= i < |s| ==> !HasId(s[i], freshId)
    ensures UniqueIds(s + [NewRecord(freshId, body)])
  {
  }

  /** A body `id` wins over the fresh one, so a body carrying an id already in use makes two records share it. */
  lemma BodyIdDuplicates(s: seq<Record>, freshId: string, body: Record, i: int)
    requires 0 <= i < |s| && "id" in s[i] && "id" in body && s[i]["id"] == body["id"]
    ensures NewRecord(freshId, body)["id"] == body["id"]
    ensures !UniqueIds(s + [NewRecord(freshId, body)])
  {
    var t := s + [NewRecord(freshId, body)];
    assert t[i] == s[i] && t[|s|]["id"] == s[i]["id"];
  }

  /** An update whose body has no `id` keeps every record's id, so it keeps the ids unique. */
  lemma UpdateKeepsIdsUnique(s: seq<Record>, i: int, body: Record)
    requires 0 <= i < |s| && UniqueIds(s) && "id" !in body
    ensures UniqueIds(s[i := Spread(s[i], body)])
  {
  }

  /** With unique ids, once the record with an id is deleted no record has that id. */
  lemma DeleteThenNotFound(s: seq<Record>, id: string)
    requires UniqueIds(s) && FindIndex(s, id).Some?
    ensures var i := FindIndex(s, id).value;
      GetById(s[..i] + s[i + 1..], id) == Err(NotFound)
  {
    var i := FindIndex(s, id).value;
    var t := s[..i] + s[i + 1..];
    forall j | 0 <= j < |t| ensures !HasId(t[j], id) {
      if j < i {
        assert t[j] == s[j];
      } else {
        assert t[j] == s[j + 1];
      }
    }
  }

  /** Delete removes exactly the one record it returns: the rest is the old collection less that one record, in the old order. */
  lemma DeleteRemovesOne(s: seq<Record>, i: int)
    requires 0 <= i < |s|
    ensures |s[..i] + s[i + 1..]| == |s| - 1
    ensures multiset(s[..i] + s[i + 1..]) + multiset{s[i]} == multiset(s)
    ensures forall j :: 0 <= j < |s| - 1 ==> (s[..i] + s[i + 1..])[j] == if j < i then s[j] else s[j + 1]
  {
    assert s == s[..i] + [s[i]] + s[i + 1..];
  }

  /** Deleting keeps the ids unique. */
  lemma DeleteKeepsIdsUnique(s: seq<Record>, i: int)
    requires 0 <= i < |s| && UniqueIds(s)
    ensures UniqueIds(s[..i] + s[i + 1..])
  {
    var t := s[..i] + s[i + 1..];
    forall a, b | 0 <= a < b < |t| && "id" in t[a] && "id" in t[b]
      ensures t[a]["id"] != t[b]["id"]
    {
      var a', b' := if a < i then a else a + 1, if b < i then b else b + 1;
      assert t[a] == s[a'] && t[b] == s[b'];
    }
  }

  /** An update body carrying the `id` of another record makes the two records share it. */
  lemma UpdateBodyIdDuplicates(s: seq<Record>, i: int, j: int, body: Record)
    requires 0 <= i < |s| && 0 <= j < |s| && i != j
    requires "id" in s[j] && "id" in body && body["id"] == s[j]["id"]
    ensures !UniqueIds(s[i := Spread(s[i], body)])
  {
    var t := s[i := Spread(s[i], body)];
    assert t[j] == s[j] && t[i]["id"] == s[j]["id"];
    if j < i {
      assert "id" in t[j] && "id" in t[i];
    } else {
      assert "id" in t[i] && "id" in t[j];
    }
  }

  /** After an update whose body has no `id`, looking the id up gives the merged record. */
  lemma UpdateThenGet(s: seq<Record>, id: string, body: Record)
    requires FindIndex(s, id).Some? && "id" !in body
    ensures var i := FindIndex(s, id).value;
      GetById(s[i := Spread(s[i], body)], id) == Ok(Spread(s[i], body))
  {
    var i := FindIndex(s, id).value;
    var t := s[i := Spread(s[i], body)];
    assert HasId(t[i], id);
  }
}
