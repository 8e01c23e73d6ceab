/** The part of a vector-database collection the storage client relies on:
    records keyed by identifier, read back by identifier, written by
    upsert. Embeddings, distances and persistence are not modelled; a
    query's answer is an input of the search instead. */
module Collections {

  import opened Wrappers
  import opened Text

  /** One stored record: its identifier, its document text and its flat
      string metadata. */
  datatype Record = Record(id: string, document: string, metadata: map<string, string>)

  /** A collection, in the order in which its records are listed. */
  type Collection = seq<Record>

  function Ids(c: Collection): (ids: seq<string>)
    ensures |ids| == |c|
    ensures forall k :: 0 <= k < |c| ==> ids[k] == c[k].id
  {
    if c == [] then [] else [c[0].id] + Ids(c[1..])
  }

  /** A collection holds at most one record per identifier. */
  predicate UniqueIds(c: Collection)
  {
    Distinct(Ids(c))
  }

  /** `get(ids=[id])`: the record stored under `id`, if any. */
  function Lookup(c: Collection, id: string): (r: Option<Record>)
    ensures r.Some? ==> r.value in c && r.value.id == id
    ensures r.None? <==> id !in Ids(c)
  {
    if c == [] then None
    else if c[0].id == id then Some(c[0])
    else
      assert Ids(c) == [c[0].id] + Ids(c[1..]);
      Lookup(c[1..], id)
  }

  /** `upsert` of one record: it replaces the record with the same
      identifier where that one was listed, or is listed last. */
  function Upsert(c: Collection, rec: Record): (r: Collection)
    ensures |r| == |c| || |r| == |c| + 1
  {
    if c == [] then [rec]
    else if c[0].id == rec.id then [rec] + c[1..]
    else [c[0]] + Upsert(c[1..], rec)
  }

  /** `upsert` of several records, one after the other. */
  function UpsertAll(c: Collection, recs: seq<Record>): (r: Collection)
    ensures |r| <= |c| + |recs|
  {
    if recs == [] then c
    else Upsert(UpsertAll(c, recs[..|recs| - 1]), recs[|recs| - 1])
  }

  /** After an upsert the record is found under its identifier, and every
      other identifier finds what it found before. */
  lemma {:induction false} UpsertLookup(c: Collection, rec: Record, id: string)
    ensures Lookup(Upsert(c, rec), id) == if id == rec.id then Some(rec) else Lookup(c, id)
  {
    if c != [] && c[0].id != rec.id {
      UpsertLookup(c[1..], rec, id);
      assert Upsert(c, rec) == [c[0]] + Upsert(c[1..], rec);
    }
  }

  /** The identifiers of a collection with one more record in front. */
  lemma IdsCons(rec: Record, c: Collection)
    ensures Ids([rec] + c) == [rec.id] + Ids(c)
  {
    assert ([rec] + c)[1..] == c;
  }

  /** The identifiers of a collection with one more record listed last. */
  lemma {:induction false} IdsSnoc(c: Collection, rec: Record)
    ensures Ids(c + [rec]) == Ids(c) + [rec.id]
  {
    if c != [] {
      assert (c + [rec])[1..] == c[1..] + [rec];
      IdsSnoc(c[1..], rec);
    }
  }

  /** An upsert keeps the listing order: the identifiers stay where they
      were, and a new one is listed last. */
  lemma {:induction false} UpsertIds(c: Collection, rec: Record)
    ensures Ids(Upsert(c, rec)) == if rec.id in Ids(c) then Ids(c) else Ids(c) + [rec.id]
  {
    if c == [] {
      assert Ids([rec]) == [rec.id];
    } else {
      var tail := c[1..];
      assert c == [c[0]] + tail;
      IdsCons(c[0], tail);
      if c[0].id == rec.id {
        IdsCons(rec, tail);
      } else {
        UpsertIds(tail, rec);
        IdsCons(c[0], Upsert(tail, rec));
        assert rec.id in Ids(c) <==> rec.id in Ids(tail);
      }
    }
  }

  /** An upsert keeps identifiers unique. */
  lemma UpsertKeepsUnique(c: Collection, rec: Record)
    requires UniqueIds(c)
    ensures UniqueIds(Upsert(c, rec))
  {
    UpsertIds(c, rec);
  }

  /** Upserting records with distinct identifiers: each is found under its
      identifier, and identifiers not among them find what they found
      before. */
  lemma {:induction false} UpsertAllLookup(c: Collection, recs: seq<Record>, id: string)
    requires UniqueIds(recs)
    ensures id !in Ids(recs) ==> Lookup(UpsertAll(c, recs), id) == Lookup(c, id)
    ensures forall k :: 0 <= k < |recs| && recs[k].id == id ==> Lookup(UpsertAll(c, recs), id) == Some(recs[k])
  {
    if recs != [] {
      var n := |recs| - 1;
      var init := recs[..n];
      assert recs == init + [recs[n]];
      IdsSnoc(init, recs[n]);
      UpsertAllLookup(c, init, id);
      UpsertLookup(UpsertAll(c, init), recs[n], id);
      forall k | 0 <= k < |recs| && recs[k].id == id
        ensures Lookup(UpsertAll(c, recs), id) == Some(recs[k])
      {
        if k < n {
          assert Ids(recs)[k] == id;
          assert recs[n].id != id;
          assert init[k] == recs[k];
        }
      }
    }
  }

  /** Upserting records with distinct identifiers keeps identifiers
      unique. */
  lemma {:induction false} UpsertAllKeepsUnique(c: Collection, recs: seq<Record>)
    requires UniqueIds(c)
    ensures UniqueIds(UpsertAll(c, recs))
  {
    if recs != [] {
      UpsertAllKeepsUnique(c, recs[..|recs| - 1]);
      UpsertKeepsUnique(UpsertAll(c, recs[..|recs| - 1]), recs[|recs| - 1]);
    }
  }

  /** Looking up in a collection with one more record listed last: the
      earlier records are searched first. */
  lemma {:induction false} LookupSnoc(c: Collection, rec: Record, id: string)
    ensures Lookup(c + [rec], id) ==
      if id in Ids(c) then Lookup(c, id) else if rec.id == id then Some(rec) else None
  {
    if c != [] {
      assert Ids(c) == [c[0].id] + Ids(c[1..]);
      assert (c + [rec])[1..] == c[1..] + [rec];
      if c[0].id != id {
        LookupSnoc(c[1..], rec, id);
      }
    }
  }

  /** With one record per identifier, each record is the one found under
      its identifier. */
  lemma {:induction false} LookupUnique(c: Collection, k: int)
    requires UniqueIds(c) && 0 <= k < |c|
    ensures Lookup(c, c[k].id) == Some(c[k])
  {
    if k > 0 {
      assert Ids(c)[0] != Ids(c)[k];
      assert Ids(c[1..]) == Ids(c)[1..];
      LookupUnique(c[1..], k - 1);
    }
  }
}
