/**
 * The Chroma collection "knowledge", as `ChromaManager` uses it: an ordered sequence of
 * records with distinct ids, read with `get()`, `get(where={"hash": h})` and
 * `get(ids=[...])`, extended with `add` and shrunk with `delete`. Embeddings and similarity
 * search live inside Chroma and are not part of this model.
 */
module Collection {
  import opened Wrappers

  /** The flat metadata `add_pdf` stores for every record of a document. */
  datatype SimpleMeta = SimpleMeta(title: string, author: string, source: string, hash: string, file: string)

  /** A record's metadata: the simple metadata alone, or with the `chunk` and `chunks` keys. */
  datatype StoredMeta =
    | Whole(meta: SimpleMeta)
    | Part(meta: SimpleMeta, chunk: nat, chunks: nat)

  datatype Record = Record(id: string, document: string, metadata: StoredMeta)

  /** `results["ids"]` of a `get`: the ids in store order. */
  function Ids(rs: seq<Record>): (r: seq<string>)
    ensures |r| == |rs| && forall k :: 0 <= k < |rs| ==> r[k] == rs[k].id
    decreases |rs|
  {
    if rs == [] then [] else Ids(rs[..|rs| - 1]) + [rs[|rs| - 1].id]
  }

  /** Chroma keeps ids unique within a collection. */
  predicate DistinctIds(rs: seq<Record>)
  {
    forall i, j :: 0 <= i < j < |rs| ==> rs[i].id != rs[j].id
  }

  /** `collection.get(where={"hash": h})`: the records whose `hash` is `h`, in store order. */
  function WhereHash(rs: seq<Record>, h: string): (r: seq<Record>)
    ensures forall x :: x in r <==> x in rs && x.metadata.meta.hash == h
    decreases |rs|
  {
    if rs == [] then []
    else
      var init := WhereHash(rs[..|rs| - 1], h);
      var last := rs[|rs| - 1];
      assert rs == rs[..|rs| - 1] + [last];
      if last.metadata.meta.hash == h then init + [last] else init
  }

  /** `collection.add` of one record; an id already present leaves the collection as it was. */
  function AddRecord(rs: seq<Record>, rec: Record): seq<Record>
  {
    if rec.id in Ids(rs) then rs else rs + [rec]
  }

  /** A sequence of single-record `add` calls, in order. */
  function AddAll(rs: seq<Record>, recs: seq<Record>): seq<Record>
    decreases |recs|
  {
    if recs == [] then rs else AddRecord(AddAll(rs, recs[..|recs| - 1]), recs[|recs| - 1])
  }

  /** `collection.delete(ids=ids)`: every record whose id is listed goes, the others stay in order. */
  function DeleteIds(rs: seq<Record>, ids: seq<string>): (r: seq<Record>)
    ensures forall x :: x in r <==> x in rs && x.id !in ids
    decreases |rs|
  {
    if rs == [] then []
    else
      var init := DeleteIds(rs[..|rs| - 1], ids);
      var last := rs[|rs| - 1];
      assert rs == rs[..|rs| - 1] + [last];
      if last.id in ids then init else init + [last]
  }

  /** `collection.get(ids=ids)["ids"]`: the listed ids that are present, in store order. */
  function GetIds(rs: seq<Record>, ids: seq<string>): (r: seq<string>)
    ensures forall x :: x in r <==> x in ids && x in Ids(rs)
    decreases |rs|
  {
    if rs == [] then []
    else
      var init := GetIds(rs[..|rs| - 1], ids);
      var last := rs[|rs| - 1];
      assert Ids(rs) == Ids(rs[..|rs| - 1]) + [last.id];
      if last.id in ids then init + [last.id] else init
  }

  /** The hash query over two stretches of records is the two answers in order. */
  lemma {:induction false} WhereHashAppend(a: seq<Record>, b: seq<Record>, h: string)
    ensures WhereHash(a + b, h) == WhereHash(a, h) + WhereHash(b, h)
    decreases |b|
  {
    if b == [] {
      assert a + b == a;
    } else {
      var init := b[..|b| - 1];
      WhereHashAppend(a, init, h);
      assert (a + b)[..|a + b| - 1] == a + init;
    }
  }

  /** Records that all carry the hash are all found, in order. */
  lemma {:induction false} WhereHashAll(rs: seq<Record>, h: string)
    requires forall r :: r in rs ==> r.metadata.meta.hash == h
    ensures WhereHash(rs, h) == rs
    decreases |rs|
  {
    if rs != [] {
      WhereHashAll(rs[..|rs| - 1], h);
      assert rs[..|rs| - 1] + [rs[|rs| - 1]] == rs;
    }
  }

  /** A stored record with the hash makes the query answer, first with that one or an earlier one. */
  lemma {:induction false} WhereHashFirst(rs: seq<Record>, h: string, k: nat)
    requires k < |rs| && rs[k].metadata.meta.hash == h
    ensures WhereHash(rs, h) != []
    ensures exists j :: 0 <= j <= k && WhereHash(rs, h)[0] == rs[j]
    decreases |rs|
  {
    var init := rs[..|rs| - 1];
    if k < |rs| - 1 {
      WhereHashFirst(init, h, k);
      var j :| 0 <= j <= k && WhereHash(init, h)[0] == init[j];
      assert rs[j] == init[j];
    } else if WhereHash(init, h) != [] {
      var first := WhereHash(init, h)[0];
      assert first in WhereHash(init, h);
      var j :| 0 <= j < |init| && init[j] == first;
      assert rs[j] == init[j];
    } else {
      assert WhereHash(rs, h)[0] == rs[k];
    }
  }

  /** Asking for ids none of which is present gives nothing back. */
  lemma {:induction false} GetIdsOfAbsent(rs: seq<Record>, ids: seq<string>)
    requires forall x :: x in ids ==> x !in Ids(rs)
    ensures GetIds(rs, ids) == []
    decreases |rs|
  {
    if rs != [] {
      var init := rs[..|rs| - 1];
      assert Ids(rs) == Ids(init) + [rs[|rs| - 1].id];
      GetIdsOfAbsent(init, ids);
    }
  }

  /** Adding records whose ids are distinct and new appends them, in order. */
  lemma {:induction false} AddAllFresh(rs: seq<Record>, recs: seq<Record>)
    requires DistinctIds(recs)
    requires forall k :: 0 <= k < |recs| ==> recs[k].id !in Ids(rs)
    ensures AddAll(rs, recs) == rs + recs
    decreases |recs|
  {
    if recs != [] {
      var init := recs[..|recs| - 1];
      var last := recs[|recs| - 1];
      assert DistinctIds(init);
      AddAllFresh(rs, init);
      assert AddAll(rs, recs) == AddRecord(rs + init, last);
      forall k | 0 <= k < |rs + init| ensures Ids(rs + init)[k] != last.id {
        if k >= |rs| {
          assert (rs + init)[k] == recs[k - |rs|];
        }
      }
      assert (rs + init) + [last] == rs + recs;
    }
  }

  /** Adding keeps ids unique: that is what ignoring an existing id amounts to. */
  lemma {:induction false} AddAllKeepsDistinct(rs: seq<Record>, recs: seq<Record>)
    requires DistinctIds(rs)
    ensures DistinctIds(AddAll(rs, recs))
    decreases |recs|
  {
    if recs != [] {
      var before := AddAll(rs, recs[..|recs| - 1]);
      AddAllKeepsDistinct(rs, recs[..|recs| - 1]);
      var rec := recs[|recs| - 1];
      if rec.id !in Ids(before) {
        forall i | 0 <= i < |before| ensures before[i].id != rec.id {
          assert Ids(before)[i] == before[i].id;
        }
      }
    }
  }

  /** Adding never loses a record. */
  lemma {:induction false} AddAllKeeps(rs: seq<Record>, recs: seq<Record>)
    ensures forall x :: x in rs ==> x in AddAll(rs, recs)
    decreases |recs|
  {
    if recs != [] {
      AddAllKeeps(rs, recs[..|recs| - 1]);
    }
  }

  /** Deleting keeps the survivors' relative order, and so keeps ids unique. */
  lemma {:induction false} DeleteIdsKeepsDistinct(rs: seq<Record>, ids: seq<string>)
    requires DistinctIds(rs)
    ensures DistinctIds(DeleteIds(rs, ids))
    decreases |rs|
  {
    if rs != [] {
      var init := rs[..|rs| - 1];
      var last := rs[|rs| - 1];
      assert DistinctIds(init);
      DeleteIdsKeepsDistinct(init, ids);
      var r := DeleteIds(init, ids);
      forall x | x in r ensures x.id != last.id {
        var i :| 0 <= i < |init| && init[i] == x;
        assert rs[i] == x;
      }
    }
  }
}
