/**
 * Logical documents over the records of the collection, as `get_all_documents`,
 * `get_stats` and `delete_document` see them. A document stored whole has one record at its
 * id; a long one has records `<id>_chunk_<i>`. Listing groups the records of a document by
 * the part of the record id before its first `_chunk_`.
 */
module Documents {
  import opened Wrappers
  import opened Strings
  import opened Collection

  const ChunkMarker := "_chunk_"

  /** `f"{doc_id}_chunk_{i}"`. */
  function ChunkId(docId: string, i: nat): string
  {
    docId + ChunkMarker + NatToString(i)
  }

  /** The logical document a record id belongs to: `doc_id.split('_chunk_')[0]` when it has the marker. */
  function LogicalId(id: string): string
  {
    if Contains(id, ChunkMarker) then Before(id, ChunkMarker) else id
  }

  // ---------------------------------------------------------------------------------------
  // Grouping: the `main_documents` dictionary of `get_all_documents`

  /** The dictionary as keys in insertion order plus the metadata kept per key. */
  datatype Groups = Groups(order: seq<string>, meta: map<string, StoredMeta>)

  /**
   * One record: a chunk record opens its document's entry with its metadata only when there is
   * none yet; a record at a bare id replaces the entry's metadata (keeping its position).
   */
  function GroupStep(g: Groups, rec: Record): Groups
  {
    if Contains(rec.id, ChunkMarker) then
      var main := Before(rec.id, ChunkMarker);
      if main in g.meta then g else Groups(g.order + [main], g.meta[main := rec.metadata])
    else
      Groups(if rec.id in g.meta then g.order else g.order + [rec.id], g.meta[rec.id := rec.metadata])
  }

  function Group(rs: seq<Record>): Groups
    decreases |rs|
  {
    if rs == [] then Groups([], map[]) else GroupStep(Group(rs[..|rs| - 1]), rs[|rs| - 1])
  }

  /** The set `main_documents` of `get_stats`. */
  function LogicalIdSet(ids: seq<string>): set<string>
    decreases |ids|
  {
    if ids == [] then {} else LogicalIdSet(ids[..|ids| - 1]) + {LogicalId(ids[|ids| - 1])}
  }

  /** Every record id's logical id is in the set. */
  lemma {:induction false} LogicalIdSetHas(ids: seq<string>, k: nat)
    requires k < |ids|
    ensures LogicalId(ids[k]) in LogicalIdSet(ids)
    decreases |ids|
  {
    if k < |ids| - 1 {
      var init := ids[..|ids| - 1];
      LogicalIdSetHas(init, k);
      assert init[k] == ids[k];
    }
  }

  /** Every member of the set is the logical id of some record id. */
  lemma {:induction false} LogicalIdSetWitness(ids: seq<string>, x: string) returns (k: nat)
    requires x in LogicalIdSet(ids)
    ensures k < |ids| && LogicalId(ids[k]) == x
    decreases |ids|
  {
    var init := ids[..|ids| - 1];
    if x in LogicalIdSet(init) {
      k := LogicalIdSetWitness(init, x);
      assert init[k] == ids[k];
    } else {
      k := |ids| - 1;
    }
  }

  predicate DistinctSeq(s: seq<string>)
  {
    forall i, j :: 0 <= i < j < |s| ==> s[i] != s[j]
  }

  /** What the grouping keeps: one entry per logical id, each exactly once. */
  ghost predicate GroupsInv(g: Groups, ids: seq<string>)
  {
    DistinctSeq(g.order)
    && (forall x :: x in g.order <==> x in g.meta)
    && g.meta.Keys == LogicalIdSet(ids)
    && |g.order| == |LogicalIdSet(ids)|
  }

  lemma {:induction false} GroupStepKeeps(g: Groups, ids: seq<string>, rec: Record)
    requires GroupsInv(g, ids)
    ensures GroupsInv(GroupStep(g, rec), ids + [rec.id])
  {
    var all := ids + [rec.id];
    assert all[..|all| - 1] == ids;
    if LogicalId(rec.id) in g.meta {
      GroupStepSeen(g, ids, rec);
    } else {
      GroupStepNew(g, ids, rec);
    }
  }

  /** A record of a document already listed keeps the order and the key set. */
  lemma {:induction false} GroupStepSeen(g: Groups, ids: seq<string>, rec: Record)
    requires GroupsInv(g, ids) && LogicalId(rec.id) in g.meta
    requires LogicalIdSet(ids + [rec.id]) == LogicalIdSet(ids) + {LogicalId(rec.id)}
    ensures GroupsInv(GroupStep(g, rec), ids + [rec.id])
  {
    var g' := GroupStep(g, rec);
    assert g'.order == g.order && g'.meta.Keys == g.meta.Keys;
    assert LogicalIdSet(ids + [rec.id]) == LogicalIdSet(ids);
  }

  /** A record of a new document appends its logical id, once, to the order and the key set. */
  lemma {:induction false} GroupStepNew(g: Groups, ids: seq<string>, rec: Record)
    requires GroupsInv(g, ids) && LogicalId(rec.id) !in g.meta
    requires LogicalIdSet(ids + [rec.id]) == LogicalIdSet(ids) + {LogicalId(rec.id)}
    ensures GroupsInv(GroupStep(g, rec), ids + [rec.id])
  {
    var g' := GroupStep(g, rec);
    var x := LogicalId(rec.id);
    assert g'.order == g.order + [x] && g'.meta.Keys == g.meta.Keys + {x};
    assert x !in g.order;
    assert |LogicalIdSet(ids + [rec.id])| == |LogicalIdSet(ids)| + 1;
  }

  /** The grouping has one entry per logical id, none twice, and as many as `get_stats` counts. */
  lemma {:induction false} GroupInvariant(rs: seq<Record>)
    ensures GroupsInv(Group(rs), Ids(rs))
    decreases |rs|
  {
    if rs != [] {
      var init := rs[..|rs| - 1];
      GroupInvariant(init);
      assert Ids(rs) == Ids(init) + [rs[|rs| - 1].id];
      GroupStepKeeps(Group(init), Ids(init), rs[|rs| - 1]);
    }
  }

  /**
   * `get_stats().total_docs` and `get_all_documents()["total"]` agree, and the listing holds the
   * logical id of every record and nothing else.
   */
  lemma {:induction false} StatsAgreeWithListing(rs: seq<Record>)
    ensures |Group(rs).order| == |LogicalIdSet(Ids(rs))|
    ensures forall k :: 0 <= k < |rs| ==> LogicalId(rs[k].id) in Group(rs).order
    ensures forall x :: x in Group(rs).order ==> exists k :: 0 <= k < |rs| && LogicalId(rs[k].id) == x
  {
    GroupInvariant(rs);
    var ids := Ids(rs);
    forall k | 0 <= k < |rs| ensures LogicalId(rs[k].id) in Group(rs).order {
      LogicalIdSetHas(ids, k);
    }
    forall x | x in Group(rs).order ensures exists k :: 0 <= k < |rs| && LogicalId(rs[k].id) == x {
      var k := LogicalIdSetWitness(ids, x);
      assert LogicalId(rs[k].id) == x;
    }
  }

  /** Some record of document `x` comes before every record of document `y`. */
  predicate SeenBefore(rs: seq<Record>, x: string, y: string)
  {
    exists p :: 0 <= p < |rs| && LogicalId(rs[p].id) == x && forall q :: 0 <= q <= p ==> LogicalId(rs[q].id) != y
  }

  /**
   * The listing is in order of first appearance: of two listed documents, the one listed
   * first has a record in front of every record of the other.
   */
  lemma {:induction false} GroupOrderFirstSeen(rs: seq<Record>, i: nat, j: nat)
    requires i < j < |Group(rs).order|
    ensures SeenBefore(rs, Group(rs).order[i], Group(rs).order[j])
    decreases |rs|
  {
    var init := rs[..|rs| - 1];
    var last := rs[|rs| - 1];
    var g := Group(init);
    var x, y := Group(rs).order[i], Group(rs).order[j];
    GroupStepOrder(g, last);
    if j < |g.order| {
      GroupOrderFirstSeen(init, i, j);
      var p :| 0 <= p < |init| && LogicalId(init[p].id) == x
        && forall q :: 0 <= q <= p ==> LogicalId(init[q].id) != y;
      assert rs[p] == init[p];
      forall q | 0 <= q <= p ensures LogicalId(rs[q].id) != y {
        assert rs[q] == init[q];
      }
    } else {
      GroupInvariant(init);
      assert y == LogicalId(last.id) && y !in LogicalIdSet(Ids(init));
      var p := LogicalIdSetWitness(Ids(init), x);
      assert rs[p] == init[p];
      forall q | 0 <= q <= p ensures LogicalId(rs[q].id) != y {
        assert rs[q] == init[q];
        LogicalIdSetHas(Ids(init), q);
      }
    }
  }

  /** One record either keeps the order or appends the logical id of a document not yet listed. */
  lemma {:induction false} GroupStepOrder(g: Groups, rec: Record)
    ensures var g' := GroupStep(g, rec);
      g'.order == g.order
      || (LogicalId(rec.id) !in g.meta && g'.order == g.order + [LogicalId(rec.id)])
  {
  }

  /** A record at a bare id decides its document's listed metadata, wherever its chunks are. */
  lemma {:induction false} GroupMetaOfBareRecord(rs: seq<Record>, k: nat)
    requires DistinctIds(rs) && k < |rs| && !Contains(rs[k].id, ChunkMarker)
    ensures rs[k].id in Group(rs).meta && Group(rs).meta[rs[k].id] == rs[k].metadata
    decreases |rs|
  {
    var init := rs[..|rs| - 1];
    if k < |rs| - 1 {
      assert init[k] == rs[k];
      GroupMetaOfBareRecord(init, k);
      assert rs[|rs| - 1].id != rs[k].id;
    }
  }

  /**
   * A document without a record at its bare id is listed with the metadata of its first chunk
   * record in store order.
   */
  lemma {:induction false} GroupMetaOfFirstChunk(rs: seq<Record>, j: nat)
    requires j < |rs|
    requires forall i :: 0 <= i < j ==> LogicalId(rs[i].id) != LogicalId(rs[j].id)
    requires forall i :: 0 <= i < |rs| ==> rs[i].id != LogicalId(rs[j].id)
    ensures var x := LogicalId(rs[j].id);
      x in Group(rs).meta && Group(rs).meta[x] == rs[j].metadata
    decreases |rs|
  {
    var x := LogicalId(rs[j].id);
    var init := rs[..|rs| - 1];
    if j == |rs| - 1 {
      GroupInvariant(init);
      if x in LogicalIdSet(Ids(init)) {
        var i := LogicalIdSetWitness(Ids(init), x);
        assert false;
      }
    } else {
      assert init[j] == rs[j];
      forall i | 0 <= i < j ensures LogicalId(init[i].id) != x {
        assert init[i] == rs[i];
      }
      GroupMetaOfFirstChunk(init, j);
    }
  }

  // ---------------------------------------------------------------------------------------
  // Logical ids

  /** No occurrence of the marker before position `k`. */
  lemma {:induction false} NotContainsNowhere(s: string, pat: string, j: nat)
    requires !Contains(s, pat)
    ensures !OccursAt(s, pat, j)
  {
  }

  /** A logical id never carries the marker. */
  lemma {:induction false} LogicalIdIsFree(id: string)
    ensures !Contains(LogicalId(id), ChunkMarker)
  {
    if Contains(id, ChunkMarker) {
      var k := Find(id, ChunkMarker).value;
      BeforeAtFirst(id, ChunkMarker, k);
      PrefixBeforeFirstIsFree(id, ChunkMarker, k);
    }
  }

  /** A logical id is its own logical id. */
  lemma {:induction false} LogicalIdIdempotent(id: string)
    ensures LogicalId(LogicalId(id)) == LogicalId(id)
  {
    LogicalIdIsFree(id);
  }

  /**
   * An occurrence of the marker that starts inside `docId` and runs into a following marker
   * can only start six characters from the end, with `docId` ending in `_chunk`.
   */
  lemma {:induction false} MarkerStraddles(docId: string, s: string, p: nat)
    requires |docId| + 7 <= |s| && s[..|docId|] == docId && s[|docId|..|docId| + 7] == ChunkMarker
    requires |docId| < p + 7 && p < |docId| && OccursAt(s, ChunkMarker, p)
    ensures p == |docId| - 6 && docId[|docId| - 6..] == "_chunk"
  {
    var n := |docId|;
    assert s[p..p + 7][n - p] == s[n] == s[n..n + 7][0];
    assert s[..n][p..] == s[p..n] == s[p..p + 7][..n - p];
  }

  /** A document id its chunk ids group back to: no marker in it, and no `_chunk` at its end. */
  predicate GroupableDocId(docId: string)
  {
    !Contains(docId, ChunkMarker) && !(|docId| >= 6 && docId[|docId| - 6..] == "_chunk")
  }

  /**
   * A chunk id groups back to its document, unless the document id already carries the marker
   * or ends in `_chunk` (then `_chunk` and the marker's leading `_` overlap).
   */
  lemma {:induction false} ChunkIdGroupsToDocument(docId: string, i: nat)
    requires GroupableDocId(docId)
    ensures LogicalId(ChunkId(docId, i)) == docId
  {
    var s := ChunkId(docId, i);
    var n := |docId|;
    assert s[n..n + 7] == ChunkMarker;
    assert s[..n] == docId;
    forall p | 0 <= p < n ensures !OccursAt(s, ChunkMarker, p) {
      if p + 7 <= n {
        NotContainsNowhere(docId, ChunkMarker, p);
        assert s[p..p + 7] == s[..n][p..p + 7];
      } else if OccursAt(s, ChunkMarker, p) {
        MarkerStraddles(docId, s, p);
        assert false;
      }
    }
    assert OccursAt(s, ChunkMarker, n);
    assert FindFrom(s, ChunkMarker, 0).Some?;
    var k := Find(s, ChunkMarker).value;
    assert k == n;
    BeforeAtFirst(s, ChunkMarker, n);
    assert s[..n] == docId;
  }

  /** Record ids that `delete_document(docId)` removes: `id.startswith(f"{doc_id}_chunk_")`, or `docId`. */
  predicate DeletedBy(id: string, docId: string)
  {
    StartsWith(id, docId + ChunkMarker) || id == docId
  }

  /** Every record id that groups to `docId` is one `delete_document(docId)` removes. */
  lemma {:induction false} GroupedIdsAreDeleted(id: string, docId: string)
    requires LogicalId(id) == docId
    ensures DeletedBy(id, docId)
  {
    if Contains(id, ChunkMarker) {
      var k := Find(id, ChunkMarker).value;
      BeforeAtFirst(id, ChunkMarker, k);
      assert id[..k + 7] == docId + ChunkMarker;
    }
  }

  // ---------------------------------------------------------------------------------------
  // Pagination

  /** A Python slice bound `i` for a list of length `n`: negative counts from the end, then clamped. */
  function SliceBound(i: int, n: nat): (r: nat)
    ensures r <= n
    ensures 0 <= i <= n ==> r == i
  {
    if i < 0 then (if i + n < 0 then 0 else i + n) else if i > n then n else i
  }

  /** `s[i:j]`. */
  function PySlice<T>(s: seq<T>, i: int, j: int): (r: seq<T>)
    ensures |r| <= |s|
  {
    var a := SliceBound(i, |s|);
    var b := SliceBound(j, |s|);
    if a < b then s[a..b] else []
  }

  /** What `get_all_documents` returns. */
  datatype Listing = Listing(ids: seq<string>, metadatas: seq<StoredMeta>, total: int)

  /** `main_doc_list[offset:min(offset + limit, total)]`, with each entry's id and metadata. */
  function PageOf(g: Groups, limit: int, offset: int): Listing
    requires forall x :: x in g.order ==> x in g.meta
  {
    var total := |g.order|;
    var page := PySlice(g.order, offset, if offset + limit < total then offset + limit else total);
    Listing(page, seq(|page|, k requires 0 <= k < |page| => g.meta[page[k]]), total)
  }

  function ListingOf(rs: seq<Record>, limit: int, offset: int, fault: bool): Listing
  {
    if fault then Listing([], [], 0)
    else
      GroupInvariant(rs);
      PageOf(Group(rs), limit, offset)
  }

  /** For a non-negative offset and limit a page is the window `[offset, offset + limit)`. */
  lemma {:induction false} PageWindow(g: Groups, limit: int, offset: int)
    requires forall x :: x in g.order ==> x in g.meta
    requires 0 <= limit && 0 <= offset
    ensures var l := PageOf(g, limit, offset);
      var n := |g.order|;
      l.total == n
      && l.ids == (if offset < n then g.order[offset..if offset + limit < n then offset + limit else n] else [])
      && |l.ids| <= limit && |l.metadatas| == |l.ids|
      && (forall k :: 0 <= k < |l.ids| ==> l.ids[k] in g.meta && l.metadatas[k] == g.meta[l.ids[k]])
  {
  }

  /** A page holds entries of the grouping, none twice when the grouping has none twice. */
  lemma {:induction false} PageEntries(g: Groups, limit: int, offset: int)
    requires forall x :: x in g.order ==> x in g.meta
    ensures var l := PageOf(g, limit, offset);
      (forall k :: 0 <= k < |l.ids| ==> l.ids[k] in g.order)
      && (DistinctSeq(g.order) ==> DistinctSeq(l.ids))
  {
    var n := |g.order|;
    var a := SliceBound(offset, n);
    var b := SliceBound(if offset + limit < n then offset + limit else n, n);
    var ids := PageOf(g, limit, offset).ids;
    assert ids == if a < b then g.order[a..b] else [];
    forall k | 0 <= k < |ids| ensures ids[k] in g.order {
      assert ids[k] == g.order[a + k];
    }
    if DistinctSeq(g.order) {
      forall i, j | 0 <= i < j < |ids| ensures ids[i] != ids[j] {
        assert ids[i] == g.order[a + i] && ids[j] == g.order[a + j];
      }
    }
  }

  /**
   * For a non-negative offset and limit the listing is the window `[offset, offset + limit)` of
   * the logical documents in first-seen order, each with the metadata its group kept, and its
   * total is the number of distinct logical ids, as `get_stats` counts them.
   */
  lemma {:induction false} ListingPage(rs: seq<Record>, limit: int, offset: int)
    requires 0 <= limit && 0 <= offset
    ensures var l := ListingOf(rs, limit, offset, false);
      var g := Group(rs);
      var n := |g.order|;
      l.total == n == |LogicalIdSet(Ids(rs))|
      && l.ids == (if offset < n then g.order[offset..if offset + limit < n then offset + limit else n] else [])
      && |l.ids| <= limit && |l.metadatas| == |l.ids|
      && (forall k :: 0 <= k < |l.ids| ==> l.ids[k] in g.meta && l.metadatas[k] == g.meta[l.ids[k]])
  {
    GroupInvariant(rs);
    PageWindow(Group(rs), limit, offset);
  }

  /** The listed ids are distinct logical ids of stored records, none carrying the marker. */
  lemma {:induction false} ListingIdsAreLogical(rs: seq<Record>, limit: int, offset: int)
    ensures var l := ListingOf(rs, limit, offset, false);
      DistinctSeq(l.ids)
      && forall k :: 0 <= k < |l.ids| ==>
           !Contains(l.ids[k], ChunkMarker)
           && exists j :: 0 <= j < |rs| && LogicalId(rs[j].id) == l.ids[k]
  {
    var g := Group(rs);
    GroupInvariant(rs);
    StatsAgreeWithListing(rs);
    PageEntries(g, limit, offset);
    var ids := PageOf(g, limit, offset).ids;
    forall k | 0 <= k < |ids|
      ensures !Contains(ids[k], ChunkMarker) && exists j :: 0 <= j < |rs| && LogicalId(rs[j].id) == ids[k]
    {
      var j :| 0 <= j < |rs| && LogicalId(rs[j].id) == ids[k];
      LogicalIdIsFree(rs[j].id);
    }
  }

  // ---------------------------------------------------------------------------------------
  // Statistics

  /** The one collection the manager uses. */
  const CollectionName := "knowledge"

  /** What `get_stats` returns: `total_docs`, `collections` and each collection's `count`. */
  datatype Stats = Stats(totalDocs: nat, collections: seq<string>, collectionStats: map<string, nat>)

  /** On an error the counters keep their initial values: no documents and no per-collection entry. */
  function StatsOf(rs: seq<Record>, fault: bool): Stats
  {
    if fault then Stats(0, [CollectionName], map[])
    else
      var n := |LogicalIdSet(Ids(rs))|;
      Stats(n, [CollectionName], map[CollectionName := n])
  }

  /** `get_stats` counts the documents `get_all_documents` lists, whatever page is asked for. */
  lemma {:induction false} StatsCountListedDocuments(rs: seq<Record>, limit: int, offset: int)
    ensures var st := StatsOf(rs, false);
      st.totalDocs == ListingOf(rs, limit, offset, false).total == |Group(rs).order|
      && CollectionName in st.collectionStats && st.collectionStats[CollectionName] == st.totalDocs
  {
    StatsAgreeWithListing(rs);
  }

  // ---------------------------------------------------------------------------------------
  // Deletion

  /** `[id for id in ids if id.startswith(f"{doc_id}_chunk_")]`. */
  function ChunkIdsOf(ids: seq<string>, docId: string): (r: seq<string>)
    ensures forall x :: x in r <==> x in ids && StartsWith(x, docId + ChunkMarker)
    decreases |ids|
  {
    if ids == [] then []
    else
      var init := ChunkIdsOf(ids[..|ids| - 1], docId);
      var last := ids[|ids| - 1];
      assert ids == ids[..|ids| - 1] + [last];
      if StartsWith(last, docId + ChunkMarker) then init + [last] else init
  }

  /** Which collection call of `delete_document` raises, if any. */
  datatype DeleteFault = NoFault | OnGet | OnChunkDelete | OnBareDelete | OnVerify

  datatype DeleteOutcome = DeleteOutcome(ok: bool, store: seq<Record>)

  /**
   * `delete_document(doc_id)`: the chunk records go first (one `delete` call, made only when
   * there are any), then the bare id, then a `get(ids=[doc_id])` decides the answer. A call that
   * raises ends the operation with `False`, keeping whatever the calls before it did.
   */
  function DeleteOf(rs: seq<Record>, docId: string, fault: DeleteFault): DeleteOutcome
  {
    if fault == OnGet then DeleteOutcome(false, rs)
    else
      var chunkIds := ChunkIdsOf(Ids(rs), docId);
      if chunkIds != [] && fault == OnChunkDelete then DeleteOutcome(false, rs)
      else
        var withoutChunks := if chunkIds != [] then DeleteIds(rs, chunkIds) else rs;
        if fault == OnBareDelete then DeleteOutcome(false, withoutChunks)
        else
          var after := DeleteIds(withoutChunks, [docId]);
          if fault == OnVerify then DeleteOutcome(false, after)
          else DeleteOutcome(GetIds(after, [docId]) == [], after)
  }

  /**
   * When the calls go through, deletion removes exactly the records at `docId` and at ids
   * starting with `docId + "_chunk_"`, keeps every other record, and reports success.
   */
  lemma {:induction false} DeleteRemovesExactly(rs: seq<Record>, docId: string)
    ensures var out := DeleteOf(rs, docId, NoFault);
      out.ok
      && docId !in Ids(out.store)
      && forall r :: r in out.store <==> r in rs && !DeletedBy(r.id, docId)
  {
    var chunkIds := ChunkIdsOf(Ids(rs), docId);
    var withoutChunks := if chunkIds != [] then DeleteIds(rs, chunkIds) else rs;
    var after := DeleteIds(withoutChunks, [docId]);
    assert DeleteOf(rs, docId, NoFault) == DeleteOutcome(GetIds(after, [docId]) == [], after);
    assert forall r :: r in rs && StartsWith(r.id, docId + ChunkMarker) ==> r.id in chunkIds by {
      forall r | r in rs && StartsWith(r.id, docId + ChunkMarker) ensures r.id in chunkIds {
        var k :| 0 <= k < |rs| && rs[k] == r;
        assert Ids(rs)[k] == r.id;
      }
    }
    assert forall r :: r in withoutChunks <==> r in rs && !StartsWith(r.id, docId + ChunkMarker);
    assert docId !in Ids(after) by {
      forall k | 0 <= k < |after| ensures Ids(after)[k] != docId {
        assert after[k] in after;
      }
    }
    GetIdsOfAbsent(after, [docId]);
  }

  /** The answer is `True` exactly when no call raised. */
  lemma {:induction false} DeleteAnswer(rs: seq<Record>, docId: string, fault: DeleteFault)
    ensures DeleteOf(rs, docId, fault).ok <==>
      (fault == NoFault || (fault == OnChunkDelete && ChunkIdsOf(Ids(rs), docId) == []))
  {
    if fault == NoFault || (fault == OnChunkDelete && ChunkIdsOf(Ids(rs), docId) == []) {
      var out := DeleteOf(rs, docId, NoFault);
      DeleteRemovesExactly(rs, docId);
      assert GetIds(out.store, [docId]) == [];
    }
  }

  /** A failure before any deletion leaves the collection as it was. */
  lemma {:induction false} DeleteEarlyFailureKeepsStore(rs: seq<Record>, docId: string, fault: DeleteFault)
    requires fault == OnGet || (fault == OnChunkDelete && ChunkIdsOf(Ids(rs), docId) != [])
    ensures DeleteOf(rs, docId, fault).store == rs
  {
  }

  /** After a successful deletion the document is gone from the listing. */
  lemma {:induction false} DeletedDocumentUnlisted(rs: seq<Record>, docId: string)
    ensures docId !in Group(DeleteOf(rs, docId, NoFault).store).order
  {
    var store := DeleteOf(rs, docId, NoFault).store;
    DeleteRemovesExactly(rs, docId);
    StatsAgreeWithListing(store);
    if docId in Group(store).order {
      var k :| 0 <= k < |store| && LogicalId(store[k].id) == docId;
      GroupedIdsAreDeleted(store[k].id, docId);
      assert false;
    }
  }
}
