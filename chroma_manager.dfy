/**
 * `ChromaManager`: the adapter between the application and its one Chroma collection. The
 * collection is the field `collection`, the records in store order; `add_pdf` and
 * `delete_document` change it, `get_all_documents` and `get_stats` read it. Each method is
 * proved to do what the specification functions of the `Ingest` and `Documents` modules say.
 * `_chunk_text` uses no state and is `Chunker.ChunkText`.
 */
module Manager {
  import opened Wrappers
  import opened Strings
  import opened Chunker
  import opened PdfProcessor
  import opened Collection
  import opened Documents
  import opened Ingest

  class ChromaManager {
    var collection: seq<Record>
    const collectionName: string

    /** Chroma keeps the ids of a collection unique. */
    ghost predicate Valid()
      reads this
    {
      DistinctIds(collection) && collectionName == CollectionName
    }

    /** A manager attached to a collection that already holds `records`. */
    constructor (records: seq<Record>)
      requires DistinctIds(records)
      ensures Valid() && collection == records
    {
      collection := records;
      collectionName := CollectionName;
    }

    /** `add_pdf(pdf_path, metadata)`. */
    method AddPdf(path: string, caller: map<string, string>, file: PdfFile, today: string,
                  patterns: AuthorPatterns, md5: string -> string, dedupFault: bool, addFault: Option<nat>)
      returns (result: AddResult)
      requires Valid()
      modifies this
      ensures Valid()
      ensures AddOutcome(result, collection)
        == IngestOf(old(collection), path, caller, file, today, patterns, md5, dedupFault, addFault)
    {
      ghost var rs := collection;
      ghost var plan := PlanOf(path, caller, file, today, patterns, md5);
      var text := ExtractText(file);
      if |text| < MinTextLength {
        return Rejected(InsufficientText, None);
      }
      var contentHash := md5(text);
      var simpleMetadata, docId := PrepareMetadata(path, caller, file, today, patterns, contentHash);
      assert plan == Plan(text, docId, simpleMetadata, RecordsOf(text, docId, simpleMetadata));

      if !dedupFault {
        var results := WhereHash(collection, contentHash);
        if |results| > 0 {
          return Rejected(Duplicate, Some(results[0].id));
        }
      }
      var failed := StoreDocument(text, docId, simpleMetadata, addFault);
      if failed {
        return Rejected(StoreError, None);
      }
      return Added(docId, simpleMetadata);
    }

    /** The metadata steps of `add_pdf`: extract, merge the caller's keys, simplify, derive the id. */
    method PrepareMetadata(path: string, caller: map<string, string>, file: PdfFile, today: string,
                           patterns: AuthorPatterns, contentHash: string)
      returns (simpleMetadata: SimpleMeta, docId: string)
      ensures var merged := Merge(MetadataOf(path, file, today, patterns), caller);
        simpleMetadata == SimpleOf(merged, contentHash, path) && docId == DocIdOf(merged, path, contentHash)
    {
      var pdfMetadata := ExtractMetadata(path, file, today, patterns);
      if |caller| > 0 {
        pdfMetadata := Merge(pdfMetadata, caller);
      } else {
        assert Merge(pdfMetadata, caller) == pdfMetadata;
      }
      simpleMetadata := SimpleOf(pdfMetadata, contentHash, path);
      docId := DocIdOf(pdfMetadata, path, contentHash);
    }

    /**
     * The storing steps of `add_pdf`: the chunk records, or the one whole record. `failed` says
     * the `addFault`-th `add` raised, after the earlier ones stored their records.
     */
    method StoreDocument(text: string, docId: string, simpleMetadata: SimpleMeta, addFault: Option<nat>)
      returns (failed: bool)
      requires Valid()
      modifies this
      ensures Valid()
      ensures var recs := RecordsOf(text, docId, simpleMetadata);
        failed == (addFault.Some? && addFault.value < |recs|)
        && collection == AddAll(old(collection), if failed then recs[..addFault.value] else recs)
    {
      ghost var rs := collection;
      if |text| > MaxChunkSize {
        var chunks := ChunkText(text, MaxChunkSize);
        failed := AddChunks(docId, chunks, simpleMetadata, addFault);
        ghost var recs := ChunkRecords(docId, chunks, simpleMetadata);
        AddAllKeepsDistinct(rs, if failed then recs[..addFault.value] else recs);
      } else {
        ghost var recs := [Record(docId, text, Whole(simpleMetadata))];
        if addFault.Some? && addFault.value == 0 {
          assert recs[..0] == [];
          return true;
        }
        collection := AddRecord(collection, Record(docId, text, Whole(simpleMetadata)));
        assert collection == AddAll(rs, recs);
        AddAllKeepsDistinct(rs, recs);
        failed := false;
      }
    }

    /**
     * The chunk loop of `add_pdf`: one `add` per chunk, in order; when the `k`-th call raises,
     * the first `k` records stay stored.
     */
    method AddChunks(docId: string, chunks: seq<string>, simpleMetadata: SimpleMeta, addFault: Option<nat>)
      returns (failed: bool)
      modifies this
      ensures var recs := ChunkRecords(docId, chunks, simpleMetadata);
        failed == (addFault.Some? && addFault.value < |recs|)
        && collection == AddAll(old(collection), if failed then recs[..addFault.value] else recs)
    {
      ghost var rs := collection;
      ghost var recs := ChunkRecords(docId, chunks, simpleMetadata);
      for i := 0 to |chunks|
        invariant addFault.Some? ==> addFault.value >= i
        invariant collection == AddAll(rs, recs[..i])
      {
        var chunkId := ChunkId(docId, i);
        var chunkMetadata := Part(simpleMetadata, i, |chunks|);
        if addFault.Some? && addFault.value == i {
          return true;
        }
        ChunkRecordsStep(rs, docId, chunks, simpleMetadata, i);
        collection := AddRecord(collection, Record(chunkId, chunks[i], chunkMetadata));
      }
      assert recs[..|chunks|] == recs;
      return false;
    }

    /** `get_all_documents(limit=limit, offset=offset)`; `fault` makes `collection.get()` raise. */
    method GetAllDocuments(limit: int, offset: int, fault: bool) returns (listing: Listing)
      ensures listing == ListingOf(collection, limit, offset, fault)
    {
      if fault {
        return Listing([], [], 0);
      }
      var results := collection;
      var order, mainDocuments := GroupRecords(results);
      GroupInvariant(results);

      var totalCount := |order|;
      var startIdx := offset;
      var endIdx := if offset + limit < totalCount then offset + limit else totalCount;
      var paginatedDocs := PySlice(order, startIdx, endIdx);
      PageEntries(Groups(order, mainDocuments), limit, offset);
      var metadatas := seq(|paginatedDocs|, k requires 0 <= k < |paginatedDocs| => mainDocuments[paginatedDocs[k]]);
      listing := Listing(paginatedDocs, metadatas, totalCount);
    }

    /** The grouping loop of `get_all_documents`: `main_documents`, its keys in insertion order. */
    static method GroupRecords(results: seq<Record>) returns (order: seq<string>, mainDocuments: map<string, StoredMeta>)
      ensures Groups(order, mainDocuments) == Group(results)
    {
      order := [];
      mainDocuments := map[];
      for i := 0 to |results|
        invariant Groups(order, mainDocuments) == Group(results[..i])
      {
        var docId := results[i].id;
        var metadata := results[i].metadata;
        if Contains(docId, ChunkMarker) {
          var mainId := Before(docId, ChunkMarker);
          if mainId !in mainDocuments {
            order := order + [mainId];
            mainDocuments := mainDocuments[mainId := metadata];
          }
        } else {
          if docId !in mainDocuments {
            order := order + [docId];
          }
          mainDocuments := mainDocuments[docId := metadata];
        }
        assert results[..i + 1][..i] == results[..i];
      }
      assert results[..|results|] == results;
    }

    /** `delete_document(doc_id)`; `fault` names the collection call that raises, if any. */
    method DeleteDocument(docId: string, fault: DeleteFault) returns (ok: bool)
      requires Valid()
      modifies this
      ensures Valid()
      ensures DeleteOutcome(ok, collection) == DeleteOf(old(collection), docId, fault)
    {
      if fault == OnGet {
        return false;
      }
      var allIds := Ids(collection);
      var chunkIds: seq<string> := [];
      for i := 0 to |allIds|
        invariant chunkIds == ChunkIdsOf(allIds[..i], docId)
      {
        if StartsWith(allIds[i], docId + ChunkMarker) {
          chunkIds := chunkIds + [allIds[i]];
        }
        assert allIds[..i + 1][..i] == allIds[..i];
      }
      assert allIds[..|allIds|] == allIds;

      if |chunkIds| > 0 {
        if fault == OnChunkDelete {
          return false;
        }
        DeleteIdsKeepsDistinct(collection, chunkIds);
        collection := DeleteIds(collection, chunkIds);
      }
      if fault == OnBareDelete {
        return false;
      }
      DeleteIdsKeepsDistinct(collection, [docId]);
      collection := DeleteIds(collection, [docId]);
      if fault == OnVerify {
        return false;
      }
      var verifyResult := GetIds(collection, [docId]);
      ok := |verifyResult| == 0;
    }

    /** `get_stats()`; `fault` makes `collection.get()` raise. */
    method GetStats(fault: bool) returns (stats: Stats)
      requires Valid()
      ensures stats == StatsOf(collection, fault)
    {
      stats := Stats(0, [collectionName], map[]);
      if fault {
        return;
      }
      var ids := Ids(collection);
      var mainDocuments: set<string> := {};
      for i := 0 to |ids|
        invariant mainDocuments == LogicalIdSet(ids[..i])
      {
        var docId := ids[i];
        if Contains(docId, ChunkMarker) {
          var mainId := Before(docId, ChunkMarker);
          mainDocuments := mainDocuments + {mainId};
        } else {
          mainDocuments := mainDocuments + {docId};
        }
        assert ids[..i + 1][..i] == ids[..i];
      }
      assert ids[..|ids|] == ids;
      stats := Stats(|mainDocuments|, stats.collections, stats.collectionStats[collectionName := |mainDocuments|]);
    }
  }
}
