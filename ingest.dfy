/**
 * `ChromaManager.add_pdf`: what it stores and what it answers. The text and metadata come
 * from the PDF processor, the content hash from MD5 (a parameter: only equality and the first
 * eight characters of its hex digest matter), and the store from the collection model. The
 * two collection calls that can raise are given as faults: the duplicate query (whose failure
 * is logged and ignored) and the `add` call with a given position.
 */
module Ingest {
  import opened Wrappers
  import opened Strings
  import opened Chunker
  import opened PdfProcessor
  import opened Collection
  import opened Documents

  const MinTextLength := 100
  const MaxChunkSize := 8000
  const TitleLimit := 100
  const AuthorLimit := 100
  const SourceLimit := 20

  /** `pdf_metadata.update(metadata)` with caller-supplied string values; a `{}` changes nothing. */
  function Merge(md: Metadata, caller: map<string, string>): Metadata
  {
    md + map k | k in caller :: Str(caller[k])
  }

  /** `str(d.get(key, ""))`. */
  function Field(d: Metadata, key: string): string
  {
    if key in d then PyStr(d[key]) else ""
  }

  /** `simple_metadata`. */
  function SimpleOf(merged: Metadata, hash: string, path: string): SimpleMeta
  {
    SimpleMeta(Take(Field(merged, "title"), TitleLimit), Take(Field(merged, "authors"), AuthorLimit),
               Take(Field(merged, "source"), SourceLimit), hash, Basename(path))
  }

  /** `doc_id`: the arXiv id when the metadata has one, else the file name stem and the hash prefix. */
  function DocIdOf(merged: Metadata, path: string, hash: string): string
  {
    if "arxiv_id" in merged then PyStr(merged["arxiv_id"]) else Stem(path) + "_" + Take(hash, 8)
  }

  /** One record per chunk, at `doc_id_chunk_i`, carrying `chunk` = i and `chunks` = n. */
  function ChunkRecords(docId: string, chunks: seq<string>, meta: SimpleMeta): (r: seq<Record>)
    ensures |r| == |chunks|
  {
    seq(|chunks|, i requires 0 <= i < |chunks| => Record(ChunkId(docId, i), chunks[i], Part(meta, i, |chunks|)))
  }

  /** Storing one more chunk record is one more single-record `add`, of the record at `i`. */
  lemma {:induction false} ChunkRecordsStep(rs: seq<Record>, docId: string, chunks: seq<string>, meta: SimpleMeta, i: nat)
    requires i < |chunks|
    ensures var recs := ChunkRecords(docId, chunks, meta);
      AddAll(rs, recs[..i + 1])
        == AddRecord(AddAll(rs, recs[..i]), Record(ChunkId(docId, i), chunks[i], Part(meta, i, |chunks|)))
  {
    var recs := ChunkRecords(docId, chunks, meta);
    assert recs[..i + 1][..i] == recs[..i];
  }

  /** What `add_pdf` has worked out before it touches the collection. */
  datatype Plan = Plan(text: string, docId: string, meta: SimpleMeta, records: seq<Record>)

  function PlanOf(path: string, caller: map<string, string>, file: PdfFile, today: string,
                  patterns: AuthorPatterns, md5: string -> string): Plan
  {
    var text := TextOf(file);
    PlanFrom(text, Merge(MetadataOf(path, file, today, patterns), caller), path, md5(text))
  }

  /** The plan for a text, its merged metadata, the file path and the content hash. */
  function PlanFrom(text: string, merged: Metadata, path: string, hash: string): Plan
  {
    var meta := SimpleOf(merged, hash, path);
    var docId := DocIdOf(merged, path, hash);
    Plan(text, docId, meta, RecordsOf(text, docId, meta))
  }

  /** The records for a text: its chunks when it is over 8000 characters, else the text itself. */
  function RecordsOf(text: string, docId: string, meta: SimpleMeta): seq<Record>
  {
    if |text| > MaxChunkSize then ChunkRecords(docId, RenderAll(Layout(Sentences(text), MaxChunkSize)), meta)
    else [Record(docId, text, Whole(meta))]
  }

  datatype AddError = InsufficientText | Duplicate | StoreError

  /** The dictionary `add_pdf` returns: success with id and metadata, or an error with an optional id. */
  datatype AddResult =
    | Added(docId: string, metadata: SimpleMeta)
    | Rejected(error: AddError, id: Option<string>)

  datatype AddOutcome = AddOutcome(result: AddResult, store: seq<Record>)

  /**
   * `add_pdf(pdf_path, metadata)` on a collection holding `rs`. `dedupFault` makes the
   * duplicate query raise; `addFault == Some(k)` makes the `k`-th `add` call raise, after the
   * earlier calls have stored their records.
   */
  function IngestOf(rs: seq<Record>, path: string, caller: map<string, string>, file: PdfFile,
                    today: string, patterns: AuthorPatterns, md5: string -> string,
                    dedupFault: bool, addFault: Option<nat>): AddOutcome
  {
    var p := PlanOf(path, caller, file, today, patterns, md5);
    if |p.text| < MinTextLength then AddOutcome(Rejected(InsufficientText, None), rs)
    else
      var dupes := WhereHash(rs, p.meta.hash);
      if !dedupFault && dupes != [] then AddOutcome(Rejected(Duplicate, Some(dupes[0].id)), rs)
      else if addFault.Some? && addFault.value < |p.records| then
        AddOutcome(Rejected(StoreError, None), AddAll(rs, p.records[..addFault.value]))
      else AddOutcome(Added(p.docId, p.meta), AddAll(rs, p.records))
  }

  // ---------------------------------------------------------------------------------------
  // Rejections

  /** Text shorter than 100 characters (in particular no text) is refused with no id. */
  lemma {:induction false} ShortTextRejected(rs: seq<Record>, path: string, caller: map<string, string>, file: PdfFile,
                          today: string, patterns: AuthorPatterns, md5: string -> string,
                          dedupFault: bool, addFault: Option<nat>)
    requires |TextOf(file)| < MinTextLength
    ensures IngestOf(rs, path, caller, file, today, patterns, md5, dedupFault, addFault)
      == AddOutcome(Rejected(InsufficientText, None), rs)
  {
  }

  /**
   * A refusal for short text or for a duplicate leaves the collection as it was; only a failing
   * `add` can leave records behind, and then only a prefix of the planned ones.
   */
  lemma {:induction false} RejectionKeepsStore(rs: seq<Record>, path: string, caller: map<string, string>, file: PdfFile,
                            today: string, patterns: AuthorPatterns, md5: string -> string,
                            dedupFault: bool, addFault: Option<nat>)
    ensures var o := IngestOf(rs, path, caller, file, today, patterns, md5, dedupFault, addFault);
      var p := PlanOf(path, caller, file, today, patterns, md5);
      (o.result.Rejected? && o.result.error != StoreError ==> o.store == rs)
      && (o.result == Rejected(StoreError, None) ==>
            exists k :: 0 <= k < |p.records| && o.store == AddAll(rs, p.records[..k]))
  {
    var p := PlanOf(path, caller, file, today, patterns, md5);
    var o := IngestOf(rs, path, caller, file, today, patterns, md5, dedupFault, addFault);
    var refused := |p.text| < MinTextLength || (!dedupFault && WhereHash(rs, p.meta.hash) != []);
    if !refused && addFault.Some? && addFault.value < |p.records| {
      assert o.store == AddAll(rs, p.records[..addFault.value]);
    } else if !refused {
      assert o.result.Added?;
    } else {
      assert o.store == rs;
    }
  }

  /** A record with the same content hash already stored: refused, naming the first such record. */
  lemma {:induction false} DuplicateRejected(rs: seq<Record>, path: string, caller: map<string, string>, file: PdfFile,
                          today: string, patterns: AuthorPatterns, md5: string -> string,
                          addFault: Option<nat>, k: nat)
    requires |TextOf(file)| >= MinTextLength
    requires k < |rs| && rs[k].metadata.meta.hash == md5(TextOf(file))
    ensures var o := IngestOf(rs, path, caller, file, today, patterns, md5, false, addFault);
      o.store == rs && o.result.Rejected? && o.result.error == Duplicate && o.result.id.Some?
      && exists j :: 0 <= j <= k && o.result.id.value == rs[j].id && rs[j].metadata.meta.hash == md5(TextOf(file))
  {
    var h := md5(TextOf(file));
    var dupes := WhereHash(rs, h);
    assert rs[k] in dupes;
    WhereHashFirst(rs, h, k);
  }

  // ---------------------------------------------------------------------------------------
  // What is stored

  /** Record ids are pairwise different, and no chunk record sits at the bare document id. */
  lemma {:induction false} RecordIdsDistinct(text: string, docId: string, meta: SimpleMeta)
    ensures var recs := RecordsOf(text, docId, meta);
      DistinctIds(recs) && (|text| > MaxChunkSize ==> docId !in Ids(recs))
  {
    var recs := RecordsOf(text, docId, meta);
    if |text| > MaxChunkSize {
      forall i, j | 0 <= i < j < |recs| ensures recs[i].id != recs[j].id {
        ChunkIdsDiffer(docId, i, j);
      }
      forall k | 0 <= k < |recs| ensures recs[k].id != docId {
        assert |recs[k].id| > |docId|;
      }
    }
  }

  lemma {:induction false} ChunkIdsDiffer(docId: string, i: nat, j: nat)
    requires i != j
    ensures ChunkId(docId, i) != ChunkId(docId, j)
  {
    if ChunkId(docId, i) == ChunkId(docId, j) {
      var n := |docId + ChunkMarker|;
      assert ChunkId(docId, i)[n..] == NatToString(i);
      assert ChunkId(docId, j)[n..] == NatToString(j);
      NatToStringInjective(i, j);
    }
  }

  /**
   * The record layout: a text over 8000 characters becomes one record per chunk of
   * `_chunk_text(text, 8000)` at `doc_id_chunk_i` with `chunk` = i and `chunks` = n, and
   * nothing at `doc_id`; when `doc_id` neither carries `_chunk_` nor ends in `_chunk`, every
   * such record is listed under `doc_id`. A shorter text becomes one record at `doc_id`.
   */
  lemma {:induction false} RecordLayout(text: string, docId: string, meta: SimpleMeta)
    ensures var recs := RecordsOf(text, docId, meta);
      var chunks := RenderAll(Layout(Sentences(text), MaxChunkSize));
      if |text| > MaxChunkSize then
        |recs| == |chunks|
        && (forall i :: 0 <= i < |chunks| ==>
              recs[i] == Record(ChunkId(docId, i), chunks[i], Part(meta, i, |chunks|))
              && StartsWith(recs[i].id, docId + ChunkMarker)
              && (GroupableDocId(docId) ==> LogicalId(recs[i].id) == docId))
      else
        recs == [Record(docId, text, Whole(meta))]
  {
    var recs := RecordsOf(text, docId, meta);
    if |text| > MaxChunkSize {
      forall i | 0 <= i < |recs|
        ensures recs[i] == Record(ChunkId(docId, i), recs[i].document, recs[i].metadata)
        ensures StartsWith(recs[i].id, docId + ChunkMarker)
        ensures GroupableDocId(docId) ==> LogicalId(recs[i].id) == docId
      {
        assert recs[i].id == ChunkId(docId, i);
        assert ChunkId(docId, i)[..|docId + ChunkMarker|] == docId + ChunkMarker;
        if GroupableDocId(docId) {
          ChunkIdGroupsToDocument(docId, i);
        }
      }
    }
  }

  /**
   * The stored metadata: title and author cut to 100 characters, source to 20, the MD5 of the
   * text, and the file's base name. A caller-supplied key overrides the extracted one; the
   * author comes from the key `authors`.
   */
  lemma {:induction false} StoredMetadata(path: string, caller: map<string, string>, file: PdfFile,
                       today: string, patterns: AuthorPatterns, md5: string -> string)
    ensures var p := PlanOf(path, caller, file, today, patterns, md5);
      var extracted := MetadataOf(path, file, today, patterns);
      |p.meta.title| <= TitleLimit && |p.meta.author| <= AuthorLimit && |p.meta.source| <= SourceLimit
      && p.meta.hash == md5(p.text) && p.meta.file == Basename(path)
      && p.meta.title == Take(if "title" in caller then caller["title"] else Field(extracted, "title"), TitleLimit)
      && p.meta.author == Take(if "authors" in caller then caller["authors"] else Field(extracted, "authors"), AuthorLimit)
      && p.meta.source == Take(if "source" in caller then caller["source"] else Field(extracted, "source"), SourceLimit)
  {
  }

  /**
   * An author that is found nowhere: with a non-empty information dictionary that lacks
   * `/Author` the extracted `authors` is `None`, which `str` turns into the text "None"; with an
   * empty dictionary there is no `authors` key and the stored author is empty.
   */
  lemma {:induction false} StoredAuthorUnmatched(path: string, caller: map<string, string>, file: PdfFile,
                              today: string, patterns: AuthorPatterns, md5: string -> string)
    requires file.Readable? && "authors" !in caller && "/Author" !in file.info
    requires TextOf(file) == "" || FirstMatch(PatternList(patterns), FirstBlocks(TextOf(file))).None?
    ensures PlanOf(path, caller, file, today, patterns, md5).meta.author
      == if |file.info| > 0 then "None" else ""
  {
    var md0 := WithTitle(InfoMetadata(file.info), path);
    assert ("authors" in md0 <==> |file.info| > 0) && ("authors" in md0 ==> md0["authors"] == Null);
    var md1 := WithAuthors(md0, TextOf(file), patterns);
    assert md1 == md0;
    var md2 := WithSource(WithCreated(md1, today), path);
    assert ("authors" in md2 <==> |file.info| > 0) && ("authors" in md2 ==> md2["authors"] == Null);
    MergeKey(md2, caller, "authors");
    var p := PlanOf(path, caller, file, today, patterns, md5);
    assert p.meta.author == Take(Field(Merge(md2, caller), "authors"), AuthorLimit);
  }

  /** Merging in one more caller key leaves every other key as it was. */
  lemma {:induction false} MergeOtherKey(md: Metadata, caller: map<string, string>, extra: string, v: string, key: string)
    requires key != extra
    ensures var m1 := Merge(md, caller[extra := v]);
      var m2 := Merge(md, caller);
      (key in m1 <==> key in m2) && (key in m1 ==> m1[key] == m2[key])
  {
    var c := caller[extra := v];
    var c1 := map k | k in c :: Str(c[k]);
    var c2 := map k | k in caller :: Str(caller[k]);
    assert (key in c1 <==> key in c2) && (key in c1 ==> c1[key] == c2[key]);
  }

  /** The plan reads the merged metadata only at `title`, `authors`, `source` and `arxiv_id`. */
  lemma {:induction false} PlanReadsFourKeys(text: string, m1: Metadata, m2: Metadata, path: string, hash: string)
    requires forall key :: key in ["title", "authors", "source", "arxiv_id"] ==>
      (key in m1 <==> key in m2) && (key in m1 ==> m1[key] == m2[key])
    ensures PlanFrom(text, m1, path, hash) == PlanFrom(text, m2, path, hash)
  {
    assert "title" in ["title", "authors", "source", "arxiv_id"];
    assert "authors" in ["title", "authors", "source", "arxiv_id"];
    assert "source" in ["title", "authors", "source", "arxiv_id"];
    assert "arxiv_id" in ["title", "authors", "source", "arxiv_id"];
    assert SimpleOf(m1, hash, path) == SimpleOf(m2, hash, path);
    assert DocIdOf(m1, path, hash) == DocIdOf(m2, path, hash);
  }

  /** A caller-supplied `author` key has no effect at all: the author is read from `authors`. */
  lemma {:induction false} AuthorKeyIgnored(path: string, caller: map<string, string>, v: string, file: PdfFile,
                         today: string, patterns: AuthorPatterns, md5: string -> string)
    ensures PlanOf(path, caller["author" := v], file, today, patterns, md5)
      == PlanOf(path, caller, file, today, patterns, md5)
  {
    var extracted := MetadataOf(path, file, today, patterns);
    forall key | key in ["title", "authors", "source", "arxiv_id"]
      ensures var m1 := Merge(extracted, caller["author" := v]);
        var m2 := Merge(extracted, caller);
        (key in m1 <==> key in m2) && (key in m1 ==> m1[key] == m2[key])
    {
      MergeOtherKey(extracted, caller, "author", v, key);
    }
    var text := TextOf(file);
    PlanReadsFourKeys(text, Merge(extracted, caller["author" := v]), Merge(extracted, caller), path, md5(text));
  }

  /**
   * `doc_id`: a caller-supplied `arxiv_id` wins; otherwise a readable file whose stem looks like
   * an arXiv id is stored under that stem, and any other file (an unreadable one included) under
   * `<stem>_<first 8 hash characters>`, whatever other keys the caller passes. Without a
   * caller-supplied `source`, the source is "arxiv" in the first case and "manual_upload" in
   * the second.
   */
  lemma {:induction false} DocIdRule(path: string, caller: map<string, string>, file: PdfFile,
                  today: string, patterns: AuthorPatterns, md5: string -> string)
    ensures var p := PlanOf(path, caller, file, today, patterns, md5);
      var byStem := file.Readable? && IsArxivId(Stem(path));
      ("arxiv_id" in caller ==> p.docId == caller["arxiv_id"])
      && ("arxiv_id" !in caller ==>
            p.docId == if byStem then Stem(path) else Stem(path) + "_" + Take(md5(p.text), 8))
      && ("source" !in caller ==> p.meta.source == if byStem then "arxiv" else "manual_upload")
  {
    var extracted := MetadataOf(path, file, today, patterns);
    var merged := Merge(extracted, caller);
    var p := PlanOf(path, caller, file, today, patterns, md5);
    assert p.docId == DocIdOf(merged, path, md5(p.text));
    assert p.meta.source == Take(Field(merged, "source"), SourceLimit);
    MergeKey(extracted, caller, "arxiv_id");
    MergeKey(extracted, caller, "source");
    if file.Readable? {
      ArxivRule(path, file, today, patterns);
    } else {
      FailureGivesMinimal(path, today, patterns);
    }
  }

  /** One key of the merged metadata: the caller's value when it has the key, else the extracted one. */
  lemma {:induction false} MergeKey(md: Metadata, caller: map<string, string>, key: string)
    ensures var m := Merge(md, caller);
      (key in m <==> key in md || key in caller)
      && (key in m ==> m[key] == if key in caller then Str(caller[key]) else md[key])
  {
  }

  // ---------------------------------------------------------------------------------------
  // Success and deduplication

  /** Records planned with fresh ids are appended as planned, and `add_pdf` reports success. */
  lemma {:induction false} FreshIngestAppends(rs: seq<Record>, path: string, caller: map<string, string>, file: PdfFile,
                           today: string, patterns: AuthorPatterns, md5: string -> string,
                           dedupFault: bool)
    requires |TextOf(file)| >= MinTextLength
    requires dedupFault || WhereHash(rs, md5(TextOf(file))) == []
    requires forall r :: r in PlanOf(path, caller, file, today, patterns, md5).records ==> r.id !in Ids(rs)
    ensures var p := PlanOf(path, caller, file, today, patterns, md5);
      IngestOf(rs, path, caller, file, today, patterns, md5, dedupFault, None)
        == AddOutcome(Added(p.docId, p.meta), rs + p.records)
  {
    var p := PlanOf(path, caller, file, today, patterns, md5);
    RecordIdsDistinct(p.text, p.docId, p.meta);
    forall k | 0 <= k < |p.records| ensures p.records[k].id !in Ids(rs) {
      assert p.records[k] in p.records;
    }
    AddAllFresh(rs, p.records);
  }

  /**
   * Content-hash deduplication: once a text has been stored (at fresh ids, with no copy
   * before), adding any file with the same text is refused as a duplicate that names the first
   * record stored, and the collection stays as it is.
   */
  lemma {:induction false} SecondIngestIsDuplicate(rs: seq<Record>, path: string, caller: map<string, string>, file: PdfFile,
                                path2: string, caller2: map<string, string>, file2: PdfFile,
                                today: string, patterns: AuthorPatterns, md5: string -> string,
                                addFault2: Option<nat>)
    requires |TextOf(file)| >= MinTextLength && TextOf(file2) == TextOf(file)
    requires WhereHash(rs, md5(TextOf(file))) == []
    requires forall r :: r in PlanOf(path, caller, file, today, patterns, md5).records ==> r.id !in Ids(rs)
    requires PlanOf(path, caller, file, today, patterns, md5).records != []
    ensures var p := PlanOf(path, caller, file, today, patterns, md5);
      var first := IngestOf(rs, path, caller, file, today, patterns, md5, false, None);
      var second := IngestOf(first.store, path2, caller2, file2, today, patterns, md5, false, addFault2);
      second == AddOutcome(Rejected(Duplicate, Some(p.records[0].id)), first.store)
      && p.records[0].id == (if |p.text| > MaxChunkSize then ChunkId(p.docId, 0) else p.docId)
  {
    var p := PlanOf(path, caller, file, today, patterns, md5);
    FreshIngestAppends(rs, path, caller, file, today, patterns, md5, false);
    var store := IngestOf(rs, path, caller, file, today, patterns, md5, false, None).store;
    assert store == rs + p.records;
    var h := md5(TextOf(file));
    PlanTextAndHash(path, caller, file, today, patterns, md5);
    RecordsCarryMeta(p.text, p.docId, p.meta);
    WhereHashAppend(rs, p.records, h);
    WhereHashAll(p.records, h);
    assert WhereHash(store, h) == p.records;
    var p2 := PlanOf(path2, caller2, file2, today, patterns, md5);
    PlanTextAndHash(path2, caller2, file2, today, patterns, md5);
    assert p2.meta.hash == h && |p2.text| >= MinTextLength;
  }

  /** Every record of a text carries the document's simple metadata. */
  lemma {:induction false} RecordsCarryMeta(text: string, docId: string, meta: SimpleMeta)
    ensures forall r :: r in RecordsOf(text, docId, meta) ==> r.metadata.meta == meta
  {
    var recs := RecordsOf(text, docId, meta);
    forall r | r in recs ensures r.metadata.meta == meta {
      var k :| 0 <= k < |recs| && recs[k] == r;
    }
  }

  /** The plan carries the extracted text and its hash, whatever the metadata. */
  lemma {:induction false} PlanTextAndHash(path: string, caller: map<string, string>, file: PdfFile,
                                           today: string, patterns: AuthorPatterns, md5: string -> string)
    ensures var p := PlanOf(path, caller, file, today, patterns, md5);
      p.text == TextOf(file) && p.meta.hash == md5(TextOf(file))
  {
  }
}
