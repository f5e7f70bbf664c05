# arxiv-ve-chroma: the document store core in Dafny

This project models the storage core of arxiv-ve-chroma, a small application that keeps research
papers (PDF files) in a Chroma vector collection named `knowledge`. The core has two parts:

- `PDFProcessor` turns a PDF into text and a metadata dictionary.
- `ChromaManager` stores that text in the collection and can list, count and delete documents:
  - a text of at most 8000 characters is stored as one record;
  - a longer text is cut into chunks by a sentence/word chunker and stored as one record per
    chunk, under ids `<doc_id>_chunk_<i>`;
  - a document whose content hash is already stored is turned away.

The model is split into these modules:

- `Wrappers`: the `Option` type.
- `Strings`: the Python string operations the core relies on, each with a contract saying what
  it computes. These are `split`, `str.split()`, `strip`, `startswith`, `in`, `replace`,
  POSIX `os.path.basename` (separator `/`), slicing and `str(int)`.
- `Chunker`: `_chunk_text`.
  - `Layout`, a left fold over the sentences, is the specification.
  - `ChunkText`, `PackSentences` and `WordChunks` are the source's loops, proved to compute
    `RenderAll(Layout(...))`.
  - Lemmas about `Layout` state the size bound, conservation of the text, and the ordering of
    the chunks.
- `PdfProcessor`: `extract_text` and `extract_metadata`. Each is a method with loops, proved
  equal to a function (`TextOf`, `MetadataOf`) about which lemmas state what each stage does.
- `Collection`: the Chroma collection as `ChromaManager` uses it. It is an ordered sequence of
  records with distinct ids, with `get(where=...)`, `get(ids=...)`, `add` and `delete`.
- `Documents`: the grouping of chunk records into logical documents, and the specifications of
  `get_all_documents`, `get_stats` and `delete_document`.
- `Ingest`: the specification of `add_pdf`:
  - metadata merge;
  - the `simple_metadata` record;
  - the document id;
  - deduplication by hash;
  - chunk records;
  - the error paths.
- `Manager`: the class `ChromaManager`. Its field `collection: seq<Record>` is the collection.
  `AddPdf` and `DeleteDocument` update it, `GetAllDocuments` and `GetStats` read it; each
  public method is proved against the functions above.

The things outside the program's own logic become parameters:

- the PDF is a value `PdfFile`: unreadable, or an info dictionary and per-page extraction
  results;
- MD5 is a function `md5: string -> string`;
- the two author regular expressions are functions `AuthorPatterns`;
- `datetime.now()` is a string `today`;
- every point where Chroma can raise is an explicit fault parameter, so the `except` branches
  are modelled as ordinary results.

## Model

| member | source | states |
|---|---|---|
| Strings.Strip | pdf_processor.py:76 | the result is a slice of the input; everything cut off on either side is whitespace; the result is empty or starts and ends with a non-space character |
| Strings.SplitOn | pdf_processor.py:64 | a split always has at least one piece |
| Strings.SplitOnLeftmost | pdf_processor.py:64 | every piece but the last ends exactly where the first occurrence of the separator in the rest of the string starts, so the cuts are the leftmost non-overlapping occurrences |
| Strings.SplitOnJoin | pdf_processor.py:64-65 | joining the pieces of `s.split(sep)` with `sep` gives `s` back |
| Strings.SplitOnPiecesFree | pdf_processor.py:64 | no piece of a split contains the separator |
| Strings.WordsAreWords | chroma_manager.py:65 | `str.split()` cuts the string into words and whitespace: every word is non-empty with no whitespace in it, the runs between words are non-empty whitespace, the runs at either end are whitespace, and all of them interleaved give the string back |
| Strings.JoinLength | chroma_manager.py:72 | `' '.join(units)` is as long as the units together plus one per gap |
| Strings.Take | chroma_manager.py:152-154 | `s[:n]` is the prefix of length `min(|s|, n)` |
| Strings.RemoveAll | pdf_processor.py:58 | `replace(pat, "")` is `"".join(s.split(pat))`, every occurrence dropped left to right, and never lengthens the name |
| Strings.RemoveAllFree | pdf_processor.py:58 | a name without `.pdf` comes through `replace` unchanged |
| Strings.BasenameIsLastComponent | chroma_manager.py:156 | POSIX `os.path.basename` is a suffix with no `/`, preceded by `/` or the start of the path |
| Strings.NatToStringInjective | chroma_manager.py:188 | distinct chunk numbers give distinct decimal strings |
| Strings.BeforeAtFirst | chroma_manager.py:264 | `s.split(pat)[0]` ends exactly where the first occurrence of `pat` starts |
| Chunker.Sentences | chroma_manager.py:58 | the split always yields at least one sentence |
| Chunker.SentencesRebuild | chroma_manager.py:58 | the sentences interleaved with the dropped runs give the text back; every dropped run is non-empty whitespace and is followed by a non-space; no sentence contains a break (a `.`, `!` or `?` followed by whitespace) |
| Chunker.SentencesEndInTerminal | chroma_manager.py:58 | every sentence except the last is non-empty and ends in `.`, `!` or `?` |
| Chunker.WordChunks | chroma_manager.py:64-81 | the word loop returns the rendering of `WordGroups` |
| Chunker.PackSentences | chroma_manager.py:60-94 | the sentence loop with its final flush returns the rendering of `Layout` |
| Chunker.ChunkText | chroma_manager.py:42-96 | `_chunk_text` returns the rendering of `Layout` over the sentence split |
| Chunker.WordGroupsProperties | chroma_manager.py:64-81 | every word group of two or more words fits the limit, counting one space per word; the words come out in order; only the first group can be empty, and it is empty exactly when the first word alone overflows |
| Chunker.EmptyFirstWordChunk | chroma_manager.py:69-74 | when the first word of an oversized sentence overflows, the first chunk emitted is the empty string |
| Chunker.LayoutFits | chroma_manager.py:64-94 | every chunk keeps its kind's bound: a sentence chunk is non-empty and its sentences' lengths sum to at most the limit; a word chunk of two or more words fits the limit, counting one space per word |
| Chunker.LayoutConserves | chroma_manager.py:58-94 | the sentence chunks hold exactly the short sentences in input order, and the word chunks hold exactly the words of the oversized sentences in input order |
| Chunker.SentenceChunkLength | chroma_manager.py:84-94 | a sentence chunk is its sentences plus one space per gap, so it can exceed the limit by the number of gaps |
| Chunker.WordChunkLength | chroma_manager.py:69-80 | a word chunk of two or more words is shorter than the limit |
| Chunker.WordPieceLength | chroma_manager.py:69-80 | a non-empty word chunk that keeps its bound is as long as its words plus one space per gap, and one of two or more words is shorter than the limit |
| Chunker.WordGroupsOvertakePending | chroma_manager.py:60-94 | the word chunks of an oversized sentence are emitted before the sentences still buffered |
| Chunker.ShortThenLong | chroma_manager.py:60-94 | a short sentence followed by an oversized one comes out after the oversized one's words |
| Chunker.SeparatorNotCounted | chroma_manager.py:84-90 | two sentences whose lengths sum to the limit are joined into one chunk of limit + 1 characters |
| Chunker.BlankSentenceVanishes | chroma_manager.py:64-81 | an oversized sentence with no words emits no chunk at all |
| PdfProcessor.ExtractText | pdf_processor.py:16-33 | `extract_text` returns `TextOf(f)`: the pages' texts, each followed by a newline, or "" on any failure |
| PdfProcessor.PagesTextLength | pdf_processor.py:27-29 | each page contributes at least its newline, and the text ends in a newline |
| PdfProcessor.TextOfEmpty | pdf_processor.py:23-33 | the text is empty exactly when the file is unreadable, a page fails, or there are no pages |
| PdfProcessor.SearchAuthors | pdf_processor.py:64-77 | the pattern loop returns the first match among the patterns, run on the first ten paragraphs |
| PdfProcessor.FirstMatchIsFirst | pdf_processor.py:73-77 | there is no match exactly when no pattern matches; otherwise the first matching pattern decides |
| PdfProcessor.FillAuthors | pdf_processor.py:61-77 | the author stage of the method agrees with `WithAuthors` |
| PdfProcessor.FillSource | pdf_processor.py:84-89 | the arXiv stage of the method agrees with `WithSource` |
| PdfProcessor.ExtractMetadata | pdf_processor.py:42-101 | `extract_metadata` returns `MetadataOf(path, f, today, patterns)` |
| PdfProcessor.FailureGivesMinimal | pdf_processor.py:93-101 | an unreadable file gives the minimal dictionary: stem title, empty authors, today, `manual_upload`, no `arxiv_id` |
| PdfProcessor.TitleFallback | pdf_processor.py:46-58 | the title is the non-empty `/Title` of a non-empty info dictionary, otherwise the file stem |
| PdfProcessor.AuthorsStage | pdf_processor.py:61-77 | truthy authors are kept; otherwise the stripped first match is used, and with no text or no match the value stays as it was |
| PdfProcessor.AuthorFallback | pdf_processor.py:46-77 | the final authors value in terms of `/Author`, the text and the first pattern match |
| PdfProcessor.DateDefault | pdf_processor.py:46-81 | `created` is the non-empty `/CreationDate`, otherwise today |
| PdfProcessor.ArxivRule | pdf_processor.py:84-89 | a stem matching `\d{4}\.\d{4,5}` at its start (with `\d` any Unicode decimal digit) sets `arxiv_id` to the stem and `source` to `arxiv`; otherwise there is no `arxiv_id` and the source is `manual_upload` |
| PdfProcessor.FullwidthArxivId | pdf_processor.py:85 | a stem written in fullwidth digits, `２０２３.１２３４５`, is taken for an arXiv id |
| PdfProcessor.ArxivIdPrefixMatch | pdf_processor.py:85 | the test only anchors at the start: anything may follow an id |
| Collection.Ids | chroma_manager.py:258 | the ids of a `get`, one per record, in store order |
| Collection.WhereHash | chroma_manager.py:169-171 | the hash query returns exactly the records carrying that hash |
| Collection.WhereHashAppend | chroma_manager.py:169-171 | querying two stretches of records gives the two answers in order |
| Collection.WhereHashAll | chroma_manager.py:169-171 | records that all carry the hash are all returned, in order |
| Collection.WhereHashFirst | chroma_manager.py:173-177 | a stored record with the hash makes the answer non-empty, and the first answer is that record or an earlier one |
| Collection.DeleteIds | chroma_manager.py:321 | `delete(ids=...)` keeps exactly the records whose id is not listed |
| Collection.GetIds | chroma_manager.py:328 | `get(ids=...)` returns exactly the listed ids that are present |
| Collection.GetIdsOfAbsent | chroma_manager.py:328-330 | asking for absent ids returns nothing |
| Collection.AddAllFresh | chroma_manager.py:193-203 | adding records with fresh distinct ids appends them in order |
| Collection.AddAllKeeps | chroma_manager.py:193-203 | adding never loses a stored record |
| Collection.AddAllKeepsDistinct | chroma_manager.py:193-203 | the collection keeps unique ids across adds |
| Collection.DeleteIdsKeepsDistinct | chroma_manager.py:321-325 | the collection keeps unique ids across deletes |
| Documents.LogicalIdIsFree | chroma_manager.py:263-264 | the id a record is listed under never contains `_chunk_` |
| Documents.LogicalIdIdempotent | chroma_manager.py:263-264 | grouping an id that is already a logical id leaves it alone |
| Documents.MarkerStraddles | chroma_manager.py:263-264 | an earlier `_chunk_` overlapping a chunk id's marker can only come from a doc id ending in `_chunk` |
| Documents.ChunkIdGroupsToDocument | chroma_manager.py:188 | a chunk id is listed under its document's id, for every doc id without `_chunk_` in it and not ending in `_chunk` |
| Documents.GroupedIdsAreDeleted | chroma_manager.py:315-325 | every record listed under a document id is removed when that id is deleted |
| Documents.GroupInvariant | chroma_manager.py:261-277 | the grouping's order has no repeats, holds exactly the keys of the metadata map, and those keys are exactly the logical ids of the records |
| Documents.GroupOrderFirstSeen | chroma_manager.py:261-280 | documents are listed in order of first appearance: of two listed documents, the earlier one has a record in front of every record of the later one |
| Documents.GroupMetaOfBareRecord | chroma_manager.py:272-277 | a record without `_chunk_` is listed with its own metadata |
| Documents.GroupMetaOfFirstChunk | chroma_manager.py:263-271 | a chunked document with no bare record under its id is listed with the metadata of its first chunk in store order |
| Documents.StatsAgreeWithListing | chroma_manager.py:261-281 | the grouping lists one entry per distinct logical id, covering every record |
| Documents.SliceBound | chroma_manager.py:286 | a Python slice index is clamped into the sequence and left alone when it already lies inside |
| Documents.PySlice | chroma_manager.py:286 | a Python slice is never longer than the sequence |
| Documents.PageWindow | chroma_manager.py:280-293 | a page is the window `[offset, min(offset + limit, n))` of the grouping's order, with each id's metadata |
| Documents.PageEntries | chroma_manager.py:280-293 | every paged id is a grouped id, and paging keeps ids unique |
| Documents.ListingPage | chroma_manager.py:256-293 | the listing of a collection is the page window of its grouping |
| Documents.ListingIdsAreLogical | chroma_manager.py:256-293 | the listed ids are unique, free of `_chunk_`, and each is the logical id of a stored record |
| Documents.StatsCountListedDocuments | chroma_manager.py:339-368 | the stats count equals the listing's total, which is the number of logical documents, and is stored under `knowledge` |
| Documents.ChunkIdsOf | chroma_manager.py:315-316 | the chunk ids found for deletion are exactly the stored ids that start with `<doc_id>_chunk_` |
| Documents.DeleteRemovesExactly | chroma_manager.py:310-333 | a delete that runs through removes exactly the record at the id and its chunks, keeps every other record, and answers true |
| Documents.DeleteAnswer | chroma_manager.py:310-337 | the answer is true exactly when no call fails (a chunk-delete fault does not matter when there are no chunks) |
| Documents.DeleteEarlyFailureKeepsStore | chroma_manager.py:310-337 | a failure before anything is deleted leaves the collection unchanged |
| Documents.DeletedDocumentUnlisted | chroma_manager.py:310-325 | after a delete that runs through, the id is no longer listed |
| Ingest.ChunkRecords | chroma_manager.py:187-197 | one record per chunk |
| Ingest.ChunkRecordsStep | chroma_manager.py:187-197 | record `i` holds chunk `i`, id `<doc_id>_chunk_<i>` and metadata with `chunk = i` and `chunks = n` |
| Ingest.ChunkIdsDiffer | chroma_manager.py:188 | different chunk numbers give different ids |
| Ingest.RecordIdsDistinct | chroma_manager.py:183-203 | one document's records have distinct ids, and a chunked document has no record under the bare id |
| Ingest.RecordLayout | chroma_manager.py:183-203 | a short text is one record under the doc id; a long one is, for each i, the record of chunk i of `_chunk_text` at id `<doc_id>_chunk_<i>` with chunk number i and count n, and that id groups back to the doc id |
| Ingest.RecordsCarryMeta | chroma_manager.py:189-201 | every record of a document carries the same simple metadata |
| Ingest.MergeKey | chroma_manager.py:144-145 | after `update`, a key's value comes from the caller when it is there, otherwise from the extraction |
| Ingest.MergeOtherKey | chroma_manager.py:144-145 | a caller key does not affect the value of any other key |
| Ingest.StoredMetadata | chroma_manager.py:143-157 | the stored title, author and source are the merged values as strings, cut to 100, 100 and 20 characters; the hash is the MD5 of the text; the file is the basename |
| Ingest.PlanReadsFourKeys | chroma_manager.py:151-164 | what is stored depends on the merged metadata only through `title`, `authors`, `source` and `arxiv_id` |
| Ingest.AuthorKeyIgnored | chroma_manager.py:153 | a caller key `author` (singular) changes nothing that is stored |
| Ingest.PlanTextAndHash | chroma_manager.py:134-148 | the stored hash is the MD5 of the extracted text |
| Ingest.DocIdRule | chroma_manager.py:159-164 | a caller `arxiv_id` becomes the doc id; otherwise, whatever else the caller passes, a readable file with an arXiv stem is stored under the stem and any other file under `<stem>_<first 8 hex digits of the hash>`; without a caller `source` the source is `arxiv` or `manual_upload` accordingly |
| Ingest.StoredAuthorUnmatched | chroma_manager.py:153 | with no caller `authors`, no `/Author`, and no text or no pattern match, the stored author is the string "None" when the info dictionary is non-empty and "" when it is empty |
| Ingest.ShortTextRejected | chroma_manager.py:134-140 | a text shorter than 100 characters is rejected with the collection unchanged |
| Ingest.DuplicateRejected | chroma_manager.py:166-178 | a stored record with the same hash makes the add fail with an earlier record's id, and the collection is unchanged |
| Ingest.FreshIngestAppends | chroma_manager.py:166-209 | a new hash whose ids are fresh appends the planned records and reports the doc id and metadata; a failed duplicate query does not stop this |
| Ingest.RejectionKeepsStore | chroma_manager.py:129-217 | a rejection for short text or a duplicate leaves the collection unchanged; a store error leaves a prefix of the planned records added |
| Ingest.SecondIngestIsDuplicate | chroma_manager.py:148-209 | once a text is stored, adding any file with the same text is rejected as a duplicate, naming its first record |
| Manager.ChromaManager.constructor | chroma_manager.py:27-31 | the manager is attached to the `knowledge` collection with the given records |
| Manager.ChromaManager.PrepareMetadata | chroma_manager.py:143-164 | the method's simple metadata and doc id are those of the extracted metadata updated with the caller's |
| Manager.ChromaManager.StoreDocument | chroma_manager.py:183-203 | the store step adds the document's records in order, stopping before the failing add and reporting whether one failed; ids stay unique |
| Manager.ChromaManager.AddChunks | chroma_manager.py:187-197 | the chunk loop adds the chunk records in order, stopping before the failing one and reporting whether one failed |
| Manager.ChromaManager.AddPdf | chroma_manager.py:117-217 | `add_pdf` returns the result and leaves the collection as `IngestOf` says, with ids kept unique |
| Manager.ChromaManager.GroupRecords | chroma_manager.py:261-277 | the grouping loop computes `Group(results)` |
| Manager.ChromaManager.GetAllDocuments | chroma_manager.py:256-297 | `get_all_documents` returns `ListingOf`: the page of grouped documents, or an empty listing on error |
| Manager.ChromaManager.DeleteDocument | chroma_manager.py:310-337 | `delete_document` returns the answer and leaves the collection as `DeleteOf` says, with ids kept unique |
| Manager.ChromaManager.GetStats | chroma_manager.py:339-372 | `get_stats` returns `StatsOf`: the number of logical documents, or zero on error |

## Behaviour the model keeps

The model keeps these behaviours of the code exactly as written:

- The docstring of `_chunk_text` (chroma_manager.py:48) calls `max_chunk_size` the largest
  number of characters in a piece. The packing test (chroma_manager.py:84-90) adds up only the
  sentence lengths, not the spaces that join them. A sentence chunk of `k` sentences can
  therefore reach `max_chunk_size + k - 1` characters (`SentenceChunkLength`,
  `SeparatorNotCounted`).
- The word chunks of an oversized sentence are appended at once (chroma_manager.py:64-81),
  while the sentences already buffered wait for the next flush (chroma_manager.py:84-94). The
  word chunks therefore come out ahead of sentences that precede them in the text
  (`WordGroupsOvertakePending`, `ShortThenLong`).
- `extract_metadata` reads `/Author` with `info.get(..., None)` (pdf_processor.py:50-53) and
  replaces a missing value only when a pattern matches (pdf_processor.py:61-77). `add_pdf`
  stores `str(...)` of it (chroma_manager.py:153). So a file whose info dictionary is
  non-empty, with no `/Author` and no match, is stored with the author text `"None"`
  (`AuthorFallback`, `StoredAuthorUnmatched`).
- Further edge cases of the code:
  - an empty first word chunk (`EmptyFirstWordChunk`);
  - an oversized sentence without words, which vanishes (`BlankSentenceVanishes`);
  - `.replace(".pdf", "")` removing every occurrence, not only the extension (`RemoveAll`);
  - a failing add that leaves the chunks stored so far in place (`RejectionKeepsStore`);
  - a failing bare-id delete that leaves the chunks deleted (`DeleteOf`);
  - doc ids containing `_chunk_` or ending in `_chunk`, which group under a different id
    (`ChunkIdGroupsToDocument`, `MarkerStraddles`).

## Left out

- `ChromaManager.__init__` is not modelled. Creating the client and the directory is I/O; the
  model starts from a constructor that takes the records already in the collection.
- `get_collections` and `create_collection` are not modelled. `get_collections` returns the
  one-element list of the collection name `knowledge`, and `create_collection` returns the
  collection object, ignoring its argument. Neither has logic of its own.
- `search` is not modelled. It is a similarity query answered by Chroma's embeddings, which are
  outside the program.
- `get_file_info`, `app.py` and `arxiv_downloader.py` are not modelled. They are the web layer,
  the download client and file-system queries, not part of the store core.
- The model has no embeddings, persistence or concurrency. Chroma computes and keeps them.
- MD5 is the parameter `md5`. Nothing is assumed about it beyond being a function: no 32-digit
  hex format and no collision freedom.
- The two author regular expressions are the `AuthorPatterns` parameter. The arXiv-id and
  sentence-split patterns are written out. Whitespace is Python's `str.isspace` set (the
  characters `\s` matches), written out in `IsSpace`.
- `Basename` is POSIX `os.path.basename`, whose separator is `/`. The Windows rule, which also
  cuts at `\` and after a drive prefix such as `C:`, is not modelled. On Windows a path built by
  `os.path.join`, such as `data\downloads\2301.12345.pdf`, has the stem `2301.12345` in the
  program but the whole path as its stem in the model, so the model gives it a hashed doc id and
  "manual_upload" where the program gives the arXiv id and "arxiv".
- `\d` in the arXiv-id pattern is the set of decimal digits of Unicode 15.0 (`DecimalZeros`).
  Another Unicode version of the Python runtime may add digit runs.
- PyPDF2 is replaced by the `PdfFile` value. `extract_text` failing and `extract_metadata`
  failing are the same event (an unreadable file), so a file that yields text but fails
  metadata extraction is not modelled.
- A page whose extraction succeeds is a string; a page that fails makes the whole text "".
- `datetime.now()` is the parameter `today`.
- Logging and `print` are not modelled. They have no effect on results.
- Error messages are not modelled. The text of an exception becomes the result `StoreError`.
- Caller metadata is a map from strings to strings. Other Python value types are not modelled.
- Chroma's `add` of an id that is already present is modelled as leaving the collection alone.
  Chroma's precise behaviour there is not part of the program.
- The `chunks` lists that `get_all_documents` builds inside `main_documents` are not modelled.
  They are never returned.
- `delete` and `add` are atomic per call.
- Raised exceptions are modelled as explicit fault parameters. A `get` that fails inside the
  duplicate check is the flag `dedupFault`; the failing add is `addFault`.
- Chunker.LayoutFits: this does not bound the rendered length of a sentence chunk by `max_size`,
  because the code does not keep that bound; `SentenceChunkLength` gives the exact length.
