/**
 * `PDFProcessor.extract_text` and `PDFProcessor.extract_metadata`.
 *
 * A PDF file is seen through what PyPDF2 makes of it: either the file cannot be opened or
 * parsed, or it yields a document-information dictionary and one text extraction per page,
 * any of which may raise. Metadata records are Python dictionaries whose values are strings or
 * `None`. The two author regular expressions are abstract matchers, tried in order.
 */
module PdfProcessor {
  import opened Wrappers
  import opened Strings

  /** What PyPDF2 makes of the file at `pdf_path`. */
  datatype PdfFile =
    | Unreadable
      // `open` or `PdfReader` raises
    | Readable(info: map<string, string>, pages: seq<Option<string>>)
      // `reader.metadata` as a dictionary (empty when absent); per page, `None` when its
      // `extract_text()` raises

  /** A value of a metadata dictionary: a string, or Python's `None`. */
  datatype Value = Str(s: string) | Null

  type Metadata = map<string, Value>

  /** `str(v)`. */
  function PyStr(v: Value): string
  {
    match v
    case Str(s) => s
    case Null => "None"
  }

  /** `d.get(key)`: the value, or `None` when the key is absent. */
  function Get(d: Metadata, key: string): Value
  {
    if key in d then d[key] else Null
  }

  /** The truth value of a string-or-`None`: only a non-empty string is true. */
  predicate Truthy(v: Value)
  {
    v.Str? && v.s != ""
  }

  // ---------------------------------------------------------------------------------------
  // extract_text

  predicate AllExtracted(pages: seq<Option<string>>)
  {
    forall k :: 0 <= k < |pages| ==> pages[k].Some?
  }

  /** Every page's text followed by a newline, in page order. */
  function PagesText(pages: seq<Option<string>>): string
    requires AllExtracted(pages)
    decreases |pages|
  {
    if pages == [] then ""
    else PagesText(pages[..|pages| - 1]) + pages[|pages| - 1].value + "\n"
  }

  /** The text `extract_text` returns for a file. */
  function TextOf(f: PdfFile): string
  {
    if f.Readable? && AllExtracted(f.pages) then PagesText(f.pages) else ""
  }

  /** Each page contributes its text and one newline. */
  lemma {:induction false} PagesTextLength(pages: seq<Option<string>>)
    requires AllExtracted(pages)
    ensures |PagesText(pages)| >= |pages|
    ensures pages != [] ==> PagesText(pages)[|PagesText(pages)| - 1] == '\n'
    decreases |pages|
  {
    if pages != [] {
      PagesTextLength(pages[..|pages| - 1]);
    }
  }

  /** The text is empty exactly when extraction failed or the document has no pages. */
  lemma {:induction false} TextOfEmpty(f: PdfFile)
    ensures TextOf(f) == "" <==> (f.Unreadable? || !AllExtracted(f.pages) || f.pages == [])
  {
    if f.Readable? && AllExtracted(f.pages) {
      PagesTextLength(f.pages);
    }
  }

  /** `PDFProcessor.extract_text()`. */
  method ExtractText(f: PdfFile) returns (text: string)
    ensures text == TextOf(f)
  {
    if f.Unreadable? {
      return "";
    }
    text := "";
    var pages := f.pages;
    for pageNum := 0 to |pages|
      invariant AllExtracted(pages[..pageNum])
      invariant text == PagesText(pages[..pageNum])
    {
      var page := pages[pageNum];
      if page.None? {
        assert !AllExtracted(pages);
        return "";
      }
      assert pages[..pageNum + 1][..pageNum] == pages[..pageNum];
      text := text + page.value + "\n";
    }
    assert pages[..|pages|] == pages;
  }

  // ---------------------------------------------------------------------------------------
  // extract_metadata

  /** `os.path.basename(path).replace(".pdf", "")`. */
  function Stem(path: string): string
  {
    RemoveAll(Basename(path), ".pdf")
  }

  /**
   * The code point of the digit zero of every run of decimal digits (general category Nd) in
   * Unicode 15.0; each run holds the ten digits zero to nine in order.
   */
  const DecimalZeros: seq<int> := [
    0x30, 0x660, 0x6F0, 0x7C0, 0x966, 0x9E6, 0xA66, 0xAE6, 0xB66, 0xBE6, 0xC66, 0xCE6,
    0xD66, 0xDE6, 0xE50, 0xED0, 0xF20, 0x1040, 0x1090, 0x17E0, 0x1810, 0x1946, 0x19D0,
    0x1A80, 0x1A90, 0x1B50, 0x1BB0, 0x1C40, 0x1C50, 0xA620, 0xA8D0, 0xA900, 0xA9D0, 0xA9F0,
    0xAA50, 0xABF0, 0xFF10, 0x104A0, 0x10D30, 0x11066, 0x110F0, 0x11136, 0x111D0, 0x112F0,
    0x11450, 0x114D0, 0x11650, 0x116C0, 0x11730, 0x118E0, 0x11950, 0x11C50, 0x11D50, 0x11DA0,
    0x11F50, 0x16A60, 0x16AC0, 0x16B50, 0x1D7CE, 0x1D7D8, 0x1D7E2, 0x1D7EC, 0x1D7F6, 0x1E140,
    0x1E2F0, 0x1E4F0, 0x1E950, 0x1FBF0]

  /** The regex class `\d` on a `str` pattern: any Unicode decimal digit, not only `0`-`9`. */
  predicate IsDigit(c: char)
  {
    exists k :: 0 <= k < |DecimalZeros| && DecimalZeros[k] <= c as int < DecimalZeros[k] + 10
  }

  /**
   * `re.match(r"\d{4}\.\d{4,5}", name)` succeeds: the match is anchored at the start only, and
   * the fifth digit after the dot is optional, so four digits, a dot and four digits suffice.
   */
  predicate IsArxivId(name: string)
  {
    |name| >= 9 && name[4] == '.'
    && (forall i :: 0 <= i < 4 ==> IsDigit(name[i]))
    && (forall i :: 5 <= i < 9 ==> IsDigit(name[i]))
  }

  /** Fullwidth digits count as digits, so a stem written in them is taken for an arXiv id. */
  lemma {:induction false} FullwidthArxivId()
    ensures IsArxivId("\U{FF12}\U{FF10}\U{FF12}\U{FF13}.\U{FF11}\U{FF12}\U{FF13}\U{FF14}\U{FF15}")
  {
    var name := "\U{FF12}\U{FF10}\U{FF12}\U{FF13}.\U{FF11}\U{FF12}\U{FF13}\U{FF14}\U{FF15}";
    assert DecimalZeros[36] == 0xFF10;
    forall i | 0 <= i < 9 && i != 4 ensures IsDigit(name[i]) {
      assert DecimalZeros[36] <= name[i] as int < DecimalZeros[36] + 10;
    }
  }

  /** The rule is a prefix match: anything may follow an id, such as a version suffix. */
  lemma {:induction false} ArxivIdPrefixMatch(name: string, rest: string)
    requires IsArxivId(name)
    ensures IsArxivId(name + rest)
  {
    assert (name + rest)[..9] == name[..9];
  }

  /** A compiled author pattern: group 1 of the first match that `re.search` finds, if any. */
  type Matcher = string -> Option<string>

  /** The two author patterns: the labelled form, then a name line above an affiliation line. */
  datatype AuthorPatterns = AuthorPatterns(byLabel: Matcher, byAffiliation: Matcher)

  function PatternList(p: AuthorPatterns): seq<Matcher>
  {
    [p.byLabel, p.byAffiliation]
  }

  /** Group 1 of the first pattern that matches, trying them in order. */
  function FirstMatch(patterns: seq<Matcher>, s: string): Option<string>
    decreases |patterns|
  {
    if patterns == [] then None
    else if patterns[0](s).Some? then patterns[0](s)
    else FirstMatch(patterns[1..], s)
  }

  /** `FirstMatch` is the first matching pattern's group, and `None` only when none matches. */
  lemma {:induction false} FirstMatchIsFirst(patterns: seq<Matcher>, s: string)
    ensures FirstMatch(patterns, s).None? <==> forall k :: 0 <= k < |patterns| ==> patterns[k](s).None?
    ensures forall k :: (0 <= k < |patterns| && patterns[k](s).Some?
      && (forall j :: 0 <= j < k ==> patterns[j](s).None?)) ==> FirstMatch(patterns, s) == patterns[k](s)
    decreases |patterns|
  {
    if patterns != [] {
      FirstMatchIsFirst(patterns[1..], s);
      forall k | 1 <= k < |patterns| ensures patterns[k] == patterns[1..][k - 1] {}
      if patterns[0](s).None? {
        forall k | 0 <= k < |patterns| && patterns[k](s).Some? && (forall j :: 0 <= j < k ==> patterns[j](s).None?)
          ensures FirstMatch(patterns, s) == patterns[k](s)
        {
          assert k > 0;
          forall j | 0 <= j < k - 1 ensures patterns[1..][j](s).None? {
            assert patterns[1..][j] == patterns[j + 1];
          }
        }
      }
    }
  }

  /** The first page: `"\n".join(text.split("\n\n")[:10])`. */
  function FirstBlocks(text: string): string
  {
    Join(Take(SplitOn(text, "\n\n"), 10), "\n")
  }

  /** What the document-information dictionary contributes, when it is non-empty. */
  function InfoMetadata(info: map<string, string>): Metadata
  {
    if |info| == 0 then map[]
    else map["title" := Lookup(info, "/Title"), "authors" := Lookup(info, "/Author"),
             "created" := Lookup(info, "/CreationDate")]
  }

  /** `info.get(key, None)`. */
  function Lookup(info: map<string, string>, key: string): Value
  {
    if key in info then Str(info[key]) else Null
  }

  function WithTitle(md: Metadata, path: string): Metadata
  {
    if Truthy(Get(md, "title")) then md else md["title" := Str(Stem(path))]
  }

  function WithAuthors(md: Metadata, text: string, patterns: AuthorPatterns): Metadata
  {
    if Truthy(Get(md, "authors")) || text == "" then md
    else WithFound(md, FirstMatch(PatternList(patterns), FirstBlocks(text)))
  }

  /** The stripped group of a successful author search, when there is one. */
  function WithFound(md: Metadata, found: Option<string>): Metadata
  {
    match found
    case None => md
    case Some(g) => md["authors" := Str(Strip(g))]
  }

  function WithCreated(md: Metadata, today: string): Metadata
  {
    if Truthy(Get(md, "created")) then md else md["created" := Str(today)]
  }

  function WithSource(md: Metadata, path: string): Metadata
  {
    var stem := Stem(path);
    if IsArxivId(stem) then md["arxiv_id" := Str(stem)]["source" := Str("arxiv")]
    else md["source" := Str("manual_upload")]
  }

  /** The record returned when reading the file fails. */
  function MinimalMetadata(path: string, today: string): Metadata
  {
    map["title" := Str(Stem(path)), "authors" := Str(""), "created" := Str(today),
        "source" := Str("manual_upload")]
  }

  /** The record `extract_metadata` returns, with `today` standing for `datetime.now()`. */
  function MetadataOf(path: string, f: PdfFile, today: string, patterns: AuthorPatterns): Metadata
  {
    match f
    case Unreadable => MinimalMetadata(path, today)
    case Readable(info, pages) =>
      WithSource(WithCreated(WithAuthors(WithTitle(InfoMetadata(info), path), TextOf(f), patterns), today), path)
  }

  /** Failure path: a file that cannot be read gives exactly the minimal record, with no `arxiv_id`. */
  lemma {:induction false} FailureGivesMinimal(path: string, today: string, patterns: AuthorPatterns)
    ensures MetadataOf(path, Unreadable, today, patterns) == MinimalMetadata(path, today)
    ensures "arxiv_id" !in MetadataOf(path, Unreadable, today, patterns)
  {
  }

  /** Title: the embedded title when it is a non-empty string, otherwise the stem of the file name. */
  lemma {:induction false} TitleFallback(path: string, f: PdfFile, today: string, patterns: AuthorPatterns)
    requires f.Readable?
    ensures var md := MetadataOf(path, f, today, patterns);
      "title" in md && md["title"] ==
        (if |f.info| > 0 && "/Title" in f.info && f.info["/Title"] != "" then Str(f.info["/Title"])
         else Str(Stem(path)))
  {
    var md0 := WithTitle(InfoMetadata(f.info), path);
    assert "title" in md0;
    var md1 := WithAuthors(md0, TextOf(f), patterns);
    assert md1["title"] == md0["title"];
    var md2 := WithCreated(md1, today);
    assert md2["title"] == md0["title"];
  }

  /**
   * Authors: the embedded author when it is a non-empty string; otherwise, when the text is
   * non-empty, the stripped group of the first pattern that matches the first page; otherwise
   * whatever the information dictionary gave (absent, `None` or empty).
   */
  lemma {:induction false} AuthorFallback(path: string, f: PdfFile, today: string, patterns: AuthorPatterns)
    requires f.Readable?
    ensures var md := MetadataOf(path, f, today, patterns);
      var given := Get(InfoMetadata(f.info), "authors");
      var found := FirstMatch(PatternList(patterns), FirstBlocks(TextOf(f)));
      Get(md, "authors") ==
        (if Truthy(given) || TextOf(f) == "" || found.None? then given else Str(Strip(found.value)))
  {
    var md0 := WithTitle(InfoMetadata(f.info), path);
    assert Get(md0, "authors") == Get(InfoMetadata(f.info), "authors");
    var md1 := WithAuthors(md0, TextOf(f), patterns);
    AuthorsStage(md0, TextOf(f), patterns);
    var md2 := WithCreated(md1, today);
    assert Get(md2, "authors") == Get(md1, "authors");
    assert Get(WithSource(md2, path), "authors") == Get(md2, "authors");
  }

  /** The author stage: a true value stays, else the stripped group of the first match, if any. */
  lemma {:induction false} AuthorsStage(md: Metadata, text: string, patterns: AuthorPatterns)
    ensures var found := FirstMatch(PatternList(patterns), FirstBlocks(text));
      Get(WithAuthors(md, text, patterns), "authors") ==
        (if Truthy(Get(md, "authors")) || text == "" || found.None? then Get(md, "authors")
         else Str(Strip(found.value)))
  {
  }

  /** Date: the embedded creation date when it is a non-empty string, otherwise today's date. */
  lemma {:induction false} DateDefault(path: string, f: PdfFile, today: string, patterns: AuthorPatterns)
    requires f.Readable?
    ensures var md := MetadataOf(path, f, today, patterns);
      "created" in md && md["created"] ==
        (if |f.info| > 0 && "/CreationDate" in f.info && f.info["/CreationDate"] != ""
         then Str(f.info["/CreationDate"]) else Str(today))
  {
    var md0 := WithTitle(InfoMetadata(f.info), path);
    assert Get(md0, "created") == Get(InfoMetadata(f.info), "created");
    var md1 := WithAuthors(md0, TextOf(f), patterns);
    assert Get(md1, "created") == Get(md0, "created");
  }

  /**
   * arXiv rule: an id-shaped stem is recorded as `arxiv_id` with source "arxiv"; any other
   * stem gives source "manual_upload" and no `arxiv_id`, whatever the file's contents.
   */
  lemma {:induction false} ArxivRule(path: string, f: PdfFile, today: string, patterns: AuthorPatterns)
    requires f.Readable?
    ensures var md := MetadataOf(path, f, today, patterns);
      "source" in md &&
      (if IsArxivId(Stem(path))
       then "arxiv_id" in md && md["arxiv_id"] == Str(Stem(path)) && md["source"] == Str("arxiv")
       else "arxiv_id" !in md && md["source"] == Str("manual_upload"))
  {
    var md0 := WithTitle(InfoMetadata(f.info), path);
    assert "arxiv_id" !in md0;
    var md1 := WithAuthors(md0, TextOf(f), patterns);
    assert "arxiv_id" !in md1;
    var md2 := WithCreated(md1, today);
    assert "arxiv_id" !in md2;
  }

  /**
   * The author search of `extract_metadata`: each pattern in turn against the first page,
   * stopping at the first that matches.
   */
  method SearchAuthors(text: string, patterns: AuthorPatterns) returns (found: Option<string>)
    ensures found == FirstMatch(PatternList(patterns), FirstBlocks(text))
  {
    var joinedFirstPage := FirstBlocks(text);
    var authorPatterns := PatternList(patterns);
    found := None;
    var i := 0;
    while i < |authorPatterns|
      invariant 0 <= i <= |authorPatterns|
      invariant FirstMatch(authorPatterns, joinedFirstPage) == FirstMatch(authorPatterns[i..], joinedFirstPage)
    {
      var authorMatch := authorPatterns[i](joinedFirstPage);
      assert authorPatterns[i..][1..] == authorPatterns[i + 1..];
      if authorMatch.Some? {
        return authorMatch;
      }
      i := i + 1;
    }
  }

  /** The author fallback of `extract_metadata`: search the first page when no author is given. */
  method FillAuthors(md: Metadata, f: PdfFile, patterns: AuthorPatterns) returns (metadata: Metadata)
    ensures metadata == WithAuthors(md, TextOf(f), patterns)
  {
    metadata := md;
    if !Truthy(Get(metadata, "authors")) {
      var text := ExtractText(f);
      if text != "" {
        var authorMatch := SearchAuthors(text, patterns);
        if authorMatch.Some? {
          metadata := metadata["authors" := Str(Strip(authorMatch.value))];
        }
        assert metadata == WithFound(md, authorMatch);
      }
    }
  }

  /** The arXiv check of `extract_metadata` on the file's stem. */
  method FillSource(md: Metadata, path: string) returns (metadata: Metadata)
    ensures metadata == WithSource(md, path)
  {
    metadata := md;
    var fileName := Stem(path);
    if IsArxivId(fileName) {
      metadata := metadata["arxiv_id" := Str(fileName)];
      metadata := metadata["source" := Str("arxiv")];
    } else {
      metadata := metadata["source" := Str("manual_upload")];
    }
  }

  /** `PDFProcessor.extract_metadata()`. */
  method ExtractMetadata(path: string, f: PdfFile, today: string, patterns: AuthorPatterns)
    returns (metadata: Metadata)
    ensures metadata == MetadataOf(path, f, today, patterns)
  {
    if f.Unreadable? {
      return MinimalMetadata(path, today);
    }
    metadata := map[];
    var info := f.info;
    if |info| > 0 {
      metadata := metadata["title" := Lookup(info, "/Title")];
      metadata := metadata["authors" := Lookup(info, "/Author")];
      metadata := metadata["created" := Lookup(info, "/CreationDate")];
    }
    assert metadata == InfoMetadata(info);

    if !Truthy(Get(metadata, "title")) {
      metadata := metadata["title" := Str(Stem(path))];
    }
    metadata := FillAuthors(metadata, f, patterns);
    if !Truthy(Get(metadata, "created")) {
      metadata := metadata["created" := Str(today)];
    }
    metadata := FillSource(metadata, path);
  }
}
