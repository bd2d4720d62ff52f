/** `DocumentProcessor`: chunking parameters with `or`-defaulting, the
    file-extension guard in front of the PDF loader, the first page's
    metadata, and the load-metadata-split pipeline. The PDF loader and the
    text splitter are foreign code and appear as function parameters. */
module DocumentProcessor {
  import opened Outcomes
  import opened Truthiness
  import opened Settings
  import opened Documents
  import opened Text
  import opened Paths

  type Metadata = map<string, string>

  /** The processor's state: the splitter's configuration and the last
      metadata read by `load_metadata`. */
  datatype Processor = Processor(chunkSize: int, chunkOverlap: int, metadata: Metadata)

  /** `DocumentProcessor(chunk_size, chunk_overlap)`: each argument is
      kept when truthy and replaced by its setting otherwise, so neither
      can end up zero; the metadata starts empty. */
  function NewProcessor(chunkSize: Option<int>, chunkOverlap: Option<int>): (p: Processor)
    ensures p.chunkSize != 0 && p.chunkOverlap != 0
    ensures IntIsTruthy(chunkSize) ==> p.chunkSize == chunkSize.value
    ensures IntIsTruthy(chunkOverlap) ==> p.chunkOverlap == chunkOverlap.value
    ensures p.metadata == map[]
  {
    Processor(IntOr(chunkSize, ChunkSize), IntOr(chunkOverlap, ChunkOverlap), map[])
  }

  /** A missing argument and an explicit zero both give the settings'
      1000 and 200: an overlap of zero cannot be configured. */
  lemma DefaultsApply()
    ensures NewProcessor(None, None) == Processor(1000, 200, map[])
    ensures NewProcessor(Some(0), Some(0)) == Processor(1000, 200, map[])
    ensures NewProcessor(Some(0), None) == NewProcessor(None, Some(0))
  {
  }

  /** The `or` keeps any non-zero argument as given. Whether the splitter's
      constructor then accepts the pair (it refuses, for instance, an
      overlap larger than the size) is outside this model. */
  lemma ExplicitValuesKept(size: int, overlap: int)
    requires size != 0 && overlap != 0
    ensures NewProcessor(Some(size), Some(overlap)) == Processor(size, overlap, map[])
  {
  }

  /** `Path(file_path).suffix.lower()`. */
  function Extension(path: string): string {
    Lower(Suffix(path))
  }

  /** An extension is empty or starts with a dot. */
  lemma ExtensionShape(path: string)
    ensures Extension(path) == "" || (|Extension(path)| >= 2 && Extension(path)[0] == '.')
  {
  }

  /** The message `load_document` raises for a rejected extension. */
  function Unsupported(ext: string): string {
    "Unsupported file " + ext + " extention. Use .pdf file"
  }

  /** `load_document` as written: the lower-cased suffix is compared with
      "pdf", without the dot. A missing path is a `TypeError` from `Path`. */
  function LoadDocumentAsWritten(filePath: Option<string>, loader: string -> Result<seq<Document>>)
    : (r: Result<seq<Document>>)
    ensures filePath.None? ==> r == Failure(TypeError)
    ensures r.Success? ==> filePath.Some? && Extension(filePath.value) == "pdf"
  {
    if filePath.None? then Failure(TypeError)
    else
      var ext := Extension(filePath.value);
      if ext == "pdf" then loader(filePath.value)
      else Failure(ValueError(Unsupported(ext)))
  }

  /** Since an extension is empty or starts with '.', it never equals
      "pdf": the written guard rejects every path, `.pdf` files included. */
  lemma LoadDocumentAsWrittenRejectsAll(filePath: Option<string>, loader: string -> Result<seq<Document>>)
    ensures LoadDocumentAsWritten(filePath, loader).Failure?
    ensures filePath.Some? ==>
      LoadDocumentAsWritten(filePath, loader).error == ValueError(Unsupported(Extension(filePath.value)))
  {
    if filePath.Some? {
      ExtensionShape(filePath.value);
    }
  }

  /** The extension `load_document` evidently means to accept. */
  const PdfExtension: string := ".pdf"

  /** `load_document` with the comparison against ".pdf": the loader runs
      exactly for paths whose lower-cased suffix is ".pdf", and its result
      is returned unchanged. */
  function LoadDocument(filePath: Option<string>, loader: string -> Result<seq<Document>>)
    : (r: Result<seq<Document>>)
    ensures filePath.None? ==> r == Failure(TypeError)
    ensures filePath.Some? && Extension(filePath.value) == PdfExtension ==> r == loader(filePath.value)
    ensures filePath.Some? && Extension(filePath.value) != PdfExtension ==>
      r == Failure(ValueError(Unsupported(Extension(filePath.value))))
  {
    if filePath.None? then Failure(TypeError)
    else
      var ext := Extension(filePath.value);
      if ext == PdfExtension then loader(filePath.value)
      else Failure(ValueError(Unsupported(ext)))
  }

  /** Lower-casing a string gives ".pdf" exactly when the string is a dot
      followed by some capitalisation of "pdf". */
  lemma LowerIsPdf(ext: string)
    requires |ext| == 3 && Lower(ext) == "pdf"
    ensures Lower("." + ext) == PdfExtension
  {
    var s := "." + ext;
    assert Lower(s)[0] == '.';
    assert forall i :: 1 <= i < 4 ==> Lower(s)[i] == Lower(ext)[i - 1];
  }

  /** A file `stem.pdf`, in any capitalisation and in any directory, passes
      the corrected guard and goes to the loader. */
  lemma LoadDocumentAcceptsPdf(dir: string, stem: string, ext: string, loader: string -> Result<seq<Document>>)
    requires stem != [] && '/' !in stem
    requires |ext| == 3 && Lower(ext) == "pdf"
    ensures var p := dir + "/" + (stem + "." + ext);
      LoadDocument(Some(p), loader) == loader(p)
  {
    assert '.' !in ext && '/' !in ext by {
      forall i | 0 <= i < |ext|
        ensures ext[i] != '.' && ext[i] != '/'
      {
        assert Lower(ext)[i] == LowerChar(ext[i]);
      }
    }
    SuffixOfDottedName(dir, stem, ext);
    LowerIsPdf(ext);
  }

  /** The same for a bare file name. */
  lemma LoadDocumentAcceptsBarePdf(stem: string, ext: string, loader: string -> Result<seq<Document>>)
    requires stem != [] && '/' !in stem
    requires |ext| == 3 && Lower(ext) == "pdf"
    ensures LoadDocument(Some(stem + "." + ext), loader) == loader(stem + "." + ext)
  {
    assert '.' !in ext && '/' !in ext by {
      forall i | 0 <= i < |ext|
        ensures ext[i] != '.' && ext[i] != '/'
      {
        assert Lower(ext)[i] == LowerChar(ext[i]);
      }
    }
    SuffixOfBareName(stem, ext);
    LowerIsPdf(ext);
  }

  /** Conversely, a path whose extension is ".pdf", the only one the
      corrected guard lets through, has a name that ends in a dot and three
      characters lower-casing to "pdf", with something before the dot. */
  lemma PdfExtensionShape(path: string)
    requires Extension(path) == PdfExtension
    ensures var n := Name(path);
      |n| > 4 && n[|n| - 4] == '.' && Lower(n[|n| - 3..]) == "pdf"
  {
    var s := Suffix(path);
    var n := Name(path);
    assert |s| == 4;
    assert s == n[|n| - 4..];
    var t := n[|n| - 3..];
    forall i | 0 <= i < 3
      ensures Lower(t)[i] == PdfExtension[i + 1]
    {
      assert t[i] == s[i + 1];
      assert Lower(s)[i + 1] == LowerChar(s[i + 1]);
    }
  }

  /** `documents[0].metadata or dict()`: an empty map is replaced by a new
      empty map, which is the same value. */
  function MetadataOr(m: Metadata): Metadata {
    if |m| > 0 then m else map[]
  }

  /** `load_metadata`: the first document's metadata, which is also stored
      in the processor. A missing list is a `TypeError` and an empty list
      an `IndexError`. */
  function LoadMetadata(p: Processor, documents: Option<seq<Document>>): (r: Result<(Processor, Metadata)>)
    ensures r.Failure? <==> documents.None? || documents.value == []
    ensures documents.None? ==> r == Failure(TypeError)
    ensures documents == Some([]) ==> r == Failure(IndexError)
    ensures r.Success? ==>
      && r.value.1 == documents.value[0].metadata
      && r.value.0 == p.(metadata := r.value.1)
  {
    if documents.None? then Failure(TypeError)
    else if documents.value == [] then Failure(IndexError)
    else
      var md := MetadataOr(documents.value[0].metadata);
      assert |md| == 0 ==> md == documents.value[0].metadata;
      Success((p.(metadata := md), md))
  }

  /** Only the first document matters to `load_metadata`: neither the
      metadata read before nor the documents after the first change what
      it reads and stores. */
  lemma LoadMetadataFirstDecides(p: Processor, q: Processor, first: Document, rest: seq<Document>)
    requires p.(metadata := map[]) == q.(metadata := map[])
    ensures LoadMetadata(p, Some([first] + rest)) == LoadMetadata(q, Some([first]))
  {
  }

  /** Reading the metadata again from the same documents changes nothing. */
  lemma LoadMetadataTwice(p: Processor, documents: seq<Document>)
    requires documents != []
    ensures var once := LoadMetadata(p, Some(documents)).value;
      LoadMetadata(once.0, Some(documents)) == Success(once)
  {
  }

  /** What `process` returns, with the processor's state after it. */
  datatype Processed = Processed(processor: Processor, chunks: seq<Document>, metadata: Metadata)

  /** `process`, with a given guard: load, then read the metadata, then
      split; the first failure ends the pipeline. `split` stands for the
      text splitter configured with the processor's size and overlap. */
  function Pipeline(p: Processor, loaded: Result<seq<Document>>,
                    split: (int, int, seq<Document>) -> seq<Document>): (r: Result<Processed>)
    ensures r.Success? <==> loaded.Success? && loaded.value != []
    ensures loaded.Failure? ==> r == Failure(loaded.error)
    ensures loaded == Success([]) ==> r == Failure(IndexError)
    ensures r.Success? ==>
      var docs := loaded.value;
      && r.value.chunks == split(p.chunkSize, p.chunkOverlap, docs)
      && r.value.metadata == docs[0].metadata
      && r.value.processor == p.(metadata := docs[0].metadata)
  {
    if loaded.Failure? then Failure(loaded.error)
    else
      var docs := loaded.value;
      var m := LoadMetadata(p, Some(docs));
      if m.Failure? then Failure(m.error)
      else
        var (p', md) := m.value;
        Success(Processed(p', split(p'.chunkSize, p'.chunkOverlap, docs), md))
  }

  /** `process` as written, with the guard that compares against "pdf". */
  function ProcessAsWritten(p: Processor, filePath: Option<string>, loader: string -> Result<seq<Document>>,
                            split: (int, int, seq<Document>) -> seq<Document>): (r: Result<Processed>)
    ensures r.Success? ==> filePath.Some? && Extension(filePath.value) == "pdf"
  {
    Pipeline(p, LoadDocumentAsWritten(filePath, loader), split)
  }

  /** As written, `process` fails for every path before the loader, the
      metadata or the splitter is reached. */
  lemma ProcessAsWrittenAlwaysFails(p: Processor, filePath: Option<string>, loader: string -> Result<seq<Document>>,
                                    split: (int, int, seq<Document>) -> seq<Document>)
    ensures ProcessAsWritten(p, filePath, loader, split).Failure?
    ensures filePath.Some? ==>
      ProcessAsWritten(p, filePath, loader, split).error == ValueError(Unsupported(Extension(filePath.value)))
  {
    LoadDocumentAsWrittenRejectsAll(filePath, loader);
  }

  /** `process` with the corrected guard. */
  function Process(p: Processor, filePath: Option<string>, loader: string -> Result<seq<Document>>,
                   split: (int, int, seq<Document>) -> seq<Document>): (r: Result<Processed>)
    ensures r.Success? ==> filePath.Some? && Extension(filePath.value) == PdfExtension
  {
    Pipeline(p, LoadDocument(filePath, loader), split)
  }

  /** A `.pdf` file whose loader yields at least one page is processed: the
      chunks are the splitter's output under the processor's configuration
      and the metadata is the first page's. */
  lemma ProcessPdf(p: Processor, dir: string, stem: string, ext: string,
                   loader: string -> Result<seq<Document>>,
                   split: (int, int, seq<Document>) -> seq<Document>)
    requires stem != [] && '/' !in stem
    requires |ext| == 3 && Lower(ext) == "pdf"
    requires var path := dir + "/" + (stem + "." + ext);
      loader(path).Success? && loader(path).value != []
    ensures var path := dir + "/" + (stem + "." + ext);
      var docs := loader(path).value;
      var r := Process(p, Some(path), loader, split);
      && r.Success?
      && r.value.chunks == split(p.chunkSize, p.chunkOverlap, docs)
      && r.value.metadata == docs[0].metadata
      && r.value.processor.metadata == docs[0].metadata
  {
    LoadDocumentAcceptsPdf(dir, stem, ext, loader);
  }
}
