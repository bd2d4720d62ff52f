# Document segmentation and vector-store core, modelled in Dafny

This project models the core of a small research-assistant application. The core has three parts.

- **Section parser** (`PDFSectionParser`). It joins the page texts of a PDF with one space and cuts the result into lines. It then recognises headings such as "4. Introduction" against a fixed vocabulary of nine section titles. Every other non-blank line goes to the bucket of the section currently in force. That section is "unknown" until the first heading. The parser returns two views of the buckets:
  - one document per section, with the lines joined by line feeds and the metadata `{"section": name}`;
  - a map from section name to the lines concatenated.
- **Vector-store manager** (`VectorStoreManager`). It wraps an optional FAISS index and has two states, uninitialised and ready. Search, scored search, retriever construction and saving fail with `ValueError` when there is no index. `k` and the save/load path fall back to their settings when they are falsy. Load fails with `FileNotFoundError` when the path does not exist.
- **Document processor** (`DocumentProcessor`). It applies `or`-defaulting to the chunk size (1000) and overlap (200). It checks the file extension before the PDF loader runs, reads the first page's metadata, and runs the pipeline load → metadata → split.

## Modelling choices

- **Python errors are values.** A raised exception is a `Failure` of `Outcomes.Result`, carrying the Python exception class and its message.
- **Python's `or`.** The idiom `x or default` is `Truthiness.IntOr` and `Truthiness.StrOr`. `None`, `0` and `""` all select the default.
- **The parser's loop is a fold.** It runs over classified lines (`Blank`, `Heading`, `Content`) and keeps an insertion-ordered association list of buckets, as Python's `dict` does. Its properties are proved against independent reference definitions written over the input lines:
  - `Touched` and `Dedup` for the keys;
  - `SectionLines` for the contents;
  - `ContentLines` for the partition.
- **Partition order.** Concatenating the buckets gives the input's content lines as a multiset, always. It gives them as a sequence only when no section is re-entered after another section has been opened. `setdefault` sends content of a re-entered section back to that section's earlier bucket. `PdfParser.ReentryReorders` proves this on the input "h1, h2, b, h1, c", whose buckets flatten to "c, b".
- **The vector store's contents.** The index is modelled by the documents it holds, in insertion order. Ranking and scoring are function parameters.
- **The file system.** It is a value of its own, with three parts:
  - the existing directories;
  - the existing files;
  - the indexes saved in some directories.

  All three are keyed by `Paths.Location`, meaning whether the path is absolute, plus its components other than "" and ".". So "idx", "idx/", "./idx" and "idx//" name one place. `save` adds the directory and every ancestor of it, as `os.makedirs` does. It also adds the two files `save_local` writes there, `index.faiss` and `index.pkl`. `load`'s existence check, like `os.path.exists`, holds for a directory and for a file.
- **The processor's foreign calls.** The PDF loader and the text splitter are function parameters.
- **Strings.** The string primitives work over ASCII:
  - `isspace` covers characters 9–13 and 28–32;
  - `splitlines` breaks at 10–13 and 28–30, and a carriage return followed by a line feed is one break;
  - `lower` maps `A`–`Z` to `a`–`z`.
- **Paths.** `Path.name` and `Path.suffix` follow `pathlib` for POSIX paths, with the suffix rule of Python 3.13 and earlier. The suffix starts at the last dot of the name, provided that dot is neither the name's first nor its last character.
- **Settings.** The constants come from `config/settings.py`: 1000, 200, `"data/faiss_index"` and 3.

## Model

| member | source | states |
|---|---|---|
| `PdfParser.StripNumbering` | core/pdf_parser.py:22-24 | removes exactly the maximal leading run of digits, dots and spaces: everything removed is such a character, and what is left is empty or starts with another character |
| `PdfParser.NormalizeHeading` | core/pdf_parser.py:19-26 | the normalised heading is lower-case, has no whitespace at either end, and is a contiguous substring of the stripped, lower-cased line |
| `PdfParser.NormalizeNumberedWord` | core/pdf_parser.py:19-26 | any numbering prefix of digits, dots and spaces followed by a word of letters normalises to the lower-cased word, e.g. "4. Introduction" to "introduction" |
| `PdfParser.DropNumberingPrefix` | core/pdf_parser.py:22-24 | the prefix loop stops at the first character that is not a digit, dot or space |
| `PdfParser.NumberedTitleIsHeading` | core/pdf_parser.py:35-41 | a numbered title line in any letter case, such as "2.1 Methods", is classified as a heading for the lower-cased title |
| `PdfParser.Classify` | core/pdf_parser.py:35-43 | a line is blank iff its stripped form is empty; a heading names a recognised title equal to the normalised line; content is the non-empty stripped line, whose normalised form is not a title |
| `PdfParser.Register` | core/pdf_parser.py:42 | `setdefault(name, [])`: afterwards `name` is a key; the keys are unchanged when it already was one, and otherwise gain `name` at the end; no stored line changes |
| `PdfParser.RegisterLookup` | core/pdf_parser.py:42 | what is stored under every name is the same after `setdefault` as before |
| `PdfParser.AppendLine` | core/pdf_parser.py:45 | `setdefault(name, []).append(line)` has the keys that `setdefault` alone gives |
| `PdfParser.AppendLineLookup` | core/pdf_parser.py:45 | after the append, `line` is stored last under `name`, and what is stored under every other name is unchanged |
| `PdfParser.AppendLineFlatten` | core/pdf_parser.py:45 | the append adds exactly one occurrence of `line` to the buckets' lines taken together |
| `PdfParser.Run` | core/pdf_parser.py:31-45 | the loop never has more buckets than lines read, and the current section is "unknown" or has a bucket |
| `PdfParser.RunInvariant` | core/pdf_parser.py:31-45 | the loop's current section is the last heading seen, or "unknown"; the keys are the touched sections in first-appearance order; each bucket holds exactly its section's content lines |
| `PdfParser.BucketHoldsSectionLines` | core/pdf_parser.py:40-45 | keys are distinct, and each bucket holds, in input order, exactly the content lines read while its section was current |
| `PdfParser.KeysInFirstAppearanceOrder` | core/pdf_parser.py:40-45 | one key per distinct section, ordered by first appearance; every heading has a key even when no content follows it |
| `PdfParser.KeysInVocabulary` | core/pdf_parser.py:32-45 | every key is "unknown" or one of the nine section titles |
| `PdfParser.CurrentUnknownIffNoHeading` | core/pdf_parser.py:32-41 | the current section is "unknown" exactly when no heading has been read |
| `PdfParser.UnknownKeyIffLeadingContent` | core/pdf_parser.py:32-45 | "unknown" is a key iff some content line precedes the first heading |
| `PdfParser.Partition` | core/pdf_parser.py:34-45 | the buckets together hold every content line exactly once, and nothing else: headings and blank lines are never content |
| `PdfParser.PartitionInOrder` | core/pdf_parser.py:34-45 | when no section is re-entered, concatenating the buckets in key order gives the content lines in input order |
| `PdfParser.ReentryReorders` | core/pdf_parser.py:40-45 | re-entering a section sends later content back to its earlier bucket, so the concatenated buckets no longer follow input order |
| `PdfParser.Views` | core/pdf_parser.py:47-58 | both views have one entry per bucket with the same keys in the same order; documents carry `{"section": name}`; when no line holds a line feed, each map value is its document's text with the line feeds deleted |
| `PdfParser.Parse` | core/pdf_parser.py:28-60 | both views have the same keys in the same order, distinct and drawn from the vocabulary or "unknown"; each map value is its document's text without the separators; no pages give empty views |
| `PdfParser.ViewsWellFormed` | core/pdf_parser.py:47-60 | for any classified input, the parse views have distinct keys from the vocabulary and line-feed-free joins |
| `PdfParser.ViewsMatchReference` | core/pdf_parser.py:47-58 | section i of both views is the i-th distinct touched section; its document is its content lines joined with "\n" and its map value those lines joined with "" |
| `PdfParser.ParseMatchesReference` | core/pdf_parser.py:28-60 | the same for `parse` itself, in terms of the lines of the space-joined pages |
| `PdfParser.JoinAddsNoBreak` | core/pdf_parser.py:29 | joining the pages with a space adds no line break: the full text has exactly the pages' line breaks |
| `Text.Strip` | core/pdf_parser.py:35 | the result has no whitespace at either end, and is the input with whitespace removed from the front and back only |
| `Text.Lower` | core/pdf_parser.py:20 | the result has the input's length and no capital letters, character for character the lower-cased input |
| `Text.SplitLines` | core/pdf_parser.py:34 | no line contains a line break; only the empty text has no lines; the first line is the text up to its first break |
| `Text.SplitLinesRejoin` | core/pdf_parser.py:34 | when every break is a line feed, the lines rejoined with "\n" give back the text, apart from a final line feed. Since no line holds a break, the lines are exactly the pieces between consecutive line feeds |
| `Text.SplitLinesJoin` | core/pdf_parser.py:34 | the lines, concatenated, are the text with its line-break characters deleted and nothing else changed |
| `Text.StripIsSubstring` | core/pdf_parser.py:26 | a stripped string is a contiguous substring of the original |
| `Text.JoinDeleteSeparator` | core/pdf_parser.py:52-58 | for parts without the separator, deleting it from the "\n"-joined text gives the ""-joined text |
| `Truthiness.IntOr` | core/document_processor.py:11 | `x or default` on an optional int: the argument when it is truthy, the default otherwise, never zero when the default is not |
| `Truthiness.StrOr` | core/vector_store.py:55 | `x or default` on an optional string: the argument when non-empty, the default otherwise |
| `VectorStore.IsInitialized` | core/vector_store.py:19-21 | a manager without an index holds no documents |
| `VectorStore.NewManager` | core/vector_store.py:10-13 | a new manager is uninitialised, holds nothing and uses the configured index path |
| `VectorStore.CreateFromDocuments` | core/vector_store.py:23-29 | the manager becomes ready holding exactly the given documents |
| `VectorStore.CreateReplaces` | core/vector_store.py:23-29 | creating ignores whatever was held before: it replaces and never merges |
| `VectorStore.AddDocuments` | core/vector_store.py:31-35 | the manager is ready afterwards and holds the previous documents followed by the new ones |
| `VectorStore.AddToUninitializedCreates` | core/vector_store.py:31-33 | adding to a manager without an index is the same as creating one |
| `VectorStore.AddTwice` | core/vector_store.py:31-35 | two additions equal one addition of both batches in order |
| `VectorStore.ClearThenAdd` | core/vector_store.py:31-35 | after `clear`, adding documents holds exactly those documents |
| `VectorStore.EffectiveK` | core/vector_store.py:41 | the effective `k` is never zero |
| `VectorStore.EffectiveKDefaults` | core/vector_store.py:41 | a missing `k` and `k = 0` both become 3; any other `k` is kept |
| `VectorStore.Search` | core/vector_store.py:37-42 | fails with the "not Initialized" `ValueError` exactly when uninitialised; otherwise ranks all held documents with the effective `k` |
| `VectorStore.SearchWithScores` | core/vector_store.py:44-49 | the same guard and the same `k`, with scored hits |
| `VectorStore.GetRetriever` | core/vector_store.py:72-80 | fails with `ValueError` exactly when uninitialised; otherwise a similarity retriever over the held documents with the effective `k` |
| `VectorStore.Clear` | core/vector_store.py:82-83 | never fails; the manager is uninitialised afterwards and keeps its index path |
| `VectorStore.EffectivePath` | core/vector_store.py:55 | the given path when it is non-empty, otherwise the manager's index path |
| `VectorStore.EmptyPathIsDefault` | core/vector_store.py:60 | a missing or empty path means the index path |
| `VectorStore.Save` | core/vector_store.py:51-57 | `ValueError` when uninitialised. `FileNotFoundError` for an empty effective path, which `os.makedirs` refuses. Otherwise the effective path's directory and all its ancestors exist, its `index.faiss` and `index.pkl` files exist, and the current documents are saved there. Every other location's index is unchanged |
| `VectorStore.Load` | core/vector_store.py:59-70 | `FileNotFoundError` naming the effective path exactly when nothing exists there: the path is empty, or names neither a directory nor a file. A path that exists but holds no index fails in the loader. On success the manager is ready and holds exactly the documents saved at that location |
| `VectorStore.Apply` | core/vector_store.py:23-83 | a call that raises leaves both the manager and the disk unchanged |
| `VectorStore.GuardedFailsIffUninitialized` | core/vector_store.py:37-74 | without an index, search, scored search, save and `get_retriever` fail with `ValueError`. With an index, only a save to the empty path fails |
| `VectorStore.OnlyClearUninitializes` | core/vector_store.py:82-83 | from the ready state, a call ends uninitialised iff it is `clear` |
| `VectorStore.BecomingReady` | core/vector_store.py:23-70 | from the uninitialised state, a call ends ready iff it is create, add or a successful load |
| `VectorStore.Frame` | core/vector_store.py:51-70 | no call changes the index path, and only a successful save changes the disk. Saved indexes stay in existing directories, and every existing directory's or file's ancestors are existing directories |
| `VectorStore.SaveKeepsConsistent` | core/vector_store.py:55-57 | after a save, the directories `os.makedirs` creates are closed under ancestors, and the files `save_local` writes lie in existing directories |
| `VectorStore.QueriesLeaveManager` | core/vector_store.py:37-57 | search, scored search, save and `get_retriever` never change the manager |
| `VectorStore.SaveLoadRoundTrip` | core/vector_store.py:51-70 | saving and then loading into any manager from a non-empty path naming the same place restores the saved documents |
| `VectorStore.SaveLoadTrailingSlash` | core/vector_store.py:51-70 | an index saved under "p/" loads back from "p", and the other way round |
| `VectorStore.LoadSavedFile` | core/vector_store.py:57-66 | after a save to `dir`, the file `dir/index.faiss` exists. Loading from it passes the existence check and fails in the loader, unless an index was saved at that location before |
| `VectorStore.SaveCreatesParent` | core/vector_store.py:55-56 | saving to `dir/name` also creates `dir`. Loading from `dir` then finds the directory, and fails in the loader unless an index was saved there before |
| `VectorStore.SaveDefaultLoadFresh` | core/vector_store.py:51-70 | a fresh manager loads back what another saved under the default path |
| `DocumentProcessor.NewProcessor` | core/document_processor.py:10-21 | size and overlap are the arguments when truthy, otherwise the settings, and are never zero; the metadata starts empty |
| `DocumentProcessor.DefaultsApply` | core/document_processor.py:11-12 | a missing argument and an explicit 0 both give 1000 and 200, so an overlap of 0 cannot be configured |
| `DocumentProcessor.ExplicitValuesKept` | core/document_processor.py:11-12 | any non-zero size and overlap are kept as given |
| `Paths.LastMeaningful` | core/document_processor.py:24 | the result is "" exactly when no component is meaningful (neither "" nor "."); otherwise it is a meaningful component with no meaningful component after it |
| `Paths.Name` | core/document_processor.py:24 | the name contains no '/' and is not "." |
| `Paths.SplitJoin` | core/document_processor.py:24 | the components between '/' separators, rejoined with '/', give back the path |
| `Paths.NameIsLastComponent` | core/document_processor.py:24 | the name is the last component of the path's location, or "" when the location has no components |
| `Paths.Suffix` | core/document_processor.py:25 | a suffix is either empty, or a dot and at least one more character with no further dot and no '/'. It ends the name after a non-empty stem |
| `Paths.ComponentsOne` | core/vector_store.py:55-61 | a single piece is its own component when it is neither "" nor ".", and gives none otherwise |
| `Paths.ComponentsAppend` | core/vector_store.py:55-61 | the components of two runs of pieces are the first run's followed by the second's. With `ComponentsOne`, this fixes order and repetitions |
| `Paths.Locate` | core/vector_store.py:55-61 | a location is absolute iff the path starts with '/'; its components are meaningful and free of '/' |
| `Paths.Components` | core/vector_store.py:55-61 | a string is a component of the location iff it is a meaningful piece of the split path |
| `Paths.Ancestors` | core/vector_store.py:56 | the directories `os.makedirs` creates: same root, and components a prefix of the path's |
| `Paths.LocateTrailingSlash` | core/vector_store.py:55-61 | a trailing slash does not change the place a non-empty path names |
| `Paths.LocateChild` | core/vector_store.py:56 | `dir/name` names the place `name` inside the place `dir` names |
| `Paths.SuffixNonEmptyIff` | core/document_processor.py:25 | the suffix is non-empty iff the name has a last dot that is neither its first nor its last character |
| `Paths.SuffixOfDottedName` | core/document_processor.py:25 | `dir/stem.ext` has the suffix ".ext" |
| `Paths.SuffixOfBareName` | core/document_processor.py:25 | `stem.ext` has the suffix ".ext" |
| `DocumentProcessor.ExtensionShape` | core/document_processor.py:25 | the lower-cased suffix is empty or starts with '.' |
| `DocumentProcessor.LoadDocumentAsWritten` | core/document_processor.py:23-32 | a missing path is a `TypeError`; the loader's result is returned only for an extension equal to "pdf" |
| `DocumentProcessor.LoadDocumentAsWrittenRejectsAll` | core/document_processor.py:25-30 | as written, every path is rejected with the "Unsupported file" `ValueError`, `.pdf` files included |
| `DocumentProcessor.LoadDocument` | core/document_processor.py:23-32 | corrected guard: the loader's result for an extension of ".pdf", otherwise the "Unsupported file" `ValueError` naming the extension |
| `DocumentProcessor.LoadDocumentAcceptsPdf` | core/document_processor.py:24-28 | with the corrected guard, `dir/stem.pdf` in any capitalisation reaches the loader |
| `DocumentProcessor.LoadDocumentAcceptsBarePdf` | core/document_processor.py:24-28 | the same for a bare `stem.pdf` |
| `DocumentProcessor.PdfExtensionShape` | core/document_processor.py:25-27 | an accepted path's name is a non-empty stem, a dot, and three letters that lower-case to "pdf" |
| `DocumentProcessor.LoadMetadata` | core/document_processor.py:34-36 | fails iff the list is missing (`TypeError`) or empty (`IndexError`); otherwise returns the first document's metadata and stores the same value |
| `DocumentProcessor.LoadMetadataFirstDecides` | core/document_processor.py:34-36 | only the first document matters: the metadata read before and the documents after the first do not change what is read and stored |
| `DocumentProcessor.LoadMetadataTwice` | core/document_processor.py:34-36 | reading the metadata again from the same documents changes nothing |
| `DocumentProcessor.Pipeline` | core/document_processor.py:42-46 | succeeds iff loading gives at least one page; a load failure is returned unchanged; chunks are the splitter's output under the processor's size and overlap; the metadata is the first page's |
| `DocumentProcessor.ProcessAsWritten` | core/document_processor.py:42-46 | as written, succeeds only for an extension equal to "pdf" |
| `DocumentProcessor.ProcessAsWrittenAlwaysFails` | core/document_processor.py:42-46 | as written, `process` fails for every path before the loader, the metadata or the splitter runs |
| `DocumentProcessor.Process` | core/document_processor.py:42-46 | with the corrected guard, success implies the extension is ".pdf" |
| `DocumentProcessor.ProcessPdf` | core/document_processor.py:42-46 | a `.pdf` file whose loader yields pages is processed into the splitter's chunks and the first page's metadata |

## Left out

- FAISS internals are not modelled: embedding, similarity ranking, scores, the retriever object, and the `save_local`/`load_local` format with its deserialisation. Ranking and scoring are parameters of `Search` and `SearchWithScores`.
- The embedding manager the store is built with (`core/vector_store.py:11`) and `core/embedding.py` are not modelled. They are a wrapper around a floating-point model.
- VectorStore.CreateFromDocuments: does not model failures raised inside `FAISS.from_documents`, such as an empty document list. The library is not part of this model.
- VectorStore.AddDocuments: does not model failures raised inside FAISS when it creates or extends the index, for the same reason.
- VectorStore.Save: does not model `os.makedirs` failing because a component of the path is an existing file or cannot be written, nor a failure while writing the index. Those are file-system I/O. The empty path is the one makedirs failure modelled, and its message is this model's own wording of the OS error.
- VectorStore.Load: a file path written with a trailing slash, such as "idx/index.faiss/", counts as existing, because locations ignore trailing slashes. `os.path.exists` is false for it. Saving into a location that is an existing file is not refused either, although `os.makedirs` would raise.
- Paths.Locate: ".." components and symbolic links are kept as written, not resolved. A relative path and the absolute path of the same directory count as different places, because the working directory is not part of the model.
- VectorStore.Load: a path that exists but holds no readable index fails with a `CollaboratorError` of this model's own wording, since FAISS's own error is not visible here.
- `os.path.exists`, `os.makedirs`, `PyPDFLoader` and the file system are not modelled directly. They are modelled as the `Disk` value and as loader parameters.
- `RecursiveCharacterTextSplitter` and `split_document` are not modelled: splitting is a parameter. No chunk-size or overlap guarantee is claimed.
- DocumentProcessor.NewProcessor: does not model the argument checks that the splitter's constructor makes, such as an overlap larger than the size. The splitter library is not part of this model.
- Document metadata is modelled as a map from strings to strings. PDF page metadata can also hold numbers.
- Unicode is not modelled: whitespace, line breaks, digits and case follow ASCII only.
- Python 3.14 changed `PurePath.suffix` for names ending in a dot; the model follows the earlier rule. Under either rule a suffix is empty or starts with '.'.
- `parse` returns the pair `(documents, sections)`, although it is annotated as returning a list. The model returns both views as `ParseResult`. The in-place rewrite of the section map's values is modelled as building a new sequence.
- `main.py` is not modelled: it is a printing demonstration driver. It unpacks three values from `process`, which returns two.
- `core/model.py` (records without behaviour) and `core/__init__.py` (re-exports) are not part of this model.

## Findings

| source | as written | input that shows it | evidently intended | confidence | as-written member | corrected member |
|---|---|---|---|---|---|---|
| core/document_processor.py:27 | the lower-cased `Path.suffix` is compared with `'pdf'`, without the dot | `paper.pdf`: its suffix is `.pdf`, so the guard raises `ValueError("Unsupported file .pdf extention. Use .pdf file")` | compare with `'.pdf'`, so that PDF files reach the loader and `process` can succeed | high; not executed | `DocumentProcessor.LoadDocumentAsWrittenRejectsAll` | `DocumentProcessor.LoadDocument` |
