/** `VectorStoreManager`: a wrapper around an optional FAISS index. The
    index itself is opaque here; it is modelled by the documents it holds,
    in insertion order, and the ranking it performs is a parameter. The
    manager is a two-state machine, uninitialised (`_vector_store is None`)
    or ready, and every guarded operation fails with `ValueError` in the
    first state. The file system the index is saved to is an explicit
    value: the directories and files that exist, and the indexes stored
    in directories, all by location. */
module VectorStore {
  import opened Outcomes
  import opened Truthiness
  import opened Settings
  import opened Documents
  import opened Paths

  /** The manager's state: the index, when there is one, and the default
      directory for saving and loading. */
  datatype Manager = Manager(store: Option<seq<Document>>, indexPath: string)

  /** `is_initialized`: whether there is an index. Without one the
      manager holds no documents. */
  predicate IsInitialized(m: Manager)
    ensures !IsInitialized(m) ==> Contents(m) == []
  {
    m.store.Some?
  }

  /** The documents held by the index; none when there is no index. */
  function Contents(m: Manager): seq<Document> {
    if m.store.Some? then m.store.value else []
  }

  const SearchNotInitialized: string := "Vector store is not Initialized. Add documents first."
  const SaveNotInitialized: string := "Vector store is not initialized. Nothing to save."
  const RetrieverNotInitialized: string := "Vector store is not initialized."

  /** `VectorStoreManager()`: no index yet, and the configured index path. */
  function NewManager(): (m: Manager)
    ensures !IsInitialized(m)
    ensures Contents(m) == []
    ensures m.indexPath == FaissIndexPath
  {
    Manager(None, FaissIndexPath)
  }

  /** `create_from_documents`: a new index over exactly `docs`, whatever
      the manager held before. */
  function CreateFromDocuments(m: Manager, docs: seq<Document>): (r: Manager)
    ensures IsInitialized(r)
    ensures Contents(r) == docs
    ensures r.indexPath == m.indexPath
  {
    Manager(Some(docs), m.indexPath)
  }

  /** `add_documents`: creates the index when there is none, and otherwise
      appends to it; either way the documents follow the ones held. */
  function AddDocuments(m: Manager, docs: seq<Document>): (r: Manager)
    ensures IsInitialized(r)
    ensures Contents(r) == Contents(m) + docs
    ensures r.indexPath == m.indexPath
  {
    if !IsInitialized(m) then
      assert Contents(m) + docs == docs;
      CreateFromDocuments(m, docs)
    else Manager(Some(m.store.value + docs), m.indexPath)
  }

  /** `k or TOP_K_RESULTS`. */
  function EffectiveK(k: Option<int>): (r: int)
    ensures r != 0
  {
    IntOr(k, TopKResults)
  }

  /** `search`: the ranking over all held documents with the effective `k`;
      `ValueError` when there is no index. */
  function Search(m: Manager, query: string, k: Option<int>,
                  rank: (seq<Document>, string, int) -> seq<Document>): (r: Result<seq<Document>>)
    ensures r.Failure? <==> !IsInitialized(m)
    ensures r.Failure? ==> r.error == ValueError(SearchNotInitialized)
    ensures r.Success? ==> r.value == rank(Contents(m), query, EffectiveK(k))
  {
    if !IsInitialized(m) then Failure(ValueError(SearchNotInitialized))
    else Success(rank(m.store.value, query, EffectiveK(k)))
  }

  /** `search_with_scores`: as `search`, with a score next to each hit. */
  function SearchWithScores(m: Manager, query: string, k: Option<int>,
                            score: (seq<Document>, string, int) -> seq<(Document, real)>)
    : (r: Result<seq<(Document, real)>>)
    ensures r.Failure? <==> !IsInitialized(m)
    ensures r.Failure? ==> r.error == ValueError(SearchNotInitialized)
    ensures r.Success? ==> r.value == score(Contents(m), query, EffectiveK(k))
  {
    if !IsInitialized(m) then Failure(ValueError(SearchNotInitialized))
    else Success(score(m.store.value, query, EffectiveK(k)))
  }

  /** What `as_retriever` is configured with: the index, the search type and
      the number of results. */
  datatype Retriever = Retriever(docs: seq<Document>, searchType: string, k: int)

  /** `get_retriever`: a similarity retriever over the index with the
      effective `k`; `ValueError` when there is no index. */
  function GetRetriever(m: Manager, k: Option<int>): (r: Result<Retriever>)
    ensures r.Failure? <==> !IsInitialized(m)
    ensures r.Failure? ==> r.error == ValueError(RetrieverNotInitialized)
    ensures r.Success? ==>
      r.value.docs == Contents(m) && r.value.searchType == "similarity" && r.value.k == EffectiveK(k)
  {
    if !IsInitialized(m) then Failure(ValueError(RetrieverNotInitialized))
    else Success(Retriever(m.store.value, "similarity", EffectiveK(k)))
  }

  /** `clear`: drops the index; never fails. */
  function Clear(m: Manager): (r: Manager)
    ensures !IsInitialized(r)
    ensures r.indexPath == m.indexPath
  {
    Manager(None, m.indexPath)
  }

  /** The file system as far as the manager sees it: the directories and
      the files that exist, and the indexes saved in some directories, all
      by location, so that "idx", "idx/" and "./idx" are one and the
      same. */
  datatype Disk = Disk(directories: set<Location>, files: set<Location>,
                       indexes: map<Location, seq<Document>>)

  /** Every saved index lives in an existing directory, and every
      directory's or file's ancestors are existing directories. */
  predicate DiskConsistent(d: Disk) {
    && (forall l :: l in d.indexes ==> l in d.directories)
    && (forall l :: l in d.directories ==> Ancestors(l) <= d.directories)
    && (forall f :: f in d.files ==> Ancestors(f) - {f} <= d.directories)
  }

  /** Whether `os.path.exists` holds for a path: it is false for the empty
      path, and true for a directory or a file. */
  predicate Exists(d: Disk, p: string) {
    p != "" && (Locate(p) in d.directories || Locate(p) in d.files)
  }

  /** The names of the two files `save_local` writes, for the default
      index name "index". */
  const FaissFile: string := "index.faiss"
  const PickleFile: string := "index.pkl"

  /** The two files `save_local` writes into the directory `l`. */
  function IndexFiles(l: Location): set<Location> {
    {Location(l.absolute, l.parts + [FaissFile]), Location(l.absolute, l.parts + [PickleFile])}
  }

  /** `path or self.index_path`. */
  function EffectivePath(m: Manager, path: Option<string>): (r: string)
    ensures StrIsTruthy(path) ==> r == path.value
    ensures !StrIsTruthy(path) ==> r == m.indexPath
  {
    StrOr(path, m.indexPath)
  }

  /** The message `os.makedirs` raises for the empty path. */
  const NoSuchDirectory: string := "No such file or directory: ''"

  /** `save`: creates the directory together with every missing ancestor
      (`os.makedirs`) and writes the index there as its two files,
      replacing any index saved at that location and nothing else. `ValueError` when there is no
      index; `FileNotFoundError` when the effective path is empty, which
      `os.makedirs` refuses. */
  function Save(m: Manager, d: Disk, path: Option<string>): (r: Result<Disk>)
    ensures r.Failure? <==> !IsInitialized(m) || EffectivePath(m, path) == ""
    ensures !IsInitialized(m) ==> r.error == ValueError(SaveNotInitialized)
    ensures IsInitialized(m) && r.Failure? ==> r.error == FileNotFoundError(NoSuchDirectory)
    ensures r.Success? ==>
      var l := Locate(EffectivePath(m, path));
      && (forall a :: a in r.value.directories <==> a in d.directories || a in Ancestors(l))
      && (forall f :: f in r.value.files <==> f in d.files || f in IndexFiles(l))
      && l in r.value.indexes && r.value.indexes[l] == Contents(m)
      && (forall q :: q != l ==> (q in r.value.indexes <==> q in d.indexes))
      && (forall q :: q != l && q in d.indexes ==> r.value.indexes[q] == d.indexes[q])
  {
    if !IsInitialized(m) then Failure(ValueError(SaveNotInitialized))
    else
      var p := EffectivePath(m, path);
      if p == "" then Failure(FileNotFoundError(NoSuchDirectory))
      else
        var l := Locate(p);
        Success(Disk(d.directories + Ancestors(l), d.files + IndexFiles(l), d.indexes[l := m.store.value]))
  }

  /** The message `load` raises for a missing path. */
  function NoSavedIndex(p: string): string {
    "No saved index found at " + p
  }

  /** `load`: replaces the manager's index by the one saved at the
      effective path. `FileNotFoundError` when nothing exists there; a
      failure of the loader when something exists but holds no index, as
      a file or an empty directory does. */
  function Load(m: Manager, d: Disk, path: Option<string>): (r: Result<Manager>)
    ensures var p := EffectivePath(m, path);
      && (r.Failure? <==> !Exists(d, p) || Locate(p) !in d.indexes)
      && (!Exists(d, p) ==> r.error == FileNotFoundError(NoSavedIndex(p)))
      && (r.Success? ==>
        IsInitialized(r.value) && Contents(r.value) == d.indexes[Locate(p)] && r.value.indexPath == m.indexPath)
    ensures DiskConsistent(d) ==>
      (r.Failure? && r.error.FileNotFoundError? <==> !Exists(d, EffectivePath(m, path)))
  {
    var p := EffectivePath(m, path);
    if !Exists(d, p) then Failure(FileNotFoundError(NoSavedIndex(p)))
    else if Locate(p) !in d.indexes then Failure(CollaboratorError("no index could be read at " + p))
    else Success(Manager(Some(d.indexes[Locate(p)]), m.indexPath))
  }

  // ---------------------------------------------------------------------
  // The manager's operations as one state machine.
  // ---------------------------------------------------------------------

  /** A call on the manager, with its arguments. */
  datatype Call =
    | CreateFromDocumentsCall(docs: seq<Document>)
    | AddDocumentsCall(docs: seq<Document>)
    | SearchCall(query: string, k: Option<int>)
    | SearchWithScoresCall(query: string, k: Option<int>)
    | SaveCall(path: Option<string>)
    | LoadCall(path: Option<string>)
    | GetRetrieverCall(k: Option<int>)
    | ClearCall

  /** What a successful call returns. */
  datatype Reply =
    | Index(docs: seq<Document>)
    | Nothing
    | Hits(docs: seq<Document>)
    | ScoredHits(pairs: seq<(Document, real)>)
    | RetrieverReply(retriever: Retriever)

  /** The state after a call and what it returned or raised. */
  datatype Outcome = Outcome(manager: Manager, disk: Disk, reply: Result<Reply>)

  /** One call on the manager. A call that raises changes nothing: every
      guard runs before any assignment. */
  function Apply(m: Manager, d: Disk, call: Call,
                 rank: (seq<Document>, string, int) -> seq<Document>,
                 score: (seq<Document>, string, int) -> seq<(Document, real)>): (o: Outcome)
    ensures o.reply.Failure? ==> o.manager == m && o.disk == d
  {
    match call
    case CreateFromDocumentsCall(docs) =>
      var r := CreateFromDocuments(m, docs);
      Outcome(r, d, Success(Index(Contents(r))))
    case AddDocumentsCall(docs) =>
      Outcome(AddDocuments(m, docs), d, Success(Nothing))
    case SearchCall(q, k) =>
      var r := Search(m, q, k, rank);
      if r.Failure? then Outcome(m, d, Failure(r.error)) else Outcome(m, d, Success(Hits(r.value)))
    case SearchWithScoresCall(q, k) =>
      var r := SearchWithScores(m, q, k, score);
      if r.Failure? then Outcome(m, d, Failure(r.error)) else Outcome(m, d, Success(ScoredHits(r.value)))
    case SaveCall(path) =>
      var r := Save(m, d, path);
      if r.Failure? then Outcome(m, d, Failure(r.error)) else Outcome(m, r.value, Success(Nothing))
    case LoadCall(path) =>
      var r := Load(m, d, path);
      if r.Failure? then Outcome(m, d, Failure(r.error))
      else Outcome(r.value, d, Success(Index(Contents(r.value))))
    case GetRetrieverCall(k) =>
      var r := GetRetriever(m, k);
      if r.Failure? then Outcome(m, d, Failure(r.error)) else Outcome(m, d, Success(RetrieverReply(r.value)))
    case ClearCall =>
      Outcome(Clear(m), d, Success(Nothing))
  }

  /** The guarded calls: those that raise on a manager without an index. */
  predicate Guarded(call: Call) {
    call.SearchCall? || call.SearchWithScoresCall? || call.SaveCall? || call.GetRetrieverCall?
  }

  /** A guarded call fails with `ValueError` when there is no index, and
      with an index it fails only for a `save` to the empty path. */
  lemma GuardedFailsIffUninitialized(m: Manager, d: Disk, call: Call,
                                     rank: (seq<Document>, string, int) -> seq<Document>,
                                     score: (seq<Document>, string, int) -> seq<(Document, real)>)
    requires Guarded(call)
    ensures !IsInitialized(m) ==>
      Apply(m, d, call, rank, score).reply.Failure? && Apply(m, d, call, rank, score).reply.error.ValueError?
    ensures IsInitialized(m) ==>
      (Apply(m, d, call, rank, score).reply.Failure? <==> call.SaveCall? && EffectivePath(m, call.path) == "")
  {
  }

  /** Only `clear` takes a ready manager back to the uninitialised state. */
  lemma OnlyClearUninitializes(m: Manager, d: Disk, call: Call,
                               rank: (seq<Document>, string, int) -> seq<Document>,
                               score: (seq<Document>, string, int) -> seq<(Document, real)>)
    requires IsInitialized(m)
    ensures !IsInitialized(Apply(m, d, call, rank, score).manager) <==> call.ClearCall?
  {
  }

  /** An uninitialised manager becomes ready exactly through
      `create_from_documents`, `add_documents` or a successful `load`. */
  lemma BecomingReady(m: Manager, d: Disk, call: Call,
                      rank: (seq<Document>, string, int) -> seq<Document>,
                      score: (seq<Document>, string, int) -> seq<(Document, real)>)
    requires !IsInitialized(m)
    ensures var o := Apply(m, d, call, rank, score);
      IsInitialized(o.manager) <==>
        call.CreateFromDocumentsCall? || call.AddDocumentsCall? || (call.LoadCall? && o.reply.Success?)
  {
  }

  /** No call changes the index path, only a successful `save` changes the
      disk, and the disk stays consistent. */
  lemma Frame(m: Manager, d: Disk, call: Call,
              rank: (seq<Document>, string, int) -> seq<Document>,
              score: (seq<Document>, string, int) -> seq<(Document, real)>)
    ensures var o := Apply(m, d, call, rank, score);
      && o.manager.indexPath == m.indexPath
      && (o.disk != d ==> call.SaveCall? && o.reply.Success?)
      && (DiskConsistent(d) ==> DiskConsistent(o.disk))
  {
    if call.SaveCall? && DiskConsistent(d) {
      SaveKeepsConsistent(m, d, call.path);
    }
  }

  /** The queries leave the manager as it was, and so do failures. */
  lemma QueriesLeaveManager(m: Manager, d: Disk, call: Call,
                            rank: (seq<Document>, string, int) -> seq<Document>,
                            score: (seq<Document>, string, int) -> seq<(Document, real)>)
    requires Guarded(call)
    ensures Apply(m, d, call, rank, score).manager == m
  {
  }

  /** Adding to a manager without an index is creating one. */
  lemma AddToUninitializedCreates(m: Manager, docs: seq<Document>)
    requires !IsInitialized(m)
    ensures AddDocuments(m, docs) == CreateFromDocuments(m, docs)
  {
  }

  /** Two additions hold what one addition of both batches holds. */
  lemma AddTwice(m: Manager, a: seq<Document>, b: seq<Document>)
    ensures AddDocuments(AddDocuments(m, a), b) == AddDocuments(m, a + b)
  {
    assert Contents(m) + a + b == Contents(m) + (a + b);
  }

  /** Creating discards what was held: the result does not depend on the
      previous contents. */
  lemma CreateReplaces(m1: Manager, m2: Manager, docs: seq<Document>)
    requires m1.indexPath == m2.indexPath
    ensures CreateFromDocuments(m1, docs) == CreateFromDocuments(m2, docs)
  {
  }

  /** After `clear`, adding documents holds only those documents. */
  lemma ClearThenAdd(m: Manager, docs: seq<Document>)
    ensures Contents(AddDocuments(Clear(m), docs)) == docs
  {
  }

  /** Saving and then loading from a path naming the same place, into any
      manager, restores the saved documents. */
  lemma SaveLoadRoundTrip(m: Manager, d: Disk, path: Option<string>, other: Manager, path2: Option<string>)
    requires IsInitialized(m)
    requires EffectivePath(m, path) != "" && EffectivePath(other, path2) != ""
    requires Locate(EffectivePath(other, path2)) == Locate(EffectivePath(m, path))
    ensures Save(m, d, path).Success?
    ensures var l := Load(other, Save(m, d, path).value, path2);
      l.Success? && Contents(l.value) == Contents(m)
  {
  }

  /** A fresh manager reloads what another saved under the default path. */
  lemma SaveDefaultLoadFresh(m: Manager, d: Disk)
    requires IsInitialized(m) && m.indexPath == FaissIndexPath
    ensures var l := Load(NewManager(), Save(m, d, None).value, None);
      l.Success? && Contents(l.value) == Contents(m)
  {
    SaveLoadRoundTrip(m, d, None, NewManager(), None);
  }

  /** An index saved under "p/" loads back from "p", and one saved under
      "p" loads back from "p/". */
  lemma SaveLoadTrailingSlash(m: Manager, d: Disk, p: string, other: Manager)
    requires IsInitialized(m) && p != ""
    ensures var l := Load(other, Save(m, d, Some(p + "/")).value, Some(p));
      l.Success? && Contents(l.value) == Contents(m)
    ensures var l := Load(other, Save(m, d, Some(p)).value, Some(p + "/"));
      l.Success? && Contents(l.value) == Contents(m)
  {
    LocateTrailingSlash(p);
    SaveLoadRoundTrip(m, d, Some(p + "/"), other, Some(p));
    SaveLoadRoundTrip(m, d, Some(p), other, Some(p + "/"));
  }

  /** Saving to `dir/name` creates `dir` as well, so that loading from
      `dir` afterwards finds the directory, and fails only in the loader
      unless an index was already saved there. */
  lemma SaveCreatesParent(m: Manager, d: Disk, dir: string, name: string, other: Manager)
    requires IsInitialized(m) && dir != ""
    requires '/' !in name && Meaningful(name)
    ensures Save(m, d, Some(dir + "/" + name)).Success?
    ensures Locate(dir) in Save(m, d, Some(dir + "/" + name)).value.directories
    ensures Locate(dir) !in d.indexes ==>
      var l := Load(other, Save(m, d, Some(dir + "/" + name)).value, Some(dir));
      l.Failure? && l.error.CollaboratorError?
  {
    var p := dir + "/" + name;
    LocateChild(dir, name);
    var l := Locate(p);
    var up := Locate(dir);
    assert up.parts <= l.parts && up.absolute == l.absolute;
    assert up in Ancestors(l);
    assert EffectivePath(m, Some(p)) == p;
    var saved := Save(m, d, Some(p));
    assert saved.Success?;
    assert up in saved.value.directories;
    assert |up.parts| < |l.parts|;
    if up !in d.indexes {
      assert up !in saved.value.indexes;
      assert EffectivePath(other, Some(dir)) == dir;
    }
  }

  /** A save keeps the disk consistent. */
  lemma SaveKeepsConsistent(m: Manager, d: Disk, path: Option<string>)
    requires DiskConsistent(d)
    ensures Save(m, d, path).Success? ==> DiskConsistent(Save(m, d, path).value)
  {
    if Save(m, d, path).Success? {
      WriteIndexKeepsConsistent(d, Locate(EffectivePath(m, path)), m.store.value);
    }
  }

  /** Writing an index into `l` as `save` does: the directories it adds are
      closed under ancestors, and the files it writes sit in `l`. */
  lemma WriteIndexKeepsConsistent(d: Disk, l: Location, docs: seq<Document>)
    requires DiskConsistent(d)
    ensures DiskConsistent(Disk(d.directories + Ancestors(l), d.files + IndexFiles(l), d.indexes[l := docs]))
  {
    var d2 := Disk(d.directories + Ancestors(l), d.files + IndexFiles(l), d.indexes[l := docs]);
    assert forall k :: k in d2.indexes ==> k in d2.directories by {
      assert l in Ancestors(l);
    }
    assert forall a :: a in d2.directories ==> Ancestors(a) <= d2.directories by {
      AncestorsClosed(l);
    }
    assert forall f :: f in d2.files ==> Ancestors(f) - {f} <= d2.directories by {
      ChildAncestors(l, FaissFile);
      ChildAncestors(l, PickleFile);
    }
  }

  /** An ancestor's ancestors are ancestors. */
  lemma AncestorsClosed(l: Location)
    ensures forall a :: a in Ancestors(l) ==> Ancestors(a) <= Ancestors(l)
  {
  }

  /** The ancestors of `l/x`, other than itself, are those of `l`. */
  lemma ChildAncestors(l: Location, x: string)
    ensures var c := Location(l.absolute, l.parts + [x]);
      Ancestors(c) - {c} <= Ancestors(l)
  {
    var c := Location(l.absolute, l.parts + [x]);
    forall a | a in Ancestors(c) - {c}
      ensures a in Ancestors(l)
    {
      assert |a.parts| != |c.parts|;
      assert a.parts == c.parts[..|a.parts|];
      assert c.parts[..|a.parts|] == l.parts[..|a.parts|];
    }
  }

  /** Saving to `dir` writes `dir/index.faiss`, so that loading from that
      file afterwards passes the existence check and fails in the loader,
      unless an index was already saved at that location. */
  lemma LoadSavedFile(m: Manager, d: Disk, dir: string, other: Manager)
    requires IsInitialized(m) && dir != ""
    ensures Save(m, d, Some(dir)).Success?
    ensures var file := dir + "/" + FaissFile;
      && Exists(Save(m, d, Some(dir)).value, file)
      && (Locate(file) !in d.indexes ==>
           var l := Load(other, Save(m, d, Some(dir)).value, Some(file));
           l.Failure? && l.error.CollaboratorError?)
  {
    var name := FaissFile;
    var file := dir + "/" + name;
    var l := Locate(dir);
    var c := Location(l.absolute, l.parts + [name]);
    assert '/' !in name by {
      assert forall j | 0 <= j < |name| :: name[j] != '/';
    }
    LocateChild(dir, name);
    assert Locate(file) == c;
    assert c in IndexFiles(l);
    assert |c.parts| != |l.parts|;
    var saved := Save(m, d, Some(dir));
    assert EffectivePath(m, Some(dir)) == dir;
    assert c in saved.value.files;
    assert EffectivePath(other, Some(file)) == file;
  }

  /** `k = 0` and a missing `k` both mean the default of three results; any
      other `k` is used as given, negative ones included. */
  lemma EffectiveKDefaults(k: Option<int>)
    ensures EffectiveK(None) == 3
    ensures EffectiveK(Some(0)) == 3
    ensures k.Some? && k.value != 0 ==> EffectiveK(k) == k.value
  {
  }

  /** An empty path string means the manager's index path. */
  lemma EmptyPathIsDefault(m: Manager)
    ensures EffectivePath(m, Some("")) == m.indexPath
    ensures EffectivePath(m, None) == m.indexPath
  {
  }
}
