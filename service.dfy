/**
 * RAGService (app/core/service.py): ties the PDF loader, the chunker, the
 * index store and the query processor together.
 *
 * The chunker and index creation are functions given at construction. What
 * `load_index` returns and whether chunking, index creation or saving
 * raises are decided by the outside world, so each call takes them as
 * parameters: `loaded` is the result of `load_index()` (None when there is
 * no stored index or loading fails) and `outcome` says which step of
 * `build_index`, if any, raises.
 */
module Core {
  import opened Wrappers
  import opened Schema
  import opened PdfLoader
  import opened QueryProcessing

  /**
   * How a build attempt goes once the documents are loaded. `save_index`
   * (app/indexing/index_manager.py:33-41) either raises inside `persist`
   * (PersistRaises) or persists the index and then raises from its report
   * line (ReportRaises); either way `build_index` returns False.
   */
  datatype BuildOutcome = Completes | ChunkerRaises | CreateRaises | PersistRaises | ReportRaises

  /** The documents `load_all_pdfs` returns for a loader. */
  function Documents(loader: Loader): (docs: seq<Document>)
    ensures |docs| <= |GetPdfFiles(loader)|
  {
    Wrappers.ValuesLength(LoadResults(loader, GetPdfFiles(loader)));
    LoadedDocs(loader, GetPdfFiles(loader))
  }

  /** Whether `build_index` succeeds: documents were found and no step raises. */
  predicate BuildSucceeds(loader: Loader, outcome: BuildOutcome) {
    outcome == Completes && Documents(loader) != []
  }

  /** Whether `build_index` gets as far as a completed `persist`. */
  predicate Persists(loader: Loader, outcome: BuildOutcome) {
    (outcome == Completes || outcome == ReportRaises) && Documents(loader) != []
  }

  class RagService<Index, Engine> {
    const chunkSize: int
    const chunkOverlap: int
    /** `DocumentChunker(chunk_size, chunk_overlap).chunk_documents`. */
    const chunk: (seq<Document>, int, int) -> seq<Node>
    /** `IndexManager.create_index`. */
    const createIndex: seq<Node> -> Index
    const processor: QueryProcessor<Index, Engine>

    /**
     * The indexes whose `persist` completed, oldest first. A `persist` that
     * raises records nothing.
     */
    ghost var saved: seq<Index>
    /** How often `_load_existing_index` and `build_index` have run. */
    ghost var loadCalls: nat
    ghost var buildCalls: nat

    ghost predicate Valid()
      reads this, processor
    {
      processor.Valid()
    }

    /** The index a successful build installs. */
    ghost function BuiltIndex(loader: Loader): Index {
      createIndex(chunk(Documents(loader), chunkSize, chunkOverlap))
    }

    /** Creates the collaborators and then tries once to load a stored index. */
    constructor(chunkSize: int, chunkOverlap: int,
                chunk: (seq<Document>, int, int) -> seq<Node>,
                createIndex: seq<Node> -> Index,
                asQueryEngine: Index -> Engine,
                ask: (Engine, string) -> Response,
                loaded: Option<Index>)
      ensures Valid() && fresh(processor)
      ensures this.chunkSize == chunkSize && this.chunkOverlap == chunkOverlap
      ensures this.chunk == chunk && this.createIndex == createIndex
      ensures processor.asQueryEngine == asQueryEngine && processor.ask == ask
      ensures processor.index == loaded && processor.engine.None?
      ensures saved == [] && loadCalls == 1 && buildCalls == 0
    {
      this.chunkSize := chunkSize;
      this.chunkOverlap := chunkOverlap;
      this.chunk := chunk;
      this.createIndex := createIndex;
      processor := new QueryProcessor(asQueryEngine, ask, None);
      saved := [];
      loadCalls := 0;
      buildCalls := 0;
      new;
      var _ := LoadExistingIndex(loaded);
    }

    /** Installs the stored index when there is one; says whether it did. */
    method LoadExistingIndex(loaded: Option<Index>) returns (ok: bool)
      requires Valid()
      modifies this`loadCalls, processor`index, processor`engine
      ensures Valid()
      ensures ok <==> loaded.Some?
      ensures ok ==> processor.index == loaded && processor.engine.None?
      ensures !ok ==> processor.index == old(processor.index) && processor.engine == old(processor.engine)
      ensures loadCalls == old(loadCalls) + 1
    {
      loadCalls := loadCalls + 1;
      if loaded.Some? {
        processor.SetIndex(loaded.value);
        return true;
      }
      return false;
    }

    /**
     * Loads every PDF, chunks the documents, creates an index and saves it;
     * only then is the new index installed. No documents, or any step that
     * raises, gives false and leaves the installed index as it was. The
     * index is recorded as saved once `persist` completes, even when the
     * report after it raises.
     */
    method BuildIndex(loader: Loader, outcome: BuildOutcome) returns (ok: bool)
      requires Valid()
      modifies this`saved, this`buildCalls, processor`index, processor`engine
      ensures Valid()
      ensures ok <==> BuildSucceeds(loader, outcome)
      ensures ok ==> processor.index == Some(BuiltIndex(loader)) && processor.engine.None?
      ensures !ok ==> processor.index == old(processor.index) && processor.engine == old(processor.engine)
      ensures saved == if Persists(loader, outcome) then old(saved) + [BuiltIndex(loader)] else old(saved)
      ensures buildCalls == old(buildCalls) + 1
    {
      buildCalls := buildCalls + 1;
      var documents := LoadAllPdfs(loader);
      if documents == [] {
        return false;
      }
      if outcome == ChunkerRaises {
        return false;
      }
      var nodes := chunk(documents, chunkSize, chunkOverlap);
      if outcome == CreateRaises {
        return false;
      }
      var index := createIndex(nodes);
      if outcome == PersistRaises {
        return false;
      }
      saved := saved + [index];
      if outcome == ReportRaises {
        return false;
      }
      processor.SetIndex(index);
      return true;
    }

    /**
     * Answers a query. With an index installed it goes straight to the
     * processor; without one it first tries to load a stored index and,
     * failing that, to build one, and gives None only when both fail.
     */
    method Query(q: string, loaded: Option<Index>, loader: Loader, outcome: BuildOutcome)
      returns (r: Option<QueryResult>)
      requires Valid()
      modifies this`saved, this`loadCalls, this`buildCalls, processor`index, processor`engine, processor`engineBuilds
      ensures Valid()
      ensures old(processor.index).Some? ==>
        processor.index == old(processor.index) && saved == old(saved) &&
        loadCalls == old(loadCalls) && buildCalls == old(buildCalls)
      ensures old(processor.index).None? ==>
        loadCalls == old(loadCalls) + 1 &&
        buildCalls == old(buildCalls) + (if loaded.Some? then 0 else 1)
      ensures old(processor.index).None? ==>
        saved == if loaded.None? && Persists(loader, outcome) then old(saved) + [BuiltIndex(loader)] else old(saved)
      ensures old(processor.index).None? && loaded.Some? ==> processor.index == loaded
      ensures old(processor.index).None? && loaded.None? && BuildSucceeds(loader, outcome) ==>
        processor.index == Some(BuiltIndex(loader))
      ensures r.None? <==> old(processor.index).None? && loaded.None? && !BuildSucceeds(loader, outcome)
      ensures r.None? ==> processor.index.None?
      ensures r.Some? ==> processor.index.Some?
      ensures r.Some? ==> r.value == ToResult(processor.ask(processor.asQueryEngine(processor.index.value), q))
    {
      if processor.index.None? {
        var found := LoadExistingIndex(loaded);
        if !found {
          var built := BuildIndex(loader, outcome);
          if !built {
            return None;
          }
        }
      }
      r := processor.Query(q);
    }
  }
}
