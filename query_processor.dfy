/**
 * The query processor: an optional index and a query engine that is built
 * from it lazily, cached, and dropped whenever a new index is set.
 *
 * The vector index and the query engine are opaque library objects, so they
 * are type parameters; turning an index into an engine (`as_query_engine`)
 * and asking an engine a question are functions given at construction.
 */
module QueryProcessing {
  import opened Wrappers
  import opened Schema

  /** What the engine returns: its answer and the retrieved nodes, best first. */
  datatype Response = Response(answer: string, sourceNodes: seq<Node>)

  /** One entry of the "sources" list of a query result. */
  datatype Source = Source(text: string, metadata: Metadata)

  /** The dictionary `query` returns: {"response": ..., "sources": [...]}. */
  datatype QueryResult = QueryResult(response: string, sources: seq<Source>)

  /** A source entry for every retrieved node. */
  function SourcesOf(nodes: seq<Node>): (sources: seq<Source>)
    ensures |sources| == |nodes|
  {
    seq(|nodes|, i requires 0 <= i < |nodes| => Source(nodes[i].content, nodes[i].metadata))
  }

  /** Reads a source entry back as the node it was made from. */
  function NodeOf(s: Source): Node {
    Node(s.text, s.metadata)
  }

  /** The result dictionary built from an engine response. */
  function ToResult(response: Response): (r: QueryResult)
    ensures r.response == response.answer
    ensures |r.sources| == |response.sourceNodes|
  {
    QueryResult(response.answer, SourcesOf(response.sourceNodes))
  }

  /**
   * Nothing is lost or reordered on the way from nodes to sources: each
   * source gives back its node's content and metadata, in node order.
   */
  lemma SourcesRoundTrip(response: Response)
    ensures var sources := ToResult(response).sources;
      forall i :: 0 <= i < |sources| ==> NodeOf(sources[i]) == response.sourceNodes[i]
  {
  }

  class QueryProcessor<Index, Engine> {
    /** `index.as_query_engine()`. */
    const asQueryEngine: Index -> Engine
    /** `engine.query(text)`. */
    const ask: (Engine, string) -> Response

    var index: Option<Index>
    /** The cached engine, `_query_engine`. */
    var engine: Option<Engine>
    /** How many times an engine has been built, to state that it is cached. */
    ghost var engineBuilds: nat

    /** A cached engine always belongs to the current index. */
    ghost predicate Valid()
      reads this
    {
      engine.Some? ==> index.Some? && engine.value == asQueryEngine(index.value)
    }

    constructor(asQueryEngine: Index -> Engine, ask: (Engine, string) -> Response, index: Option<Index>)
      ensures Valid()
      ensures this.asQueryEngine == asQueryEngine && this.ask == ask
      ensures this.index == index && engine.None? && engineBuilds == 0
    {
      this.asQueryEngine := asQueryEngine;
      this.ask := ask;
      this.index := index;
      engine := None;
      engineBuilds := 0;
    }

    /**
     * The `query_engine` property: builds the engine when there is an index
     * and no cached engine, and otherwise returns what is cached (None when
     * there is no index).
     */
    method QueryEngine() returns (e: Option<Engine>)
      requires Valid()
      modifies this`engine, this`engineBuilds
      ensures Valid()
      ensures e == engine
      ensures e.None? <==> index.None?
      ensures index.Some? ==> e == Some(asQueryEngine(index.value))
      ensures old(engine).Some? ==> engine == old(engine)
      ensures engineBuilds == old(engineBuilds) + (if old(engine).None? && index.Some? then 1 else 0)
    {
      if engine.None? && index.Some? {
        engine := Some(asQueryEngine(index.value));
        engineBuilds := engineBuilds + 1;
      }
      e := engine;
    }

    /** Installs a new index and drops the engine built for the old one. */
    method SetIndex(i: Index)
      modifies this`index, this`engine
      ensures Valid()
      ensures index == Some(i) && engine.None?
    {
      index := Some(i);
      engine := None;
    }

    /**
     * Answers `q` with the engine of the current index, or returns None when
     * there is no index. The index is never changed; the engine is built at
     * most once, and only when none was cached.
     */
    method Query(q: string) returns (r: Option<QueryResult>)
      requires Valid()
      modifies this`engine, this`engineBuilds
      ensures Valid()
      ensures index == old(index)
      ensures r.None? <==> index.None?
      ensures index.Some? ==> r == Some(ToResult(ask(asQueryEngine(index.value), q)))
      ensures index.Some? ==> engine == Some(asQueryEngine(index.value))
      ensures index.None? ==> engine.None?
      ensures engineBuilds == old(engineBuilds) + (if old(engine).None? && index.Some? then 1 else 0)
    {
      var e := QueryEngine();
      if e.None? {
        return None;
      }
      e := QueryEngine();
      var response := ask(e.value, q);
      r := Some(ToResult(response));
    }
  }

  /**
   * Two queries against an unchanged index build the engine at most once,
   * and the second reuses the engine the first one built.
   */
  method QueryTwice<Index, Engine>(p: QueryProcessor<Index, Engine>, q1: string, q2: string)
    returns (r1: Option<QueryResult>, r2: Option<QueryResult>)
    requires p.Valid()
    modifies p
    ensures p.Valid() && p.index == old(p.index)
    ensures p.engineBuilds <= old(p.engineBuilds) + 1
    ensures old(p.engine).Some? ==> p.engineBuilds == old(p.engineBuilds)
    ensures r1.None? <==> r2.None?
  {
    r1 := p.Query(q1);
    r2 := p.Query(q2);
  }

  /** After `set_index`, the next query is answered by an engine of the new index. */
  method QueryAfterSetIndex<Index, Engine>(p: QueryProcessor<Index, Engine>, i: Index, q: string)
    returns (r: Option<QueryResult>)
    requires p.Valid()
    modifies p
    ensures p.Valid() && p.index == Some(i)
    ensures r == Some(ToResult(p.ask(p.asQueryEngine(i), q)))
    ensures p.engineBuilds == old(p.engineBuilds) + 1
  {
    p.SetIndex(i);
    r := p.Query(q);
  }
}
