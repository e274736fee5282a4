/** `executeCompleteExport` and `executeNamedGraphExport`: the `No_GSP` toggle decides
    whether an export becomes a SPARQL tuple query or a Graph Store bulk fetch. */
module Export {
  import opened Options
  import opened Text
  import opened Trace
  import opened Endpoints
  import opened SparqlClient
  import opened Selection
  import opened Executor
  import JavaUri

  /** What an export asks the server for. */
  datatype Request = TupleQuery(text: string) | GspFetch(selector: string)

  const CompleteExportQuery := "SELECT * WHERE { GRAPH ?g { ?s ?p ?o } }"
  const FilterPrefix := "SELECT * WHERE { GRAPH ?g { ?s ?p ?o } FILTER(?g = <"
  const FilterSuffix := ">) .}"
  const DefaultSelector := "default"
  const GraphParameter := "graph="

  /** The tuple query of a named-graph export: the graph name is inserted verbatim. */
  function NamedGraphQuery(graph: string): string {
    FilterPrefix + graph + FilterSuffix
  }

  /** The request an export makes: a complete export when `graph` is `None`, a
      named-graph export otherwise. */
  function ExportRequest(toggles: set<Toggle>, graph: Option<string>): (r: Request)
    ensures r.TupleQuery? <==> NoGsp in toggles
    ensures graph.None? && r.TupleQuery? ==> r.text == CompleteExportQuery
    ensures graph.None? && r.GspFetch? ==> r.selector == DefaultSelector
    ensures graph.Some? && r.TupleQuery? ==>
      && Contains(r.text, graph.value)
      && Contains(r.text, "FILTER(?g = <" + graph.value + ">)")
    ensures graph.Some? && r.GspFetch? ==>
      StartsWith(r.selector, GraphParameter) && r.selector[|GraphParameter|..] == graph.value
  {
    match graph
    case None =>
      if NoGsp in toggles then TupleQuery(CompleteExportQuery) else GspFetch(DefaultSelector)
    case Some(g) =>
      if NoGsp in toggles then
        var text := NamedGraphQuery(g);
        var head := "SELECT * WHERE { GRAPH ?g { ?s ?p ?o } ";
        var filter := "FILTER(?g = <" + g + ">)";
        assert text == head + filter + " .}";
        OccursBetween(FilterPrefix, g, FilterSuffix);
        OccursBetween(head, filter, " .}");
        TupleQuery(text)
      else GspFetch(GraphParameter + g)
  }

  /** The body of an IRI reference in SPARQL 1.1 (grammar production IRIREF): none of
      `<>"{}|^`\` and no character up to and including the space. */
  predicate IsIriRef(s: string) {
    forall i :: 0 <= i < |s| ==> s[i] !in "<>\"{}|^`\\" && s[i] > ' '
  }

  /** What a request selects: every graph, one named graph, something this model
      does not read, or nothing at all because no request is sent. */
  datatype Scope = AllGraphs | OneGraph(iri: string) | Unrecognised | NoExport

  /** The graphs a tuple query selects: the complete-export query, or a single-graph
      filter around a well-formed IRI. */
  function QueryScope(text: string): Scope {
    if text == CompleteExportQuery then AllGraphs
    else if |text| >= |FilterPrefix| + |FilterSuffix|
            && StartsWith(text, FilterPrefix)
            && text[|text| - |FilterSuffix|..] == FilterSuffix
            && IsIriRef(text[|FilterPrefix|..|text| - |FilterSuffix|])
    then OneGraph(text[|FilterPrefix|..|text| - |FilterSuffix|])
    else Unrecognised
  }

  /** Under `No_GSP`, a complete export selects every graph and a named-graph export
      exactly the named graph, as long as its name is a well-formed IRI. */
  lemma QueriesSelectRequestedGraphs(toggles: set<Toggle>, graph: Option<string>)
    requires NoGsp in toggles
    requires graph.Some? ==> IsIriRef(graph.value)
    ensures QueryScope(ExportRequest(toggles, graph).text)
         == if graph.None? then AllGraphs else OneGraph(graph.value)
  {
    if graph.Some? {
      var g := graph.value;
      var text := NamedGraphQuery(g);
      assert text != CompleteExportQuery by {
        assert text[|"SELECT * WHERE { GRAPH ?g { ?s ?p ?o } "|] == 'F';
        assert CompleteExportQuery[|"SELECT * WHERE { GRAPH ?g { ?s ?p ?o } "|] == '}';
      }
      assert text[..|FilterPrefix|] == FilterPrefix;
      assert text[|text| - |FilterSuffix|..] == FilterSuffix;
      assert text[|FilterPrefix|..|text| - |FilterSuffix|] == g;
    }
  }

  /** Carrying out a request on the client. */
  function Perform(c: Client, r: Request, o: Oracle): (t: seq<Event>)
    requires DrawAllowed(|c.repositories|, o.draw)
    ensures r.TupleQuery? ==> Fetched(t) == [] && Balanced(t)
    ensures r.TupleQuery? ==>
      Issued(t) == [] || (|c.repositories| > 0 && Issued(t) == [Issue(Tuple, c.repositories[o.draw].url, r.text)])
    ensures r.GspFetch? ==> Issued(t) == []
    ensures r.GspFetch? ==>
      Fetched(t) == if |c.repositories| > 0 && RequestBuilt(c.config, r.selector)
                    then [Fetch(GspEndpoint(c.config.endpoints, c.config.port, r.selector).value, NTriples)]
                    else []
    ensures r.GspFetch? && |c.repositories| > 0 ==>
      t == [Chose(o.draw)] + GspAfterChoice(c.config, r.selector, o.failing)
  {
    match r
    case TupleQuery(text) => ExecuteTupleQuery(c, text, o)
    case GspFetch(selector) => ExecuteGspExport(c, selector, o)
  }

  /** `default` is legal query text. */
  lemma DefaultSelectorAccepted()
    ensures JavaUri.SelectorAccepted(DefaultSelector)
  {
    assert forall i :: 0 <= i < |DefaultSelector| ==> JavaUri.Allowed(JavaUri.Uric, DefaultSelector[i]);
    JavaUri.SelectorAfterAllowed(DefaultSelector, []);
    assert DefaultSelector + [] == DefaultSelector;
    assert JavaUri.SelectorAccepted([]) by {
      assert Span([], "#") == 0;
    }
  }

  /** The request of a complete bulk fetch is built exactly when the host and port
      are legal authority text. */
  lemma CompleteFetchBuilt(config: ConnectionConfig)
    requires |config.endpoints| > 0 && JavaUri.IsPlainHost(config.endpoints[0])
    ensures RequestBuilt(config, DefaultSelector) <==> JavaUri.AuthorityAccepted(config.endpoints[0], config.port)
  {
    JavaUri.GspEndpointAccepted(config.endpoints, config.port, DefaultSelector);
    DefaultSelectorAccepted();
  }

  /** The request of a named-graph bulk fetch of a plain host is built exactly when the
      host and port are legal authority text and the graph name is legal query and
      fragment text: `graph=` changes nothing. */
  lemma NamedFetchBuilt(config: ConnectionConfig, graph: string)
    requires |config.endpoints| > 0 && JavaUri.IsPlainHost(config.endpoints[0])
    ensures RequestBuilt(config, GraphParameter + graph)
        <==> JavaUri.AuthorityAccepted(config.endpoints[0], config.port) && JavaUri.SelectorAccepted(graph)
  {
    JavaUri.GspEndpointAccepted(config.endpoints, config.port, GraphParameter + graph);
    assert forall i :: 0 <= i < |GraphParameter| ==> JavaUri.Allowed(JavaUri.Uric, GraphParameter[i]);
    JavaUri.SelectorAfterAllowed(GraphParameter, graph);
  }

  /** `executeCompleteExport`: with `No_GSP`, at most one query, the complete-export
      tuple query, and no bulk fetch; without it, no query and at most one bulk fetch,
      of the `default` selector from the first endpoint, sent whenever a repository
      exists and `URI.create` accepts the URL. */
  function ExecuteCompleteExport(c: Client, o: Oracle): (t: seq<Event>)
    requires DrawAllowed(|c.repositories|, o.draw)
    ensures NoGsp in c.toggles ==> Fetched(t) == []
    ensures NoGsp in c.toggles ==>
      Issued(t) == [] || (|c.repositories| > 0 && Issued(t) == [Issue(Tuple, c.repositories[o.draw].url, CompleteExportQuery)])
    ensures NoGsp in c.toggles && |c.repositories| > 0
            && GetConnection !in o.failing && CreateOutputWriter !in o.failing && CreateRdfWriter !in o.failing ==>
      Issued(t) == [Issue(Tuple, c.repositories[o.draw].url, CompleteExportQuery)]
    ensures NoGsp !in c.toggles ==> Issued(t) == []
    ensures NoGsp !in c.toggles && |c.repositories| > 0 && |c.config.endpoints| > 0 ==>
      Fetched(t) ==
        if RequestBuilt(c.config, DefaultSelector)
        then [Fetch(Scheme + c.config.endpoints[0] + ":" + IntToString(c.config.port) + GspPath + "default", NTriples)]
        else []
    ensures NoGsp !in c.toggles && |c.repositories| > 0 && |c.config.endpoints| > 0
            && JavaUri.IsPlainHost(c.config.endpoints[0]) ==>
      (|Fetched(t)| == 1 <==> JavaUri.AuthorityAccepted(c.config.endpoints[0], c.config.port))
  {
    if NoGsp !in c.toggles && |c.config.endpoints| > 0 && JavaUri.IsPlainHost(c.config.endpoints[0]) then
      CompleteFetchBuilt(c.config);
      Perform(c, ExportRequest(c.toggles, None), o)
    else
      Perform(c, ExportRequest(c.toggles, None), o)
  }

  /** The bulk-fetch URL of a named graph, spelled out. */
  lemma NamedGraphFetchUrl(config: ConnectionConfig, graph: string)
    ensures |config.endpoints| > 0 ==>
      GspEndpoint(config.endpoints, config.port, GraphParameter + graph).value
      == Scheme + config.endpoints[0] + ":" + IntToString(config.port) + GspPath + "graph=" + graph
  {
    if |config.endpoints| > 0 {
      var base := Scheme + config.endpoints[0] + ":" + IntToString(config.port) + GspPath;
      assert base + (GraphParameter + graph) == base + "graph=" + graph;
    }
  }

  /** `executeNamedGraphExport(graph)`: with `No_GSP`, at most one query, the tuple
      query filtering on `graph`; without it, no query and at most one bulk fetch, of
      `graph=` followed by the graph name, unencoded. When `URI.create` rejects that
      URL, the call throws before anything is sent. */
  function ExecuteNamedGraphExport(c: Client, graph: string, o: Oracle): (t: seq<Event>)
    requires DrawAllowed(|c.repositories|, o.draw)
    ensures NoGsp in c.toggles ==> Fetched(t) == []
    ensures NoGsp in c.toggles ==>
      Issued(t) == [] || (|c.repositories| > 0 && Issued(t) == [Issue(Tuple, c.repositories[o.draw].url, NamedGraphQuery(graph))])
    ensures NoGsp in c.toggles && |c.repositories| > 0
            && GetConnection !in o.failing && CreateOutputWriter !in o.failing && CreateRdfWriter !in o.failing ==>
      Issued(t) == [Issue(Tuple, c.repositories[o.draw].url, NamedGraphQuery(graph))]
    ensures NoGsp !in c.toggles ==> Issued(t) == []
    ensures NoGsp !in c.toggles && |c.repositories| > 0 && |c.config.endpoints| > 0 ==>
      Fetched(t) ==
        if RequestBuilt(c.config, GraphParameter + graph)
        then [Fetch(Scheme + c.config.endpoints[0] + ":" + IntToString(c.config.port) + GspPath + "graph=" + graph, NTriples)]
        else []
    ensures NoGsp !in c.toggles && |c.repositories| > 0 && |c.config.endpoints| > 0
            && !RequestBuilt(c.config, GraphParameter + graph) ==>
      t == [Chose(o.draw), Raise(Unwrapped(Exc(BuildRequest, [])))]
    ensures NoGsp !in c.toggles && |c.repositories| > 0 && |c.config.endpoints| > 0
            && JavaUri.IsPlainHost(c.config.endpoints[0]) ==>
      (|Fetched(t)| == 1
       <==> JavaUri.AuthorityAccepted(c.config.endpoints[0], c.config.port) && JavaUri.SelectorAccepted(graph))
  {
    NamedGraphFetchUrl(c.config, graph);
    if NoGsp !in c.toggles && |c.config.endpoints| > 0 && JavaUri.IsPlainHost(c.config.endpoints[0]) then
      NamedFetchBuilt(c.config, graph);
      Perform(c, ExportRequest(c.toggles, Some(graph)), o)
    else
      Perform(c, ExportRequest(c.toggles, Some(graph)), o)
  }

  /** The bulk fetch goes to the same URL whichever repository the random draw picks:
      the draw only appears in the choice event. */
  lemma GspFetchIgnoresChoice(c: Client, selector: string, o1: Oracle, o2: Oracle)
    requires |c.repositories| > 0
    requires DrawAllowed(|c.repositories|, o1.draw) && DrawAllowed(|c.repositories|, o2.draw)
    requires o1.failing == o2.failing
    ensures ExecuteGspExport(c, selector, o1)[0] == Chose(o1.draw)
    ensures ExecuteGspExport(c, selector, o1)[1..] == ExecuteGspExport(c, selector, o2)[1..]
  {
    var rest := GspAfterChoice(c.config, selector, o1.failing);
    assert ([Chose(o1.draw)] + rest)[1..] == rest;
    assert ([Chose(o2.draw)] + rest)[1..] == rest;
  }

  /** Whatever the random draw, a bulk fetch of a created client goes to the address
      of repository 0, the first endpoint, and never to the chosen repository's. */
  lemma BulkFetchGoesToFirstRepository(config: ConnectionConfig, toggles: set<Toggle>, selector: string, o: Oracle)
    requires |config.endpoints| > 0 && DrawAllowed(|config.endpoints|, o.draw)
    ensures var c := Create(config, toggles);
      var url := c.repositories[0].url + GspPath + selector;
      Fetched(ExecuteGspExport(c, selector, o)) == if JavaUri.Accepts(url) then [Fetch(url, NTriples)] else []
  {
    var c := Create(config, toggles);
    SparqlEndpointRoundTrip(config.endpoints[0], config.port, c.repositories[0].url);
    GspEndpointExtendsFirstEndpoint(config.endpoints, config.port, selector);
  }
}
