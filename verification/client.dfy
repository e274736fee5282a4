/** The client's configuration and state: feature toggles, the connection
    configuration, and the list of repositories `create` builds, one per endpoint. */
module SparqlClient {
  import opened Options
  import opened Endpoints

  /** Feature toggles; `NoGsp` is the only one the client inspects. */
  datatype Toggle = NoGsp | OtherToggle(name: string)

  /** Whether a repository is a `NeptuneExportSparqlRepository`, the kind that can
      report the server's error message from the response trailers. */
  datatype RepositoryKind = NeptuneExport | PlainSparql

  /** A repository, reduced to the URL it sends queries to and its kind. */
  datatype Repository = Repository(url: string, kind: RepositoryKind)

  datatype ConnectionConfig = ConnectionConfig(endpoints: seq<string>, port: int)

  datatype Client = Client(repositories: seq<Repository>, toggles: set<Toggle>, config: ConnectionConfig)

  /** The repositories `create` builds: one per configured endpoint, in order, each a
      trailer-aware repository addressed to that endpoint. */
  function BuildRepositories(endpoints: seq<string>, port: int): (rs: seq<Repository>)
    ensures |rs| == |endpoints|
    ensures forall i :: 0 <= i < |rs| ==>
      rs[i] == Repository(SparqlEndpoint(endpoints[i], port), NeptuneExport)
  {
    if |endpoints| == 0 then []
    else
      var init := endpoints[..|endpoints| - 1];
      var built := BuildRepositories(init, port);
      var rs := built + [Repository(SparqlEndpoint(endpoints[|endpoints| - 1], port), NeptuneExport)];
      assert forall i :: 0 <= i < |built| ==> rs[i] == built[i] && endpoints[i] == init[i];
      rs
  }

  /** The URL of every built repository reads back as its endpoint and the port. */
  lemma RepositoriesReadBack(endpoints: seq<string>, port: int)
    ensures forall i :: 0 <= i < |endpoints| ==>
      ParseSparqlEndpoint(BuildRepositories(endpoints, port)[i].url) == Some(Address(endpoints[i], port))
  {
    var rs := BuildRepositories(endpoints, port);
    forall i | 0 <= i < |endpoints|
      ensures ParseSparqlEndpoint(rs[i].url) == Some(Address(endpoints[i], port))
    {
      ParseSparqlEndpointOfBuilt(endpoints[i], port);
    }
  }

  /** `create`: the client over the configured endpoints. An empty endpoint list is
      accepted here; the failure only surfaces when a repository is chosen. */
  function Create(config: ConnectionConfig, toggles: set<Toggle>): (c: Client)
    ensures c.config == config && c.toggles == toggles
    ensures |c.repositories| == |config.endpoints|
    ensures forall i :: 0 <= i < |c.repositories| ==>
      ParseSparqlEndpoint(c.repositories[i].url) == Some(Address(config.endpoints[i], config.port))
  {
    RepositoriesReadBack(config.endpoints, config.port);
    Client(BuildRepositories(config.endpoints, config.port), toggles, config)
  }
}
