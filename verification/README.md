# Neptune SPARQL export client: decision layer

A Dafny model of `NeptuneSparqlClient` from neptune-export, the component that
carries an RDF export out of an Amazon Neptune cluster. The model covers how the client
decides what to ask the server for, and what it does when a step fails. It leaves out
the network itself:

- **Repositories.** `create` builds one SPARQL repository per configured endpoint,
  addressed to `https://<endpoint>:<port>`. Each call picks one repository at random.
- **Export strategy.** A complete export and a named-graph export each become one of
  two requests. With the `No_GSP` feature toggle it is a SPARQL tuple query. Without
  it, it is a Graph Store Protocol bulk fetch: an HTTP GET of
  `https://<first endpoint>:<port>/sparql/gsp/?<selector>` asking for N-Triples,
  where the selector is `default` or `graph=<name>`.
- **Failures and resources.** Each call has a try/catch/finally structure. The model
  records, for every combination of failing steps, which resources are acquired and
  released and which exception leaves the call:
  - the catch blocks wrap errors with the repository's trailer message;
  - the bulk-fetch path wraps only the failures of its writer block;
  - try-with-resources closes in reverse order and attaches close failures as
    suppressed exceptions;
  - the body close in `finally` replaces the parse failure.

Modules:

- `options.dfy`: the `Option` type.
- `text.dfy`: decimal rendering of the port (`%s` of an `int`) with its inverse,
  and character search.
- `endpoints.dfy`: the query URL of an endpoint and the bulk-fetch URL.
- `uri.dfy`: which URL texts `java.net.URI` accepts, following RFC 2396 as amended
  by RFC 2732. `new HttpGet(String)` throws for any other text.
- `client.dfy`: the client state and `create`.
- `selection.dfy`: `chooseRepository` as a nondeterministic choice.
- `trace.dfy`: the events of one call, their projections (resource events, queries
  issued, fetches sent) and a stack replay of the resource events.
- `executor.dfy`:
  - `executeTupleQuery`, `executeGraphQuery` and `executeGSPExport`, as pure
    functions of an `Oracle`;
  - the `Oracle` holds the set of steps that throw, the index the random source
    draws, and the trailer message.
- `export.dfy`: `executeCompleteExport` and `executeNamedGraphExport`.
- `body_release.dfy`: whether the bulk-fetch path releases the response body, and the
  corrected block that always does (see Findings).
- `graph_selector.dfy`: how a server reads the graph name back out of a bulk-fetch
  URL (RFC 3986), which graphs each export strategy selects, and the percent-encoded
  correction (see Findings).

Behaviours of the code that the model keeps as they are:

- An empty endpoint list is accepted by `create`. There is no configuration error;
  the failure surfaces later, when `Random.nextInt(0)` or `iterator().next()`
  throws.
- The bulk-fetch URL always names the FIRST configured endpoint, whichever
  repository was chosen. The chosen repository only lends its HTTP client.
- The response body of a bulk fetch is not closed when creating the output writer or
  the RDF writer fails (see Findings).
- Bulk-fetch errors carry no trailer message. Failures of `httpClient.execute` and
  `getContent` leave the call unwrapped.
- `new HttpGet` parses the bulk-fetch URL with `java.net.URI`. Text outside the URI
  grammar makes it throw an unwrapped `IllegalArgumentException` before anything is
  sent. Examples are a space, a second '#' or a '%' not followed by two hex digits.
  The graph name goes into that URL unencoded, so the name alone can cause this.

## Model

| member | source | states |
|---|---|---|
| Text.IntToStringRoundTrip | src/main/java/com/amazonaws/services/neptune/rdf/NeptuneSparqlClient.java:108-110 | The port text is Java's decimal rendering of an `int`: parsing a string gives `n` exactly when it is the rendering of `n`, for negative ports too |
| Endpoints.SparqlEndpointRoundTrip | src/main/java/com/amazonaws/services/neptune/rdf/NeptuneSparqlClient.java:108-110 | `https://<host>:<port>` can be read back into its host and port for every host, including hosts containing ':', and only the URL built from them reads back that way |
| Endpoints.GspEndpoint | src/main/java/com/amazonaws/services/neptune/rdf/NeptuneSparqlClient.java:213-218 | The bulk-fetch URL exists exactly when there is at least one endpoint (`iterator().next()` throws otherwise) |
| Endpoints.GspEndpointDependsOnlyOnFirst | src/main/java/com/amazonaws/services/neptune/rdf/NeptuneSparqlClient.java:213-218 | Endpoint lists that agree on their first entry give the same bulk-fetch URL |
| Endpoints.GspEndpointSelectorInjective | src/main/java/com/amazonaws/services/neptune/rdf/NeptuneSparqlClient.java:213-218 | Distinct selectors give distinct bulk-fetch URLs |
| JavaUri.GspEndpointAccepted | src/main/java/com/amazonaws/services/neptune/rdf/NeptuneSparqlClient.java:182 | `new HttpGet` accepts the bulk-fetch URL of a host holding no '/', '?' or '#' exactly when `<host>:<port>` is legal authority text and the selector is a legal query, optionally followed by '#' and a legal fragment |
| SparqlClient.BuildRepositories | src/main/java/com/amazonaws/services/neptune/rdf/NeptuneSparqlClient.java:58-73 | One repository per endpoint, in order, repository `i` the trailer-aware repository at `https://<endpoint i>:<port>` |
| SparqlClient.RepositoriesReadBack | src/main/java/com/amazonaws/services/neptune/rdf/NeptuneSparqlClient.java:59-66 | The URL of every built repository reads back as exactly its endpoint and the configured port |
| SparqlClient.Create | src/main/java/com/amazonaws/services/neptune/rdf/NeptuneSparqlClient.java:53-75 | The client keeps the configuration and toggles and has one repository per endpoint, repository `i` addressed to endpoint `i` |
| Selection.ChooseRepository | src/main/java/com/amazonaws/services/neptune/rdf/NeptuneSparqlClient.java:204-206 | A repository is chosen exactly when there is one; the chosen index is in range and names that repository; with a single repository it is always that one |
| Executor.Close | src/main/java/com/amazonaws/services/neptune/rdf/NeptuneSparqlClient.java:127-128 | Closing a try-with-resources resource always releases it. Its failure is added to the end of the suppressed list of an exception already in flight, and otherwise becomes the exception |
| Executor.Translate | src/main/java/com/amazonaws/services/neptune/rdf/NeptuneSparqlClient.java:134-141 | The catch block always wraps the cause; the message is the trailer message exactly when the repository is a `NeptuneExportSparqlRepository` |
| Executor.QueryBlock | src/main/java/com/amazonaws/services/neptune/rdf/NeptuneSparqlClient.java:127-133 | The exception reaching the catch comes from the first failing step in the order connection, output writer, RDF writer, evaluation, writer close, connection close. It carries as suppressed the close failures of the resources open when it was thrown, writer first. The connection and writer are released in reverse order when acquired. The query is issued only once both exist and the RDF writer was created |
| Executor.ExecuteQuery | src/main/java/com/amazonaws/services/neptune/rdf/NeptuneSparqlClient.java:123-162 | A call with no repository throws unwrapped. Otherwise it records the drawn index, releases every resource it acquires in reverse order, and issues the query to the chosen repository unless an earlier step failed. It throws exactly when a step failed. The exception is a wrapper whose cause is the first failure, with the later close failures suppressed, and whose message is the trailer message for a trailer-aware repository |
| Executor.ExecuteTupleQuery | src/main/java/com/amazonaws/services/neptune/rdf/NeptuneSparqlClient.java:123-142 | At most one query is issued: a tuple query with exactly the given text, to the chosen repository; resources are balanced and nothing is bulk-fetched |
| Executor.ExecuteGraphQuery | src/main/java/com/amazonaws/services/neptune/rdf/NeptuneSparqlClient.java:144-162 | The same for a graph query |
| Executor.GspWriterBlock | src/main/java/com/amazonaws/services/neptune/rdf/NeptuneSparqlClient.java:189-198 | The exception reaching the catch is the first failure in the order output writer, RDF writer, body close, parse, writer close; a body-close failure replaces a parse failure. A failure of the writer close is suppressed under any exception thrown while the writer was open. The body is closed only when both writers were created |
| Executor.GspAfterResponse | src/main/java/com/amazonaws/services/neptune/rdf/NeptuneSparqlClient.java:186-201 | After the body opens: the resource events for each failure case, which show the body left open when a writer cannot be created; the call throws exactly when a writer-block step fails, with a cause-only wrapper |
| Executor.GspAfterChoice | src/main/java/com/amazonaws/services/neptune/rdf/NeptuneSparqlClient.java:182-201 | No endpoint throws unwrapped. So does a URL that `URI.create` rejects, before anything is sent. Otherwise there is one GET of the first endpoint's bulk-fetch URL asking for N-Triples. A failed execute or `getContent` throws unwrapped with no resource held; later failures are as in the writer block |
| Executor.ExecuteGspExport | src/main/java/com/amazonaws/services/neptune/rdf/NeptuneSparqlClient.java:180-202 | No repository throws before anything is sent. Otherwise the draw is recorded and the rest does not depend on it. No query is ever issued. There is exactly one fetch when there are a repository and an endpoint and `URI.create` accepts the URL, and none otherwise. The call throws exactly when some step failed |
| BodyRelease.GspLeftOpen | src/main/java/com/amazonaws/services/neptune/rdf/NeptuneSparqlClient.java:186-198 | As written, a bulk fetch leaves the response body open exactly when the response arrived and either writer cannot be created; in every other case it leaves nothing open |
| BodyRelease.ClosingGspAfterResponse | src/main/java/com/amazonaws/services/neptune/rdf/NeptuneSparqlClient.java:189-201 | Corrected block with the body as a try-with-resources resource: on every path, resources are released in reverse order of acquisition; the cause-only wrapper carries the first failure |
| BodyRelease.ClosingKeepsFailures | src/main/java/com/amazonaws/services/neptune/rdf/NeptuneSparqlClient.java:189-201 | The correction throws in exactly the cases where the code as written throws |
| Export.ExportRequest | src/main/java/com/amazonaws/services/neptune/rdf/NeptuneSparqlClient.java:164-178 | `No_GSP` selects the tuple query and its absence the bulk fetch; a complete export asks for every graph (the fixed query, or `default`); a named-graph export puts the graph name into the query's filter or after `graph=` |
| Export.QueriesSelectRequestedGraphs | src/main/java/com/amazonaws/services/neptune/rdf/NeptuneSparqlClient.java:164-178 | Under `No_GSP` the tuple query of a complete export selects every graph, and that of a named-graph export exactly the named graph when its name is a well-formed IRI |
| Export.Perform | src/main/java/com/amazonaws/services/neptune/rdf/NeptuneSparqlClient.java:165-177 | A tuple-query request issues at most that query and fetches nothing. A bulk-fetch request issues no query and fetches the selector's URL exactly when there is a repository and `URI.create` accepts the URL |
| Export.ExecuteCompleteExport | src/main/java/com/amazonaws/services/neptune/rdf/NeptuneSparqlClient.java:164-170 | With `No_GSP`: at most one query, the complete-export query, always issued when the connection and writers can be created. Without it: no query, and one fetch of `.../sparql/gsp/?default` from the first endpoint, sent for a plain host exactly when `<host>:<port>` is legal authority text |
| Export.ExecuteNamedGraphExport | src/main/java/com/amazonaws/services/neptune/rdf/NeptuneSparqlClient.java:172-182 | With `No_GSP`: at most one query, the filter query for the graph. Without it: no query, and at most one fetch of `.../sparql/gsp/?graph=<name>` with the name unencoded. For a plain host the fetch is sent exactly when the authority is legal and the name is a legal query and fragment; otherwise the call throws unwrapped before sending |
| Export.GspFetchIgnoresChoice | src/main/java/com/amazonaws/services/neptune/rdf/NeptuneSparqlClient.java:180-186 | Two bulk fetches that differ only in the random draw differ only in the recorded choice |
| Export.BulkFetchGoesToFirstRepository | src/main/java/com/amazonaws/services/neptune/rdf/NeptuneSparqlClient.java:180-182 | Whatever the draw, a bulk fetch on a created client goes to the address of repository 0, the first endpoint, followed by `/sparql/gsp/?` and the selector, whenever `URI.create` accepts that URL |
| Export.NamedFetchBuilt | src/main/java/com/amazonaws/services/neptune/rdf/NeptuneSparqlClient.java:176-182 | The request of a named-graph bulk fetch to a plain host is built exactly when the authority is legal and the graph name is a legal query and fragment: `graph=` changes nothing |
| GraphSelector.FetchedGraph | src/main/java/com/amazonaws/services/neptune/rdf/NeptuneSparqlClient.java:176-182 | As written, a named-graph bulk fetch reaches the server exactly when the authority and the name are legal URI text. The server then reads the name only up to its first '#': a name with a '#' is never exported whole, and `a#b` is exported as `a` whenever `a` holds no '&', '%' or '+' |
| GraphSelector.ServerReadsName | src/main/java/com/amazonaws/services/neptune/rdf/NeptuneSparqlClient.java:176 | The server reads an unencoded name in a bulk-fetch URL up to its first '#', then up to its first '&', and percent-decodes the rest |
| GraphSelector.FragmentTruncatesExample | src/main/java/com/amazonaws/services/neptune/rdf/NeptuneSparqlClient.java:176 | With a legal authority, the graph `urn:x#y` is exported as `urn:x` |
| GraphSelector.SpaceRejectedExample | src/main/java/com/amazonaws/services/neptune/rdf/NeptuneSparqlClient.java:176-182 | A named-graph bulk fetch of the name `a b` throws before anything is sent |
| GraphSelector.StrategiesSelectSameGraphs | src/main/java/com/amazonaws/services/neptune/rdf/NeptuneSparqlClient.java:164-178 | For a legal authority, both strategies select the same graphs, as the server reads the request: every graph for a complete export, and exactly the named graph for a name that is a well-formed IRI and that the URL carries intact (no '#', '&', '%' or '+', and legal query text) |
| GraphSelector.StrategiesDisagreeOnFragment | src/main/java/com/amazonaws/services/neptune/rdf/NeptuneSparqlClient.java:172-178 | As written, for a well-formed IRI holding '#', the tuple query selects that graph and the bulk fetch never does |
| GraphSelector.DecodeEncode | src/main/java/com/amazonaws/services/neptune/rdf/NeptuneSparqlClient.java:176 | Percent-decoding undoes percent-encoding for every graph name |
| GraphSelector.LegalEncoded | src/main/java/com/amazonaws/services/neptune/rdf/NeptuneSparqlClient.java:176-182 | `URI.create` accepts a percent-encoded name exactly when every character of the name is ASCII, or beyond ASCII and neither a space nor a control character |
| GraphSelector.EncodedGraphReachesServer | src/main/java/com/amazonaws/services/neptune/rdf/NeptuneSparqlClient.java:176 | With the graph name percent-encoded, the server reads back exactly that name, whatever characters it holds |
| GraphSelector.EncodedFetchedGraph | src/main/java/com/amazonaws/services/neptune/rdf/NeptuneSparqlClient.java:176-182 | With the correction, the server exports exactly the named graph whenever the authority is legal and the name encodable, and nothing is sent otherwise |
| GraphSelector.ExecuteEncodedNamedGraphExport | src/main/java/com/amazonaws/services/neptune/rdf/NeptuneSparqlClient.java:172-182 | The corrected named-graph export: unchanged under `No_GSP`. Otherwise no query, and one fetch exactly when the authority is legal and the name encodable. The server reads that fetch's URL as exactly the requested graph |

## Left out

- `updateParser` and the session manager it installs (lines 77-106) configure parser
  leniency and the preferred result format. That is plumbing with no decision in it.
- IAM authentication: reading `SERVICE_REGION`, the credentials provider and the SigV4
  signer, and the wrapping of `NeptuneSigV4SignerException` (lines 55-56, 67-68). These
  depend on the environment and on code that is not part of this model.
- `AbstractRepository::init` (line 72), `getValueFactory` (line 125) and
  `Rio.createParser` (line 187) are taken to succeed. They hold no decision and
  nothing the model tracks.
- The HTTP exchange, query evaluation, N-Triples parsing, the result handlers and the
  writers are reduced to steps that succeed or throw. Which steps throw is a parameter.
  No data flows through them.
- The seeding and sharing of `Random` (line 113) are left out. The draw is a
  parameter constrained to what `nextInt` may return.
- `close` (lines 209-211) only shuts repositories down.
- The trailer message is a parameter. How `NeptuneExportSparqlRepository` extracts it
  from the response is not part of this model.
- Executor.ExecuteGspExport: does not say which wrapper a failure carries. That
  detail is stated one level down, on Executor.GspAfterChoice, which this member
  is proved to extend.
- GraphSelector.EncodedExportRequest: the correction leaves characters beyond ASCII
  as they are instead of encoding them as UTF-8 bytes, because character encodings
  are outside the model.
- GraphSelector.EncodedFetchedGraph: because of that, it does not promise that names
  holding a non-ASCII space or control character reach the server. `URI.create` still
  rejects them.
- GraphSelector.ServerGraph: reads only the first field of the query, and does not
  decode `+` as a space. An unencoded name holding '&' makes a second field. One
  holding '+' reaches the server with the '+' as it is. The encoder emits neither.
- GraphSelector.FetchedGraph: promises the name up to its first '#' back only when that
  part holds none of '&', '%' and '+', because of how the server reads those characters.
- JavaUri.Accepts: models only the `https` scheme and a registry-based authority. A
  bracketed IPv6 literal host, which `java.net.URI` accepts, counts as rejected.
- JavaUri.IsSpaceChar: follows the current Unicode space separators. The Unicode 6.2
  tables of Java 8 also count U+180E as a space.

## Findings

| source | as written | input that shows it | evidently intended | confidence | as-written member | corrected member |
|---|---|---|---|---|---|---|
| src/main/java/com/amazonaws/services/neptune/rdf/NeptuneSparqlClient.java:176 | The graph name is appended after `graph=` without percent-encoding, so '#', '&' and '%' in it change how the URL is read | graph `urn:x#y`: the URL ends `?graph=urn:x#y`, '#y' is a fragment, and the server fetches `urn:x` | the server fetches the named graph | not executed | GraphSelector.FetchedGraph | GraphSelector.EncodedFetchedGraph |
| src/main/java/com/amazonaws/services/neptune/rdf/NeptuneSparqlClient.java:186-198 | The response body is closed only in the `finally` around the parse, inside the block that first creates the output writer and the RDF writer | `createOutputWriter` throws after the response arrived: the body is opened and never closed | the body is closed on every path | not executed | BodyRelease.GspLeftOpen | BodyRelease.ClosingGspAfterResponse |
