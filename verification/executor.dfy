/** The try/catch/finally structure of `executeTupleQuery`, `executeGraphQuery` and
    `executeGSPExport`, with the network, the query handlers, the parser and the
    writers reduced to steps that either succeed or throw. Which steps throw, which
    index the random source draws and what the response trailers say are all given by
    an `Oracle`.

    Java semantics followed here: try-with-resources closes its resources in reverse
    order of acquisition; a close failure is attached as suppressed to an exception
    already in flight, and otherwise becomes the exception; an exception thrown in a
    `finally` block replaces the one in flight. */
module Executor {
  import opened Options
  import opened Trace
  import opened Endpoints
  import opened SparqlClient
  import opened Selection
  import JavaUri

  datatype Oracle = Oracle(failing: set<Step>, draw: nat, trailer: Option<string>)

  const NTriples := "application/n-triples"

  /** The steps inside the try block of the query paths, in the order in which they
      decide the exception that reaches the catch. */
  const QueryOrder: seq<Step> :=
    [GetConnection, CreateOutputWriter, CreateRdfWriter, Evaluate, CloseOutputWriter, CloseConnection]

  /** The steps inside the try block of the bulk-fetch path, in the order in which
      they decide the exception that reaches the catch: a failing body close replaces
      a parse failure. */
  const GspOrder: seq<Step> :=
    [CreateOutputWriter, CreateRdfWriter, CloseBody, Parse, CloseOutputWriter]

  /** The index of the first step of `order` that fails. */
  function FirstFailure(order: seq<Step>, failing: set<Step>): (r: Option<nat>)
    ensures r.None? <==> forall i :: 0 <= i < |order| ==> order[i] !in failing
    ensures r.None? <==> forall s :: s in order ==> s !in failing
    ensures r.Some? ==> r.value < |order| && order[r.value] in failing
    ensures r.Some? ==> forall j :: 0 <= j < r.value ==> order[j] !in failing
  {
    if |order| == 0 then None
    else if order[0] in failing then Some(0)
    else
      match FirstFailure(order[1..], failing)
      case None => None
      case Some(k) => Some(k + 1)
  }

  /** Closing one resource of a try-with-resources block while `pending` is in
      flight: the close always happens; its failure never replaces an exception in
      flight, but becomes the exception when there is none. */
  function Close(resource: Resource, step: Step, pending: Option<Exc>, failing: set<Step>): (r: (seq<Event>, Option<Exc>))
    ensures r.0 == [Release(resource)]
    ensures r.1.Some? <==> pending.Some? || step in failing
    ensures pending.Some? ==>
      r.1.value == Exc(pending.value.origin, pending.value.suppressed + if step in failing then [step] else [])
    ensures pending.None? && r.1.Some? ==> r.1.value == Exc(step, [])
  {
    if step !in failing then ([Release(resource)], pending)
    else match pending
      case None => ([Release(resource)], Some(Exc(step, [])))
      case Some(e) => ([Release(resource)], Some(Exc(e.origin, e.suppressed + [step])))
  }

  /** The catch block of the query paths: a `NeptuneExportSparqlRepository` wraps the
      exception with its trailer message, any other repository wraps it alone. */
  function Translate(repository: Repository, trailer: Option<string>, e: Exc): (r: Thrown)
    ensures r.Wrapped? && r.cause == e
    ensures r.message.TrailerMessage? <==> repository.kind.NeptuneExport?
    ensures r.message.TrailerMessage? ==> r.message.text == trailer
  {
    match repository.kind
    case NeptuneExport => Wrapped(TrailerMessage(trailer), e)
    case PlainSparql => Wrapped(CauseDescription, e)
  }

  /** The close failures a query block attaches to an exception thrown at `origin`:
      the output writer's, when the writer was open at the throw, then the
      connection's, when the connection was open and is not the one failing to close. */
  function QuerySuppressed(origin: Step, failing: set<Step>): seq<Step> {
    (if origin in {CreateRdfWriter, Evaluate} && CloseOutputWriter in failing then [CloseOutputWriter] else [])
    + (if origin in {CreateOutputWriter, CreateRdfWriter, Evaluate, CloseOutputWriter} && CloseConnection in failing
       then [CloseConnection] else [])
  }

  /** The exception a query block lets reach its catch, spelled out step by step. */
  lemma QueryOrderFirstFailure(failing: set<Step>)
    ensures FirstFailure(QueryOrder, failing) ==
      if GetConnection in failing then Some(0)
      else if CreateOutputWriter in failing then Some(1)
      else if CreateRdfWriter in failing then Some(2)
      else if Evaluate in failing then Some(3)
      else if CloseOutputWriter in failing then Some(4)
      else if CloseConnection in failing then Some(5)
      else None
  {
    var r := FirstFailure(QueryOrder, failing);
    if r.Some? {
      assert QueryOrder[0] == GetConnection && QueryOrder[1] == CreateOutputWriter;
      assert QueryOrder[2] == CreateRdfWriter && QueryOrder[3] == Evaluate;
      assert QueryOrder[4] == CloseOutputWriter && QueryOrder[5] == CloseConnection;
    }
  }

  /** The exception in flight once the RDF writer and the evaluation have run,
      before the two closes. */
  function QueryPrimary(failing: set<Step>): Option<Exc> {
    if CreateRdfWriter in failing then Some(Exc(CreateRdfWriter, []))
    else if Evaluate in failing then Some(Exc(Evaluate, []))
    else None
  }

  /** The exception left after closing the writer and then the connection over the
      primary one: the first failure in block order, with the later close failures
      suppressed. */
  lemma QueryClosesOutcome(failing: set<Step>)
    requires GetConnection !in failing && CreateOutputWriter !in failing
    ensures var e := Close(Connection, CloseConnection,
                           Close(OutputWriter, CloseOutputWriter, QueryPrimary(failing), failing).1, failing).1;
      && (e.Some? <==> FirstFailure(QueryOrder, failing).Some?)
      && (e.Some? ==> e.value.origin == QueryOrder[FirstFailure(QueryOrder, failing).value])
      && (e.Some? ==> e.value.suppressed == QuerySuppressed(e.value.origin, failing))
  {
    QueryOrderFirstFailure(failing);
    QueryClosesStepwise(failing);
  }

  /** The exception left after the two closes, case by case. */
  lemma QueryClosesStepwise(failing: set<Step>)
    ensures Close(Connection, CloseConnection,
                  Close(OutputWriter, CloseOutputWriter, QueryPrimary(failing), failing).1, failing).1
         == if CreateRdfWriter in failing then Some(Exc(CreateRdfWriter, QuerySuppressed(CreateRdfWriter, failing)))
            else if Evaluate in failing then Some(Exc(Evaluate, QuerySuppressed(Evaluate, failing)))
            else if CloseOutputWriter in failing then Some(Exc(CloseOutputWriter, QuerySuppressed(CloseOutputWriter, failing)))
            else if CloseConnection in failing then Some(Exc(CloseConnection, []))
            else None
  {
    var primary := QueryPrimary(failing);
    var writer := Close(OutputWriter, CloseOutputWriter, primary, failing).1;
    var w := if CloseOutputWriter in failing then [CloseOutputWriter] else [];
    var k := if CloseConnection in failing then [CloseConnection] else [];
    if primary.Some? {
      assert primary.value.suppressed == [];
      assert [] + w == w;
      assert writer == Some(Exc(primary.value.origin, w));
      assert QuerySuppressed(primary.value.origin, failing) == w + k;
    } else if CloseOutputWriter in failing {
      assert writer == Some(Exc(CloseOutputWriter, []));
      assert QuerySuppressed(CloseOutputWriter, failing) == [] + k;
    } else {
      assert writer == None;
    }
  }

  /** The part of the query block after both the connection and the output writer
      exist: the RDF writer and the evaluation, then the two closes in reverse order. */
  function QueryBody(repository: Repository, kind: QueryKind, sparql: string, failing: set<Step>): (r: (seq<Event>, Option<Exc>))
    requires GetConnection !in failing && CreateOutputWriter !in failing
    ensures r.1.Some? <==> FirstFailure(QueryOrder, failing).Some?
    ensures r.1.Some? ==> r.1.value.origin == QueryOrder[FirstFailure(QueryOrder, failing).value]
    ensures r.1.Some? ==> r.1.value.suppressed == QuerySuppressed(r.1.value.origin, failing)
    ensures r.0 == if CreateRdfWriter in failing
                   then [Acquire(Connection), Acquire(OutputWriter), Release(OutputWriter), Release(Connection)]
                   else [Acquire(Connection), Acquire(OutputWriter), Issue(kind, repository.url, sparql),
                         Release(OutputWriter), Release(Connection)]
  {
    QueryClosesOutcome(failing);
    var body: seq<Event> := if CreateRdfWriter in failing then [] else [Issue(kind, repository.url, sparql)];
    var writerClosed := Close(OutputWriter, CloseOutputWriter, QueryPrimary(failing), failing);
    var connectionClosed := Close(Connection, CloseConnection, writerClosed.1, failing);
    Nested(Acquire(Connection), Acquire(OutputWriter), body, Release(OutputWriter), Release(Connection));
    ([Acquire(Connection), Acquire(OutputWriter)] + body + writerClosed.0 + connectionClosed.0,
     connectionClosed.1)
  }

  /** Two opens, at most one event, and two closes, laid out in order. */
  lemma Nested(open1: Event, open2: Event, body: seq<Event>, close2: Event, close1: Event)
    requires |body| <= 1
    ensures [open1, open2] + body + [close2] + [close1]
         == if body == [] then [open1, open2, close2, close1] else [open1, open2, body[0], close2, close1]
  {
  }

  /** The query block when the output writer cannot be created: the connection is
      closed, and its close failure is suppressed. */
  function WriterFailedBlock(failing: set<Step>): (r: (seq<Event>, Option<Exc>))
    requires GetConnection !in failing && CreateOutputWriter in failing
    ensures r.0 == [Acquire(Connection), Release(Connection)]
    ensures r.1 == Some(Exc(CreateOutputWriter, QuerySuppressed(CreateOutputWriter, failing)))
  {
    var closed := Close(Connection, CloseConnection, Some(Exc(CreateOutputWriter, [])), failing);
    ([Acquire(Connection)] + closed.0, closed.1)
  }

  /** Projections of the three trace shapes a query block can produce. */
  lemma QueryShapes(kind: QueryKind, url: string, sparql: string)
    ensures var t := [Acquire(Connection), Release(Connection)];
      ResourceEvents(t) == t && Issued(t) == [] && Fetched(t) == []
    ensures var t := [Acquire(Connection), Acquire(OutputWriter), Release(OutputWriter), Release(Connection)];
      ResourceEvents(t) == t && Issued(t) == [] && Fetched(t) == []
    ensures var t := [Acquire(Connection), Acquire(OutputWriter), Issue(kind, url, sparql), Release(OutputWriter), Release(Connection)];
      ResourceEvents(t) == [Acquire(Connection), Acquire(OutputWriter), Release(OutputWriter), Release(Connection)]
      && Issued(t) == [Issue(kind, url, sparql)] && Fetched(t) == []
  {
    ResourceOnly([Acquire(Connection), Release(Connection)]);
    ResourceOnly([Acquire(Connection), Acquire(OutputWriter), Release(OutputWriter), Release(Connection)]);
    IssuedShape(Issue(kind, url, sparql));
  }

  /** A trace of acquisitions and releases only is its own resource projection. */
  lemma {:induction false} ResourceOnly(t: seq<Event>)
    requires forall i :: 0 <= i < |t| ==> t[i].Acquire? || t[i].Release?
    ensures ResourceEvents(t) == t && Issued(t) == [] && Fetched(t) == []
    decreases |t|
  {
    if |t| > 0 {
      assert t == [t[0]] + t[1..];
      ProjectCons(t[0], t[1..]);
      ResourceOnly(t[1..]);
    }
  }

  /** Projections of the query block that issues its query. */
  lemma IssuedShape(issue: Event)
    requires issue.Issue?
    ensures var t := [Acquire(Connection), Acquire(OutputWriter), issue, Release(OutputWriter), Release(Connection)];
      ResourceEvents(t) == [Acquire(Connection), Acquire(OutputWriter), Release(OutputWriter), Release(Connection)]
      && Issued(t) == [issue] && Fetched(t) == []
  {
    var closes := [Release(OutputWriter), Release(Connection)];
    ResourceOnly(closes);
    ProjectCons(issue, closes);
    ProjectCons(Acquire(OutputWriter), [issue] + closes);
    ProjectCons(Acquire(Connection), [Acquire(OutputWriter)] + ([issue] + closes));
    assert [Acquire(Connection), Acquire(OutputWriter), issue, Release(OutputWriter), Release(Connection)]
        == [Acquire(Connection)] + ([Acquire(OutputWriter)] + ([issue] + closes));
  }

  /** The try-with-resources block of the query paths: the connection, then the output
      writer, then the RDF writer and the evaluation; the events it produces and the
      exception that reaches the catch. */
  function QueryBlock(repository: Repository, kind: QueryKind, sparql: string, failing: set<Step>): (r: (seq<Event>, Option<Exc>))
    ensures r.1.Some? <==> FirstFailure(QueryOrder, failing).Some?
    ensures r.1.Some? ==> r.1.value.origin == QueryOrder[FirstFailure(QueryOrder, failing).value]
    ensures r.1.Some? ==> r.1.value.suppressed == QuerySuppressed(r.1.value.origin, failing)
    ensures ResourceEvents(r.0) ==
      if GetConnection in failing then []
      else if CreateOutputWriter in failing then [Acquire(Connection), Release(Connection)]
      else [Acquire(Connection), Acquire(OutputWriter), Release(OutputWriter), Release(Connection)]
    ensures Issued(r.0) == if GetConnection in failing || CreateOutputWriter in failing
                               || CreateRdfWriter in failing
                            then [] else [Issue(kind, repository.url, sparql)]
    ensures Fetched(r.0) == []
  {
    QueryOrderFirstFailure(failing);
    if GetConnection in failing then ([], Some(Exc(GetConnection, [])))
    else if CreateOutputWriter in failing then
      QueryShapes(kind, repository.url, sparql);
      WriterFailedBlock(failing)
    else
      QueryShapes(kind, repository.url, sparql);
      QueryBody(repository, kind, sparql, failing)
  }

  /** The trace shapes of a query block release what they acquire, in reverse order. */
  lemma QueryShapesBalanced()
    ensures Balanced([])
    ensures Balanced([Acquire(Connection), Release(Connection)])
    ensures Balanced([Acquire(Connection), Acquire(OutputWriter), Release(OutputWriter), Release(Connection)])
  {
    UnwindCons(Acquire(Connection), [Release(Connection)], [], {});
    UnwindCons(Release(Connection), [], [Connection], {Connection});
    UnwindCons(Acquire(Connection), [Acquire(OutputWriter), Release(OutputWriter), Release(Connection)], [], {});
    assert [] + [Connection] == [Connection] && {} + {Connection} == {Connection};
    UnwindCons(Acquire(OutputWriter), [Release(OutputWriter), Release(Connection)], [Connection], {Connection});
    assert [Connection] + [OutputWriter] == [Connection, OutputWriter];
    assert {Connection} + {OutputWriter} == {Connection, OutputWriter};
    assert [Connection, OutputWriter][..1] == [Connection];
    UnwindCons(Release(OutputWriter), [Release(Connection)], [Connection, OutputWriter], {Connection, OutputWriter});
    UnwindCons(Release(Connection), [], [Connection], {Connection, OutputWriter});
  }

  /** The projections of a block framed by a leading choice and a trailing raise. */
  lemma FramedProjections(index: nat, block: seq<Event>, raised: seq<Event>)
    requires raised == [] || (|raised| == 1 && raised[0].Raise?)
    ensures ResourceEvents([Chose(index)] + block + raised) == ResourceEvents(block)
    ensures Issued([Chose(index)] + block + raised) == Issued(block)
    ensures Fetched([Chose(index)] + block + raised) == Fetched(block)
    ensures Balanced([Chose(index)] + block + raised) <==> Balanced(block)
  {
    var t := [Chose(index)] + block + raised;
    ProjectCons(Chose(index), block + raised);
    assert t == [Chose(index)] + (block + raised);
    ResourceEventsAppend(block, raised);
    IssuedAppend(block, raised);
    FetchedAppend(block, raised);
    if raised != [] {
      assert raised == [raised[0]] + [];
      ProjectCons(raised[0], []);
    }
    UnwindIgnoresOtherEvents(t, [], {});
    UnwindIgnoresOtherEvents(block, [], {});
  }

  /** `executeTupleQuery` (kind `Tuple`) and `executeGraphQuery` (kind `Graph`): choose
      a repository, run the query block, and translate whatever reaches the catch. */
  function ExecuteQuery(c: Client, kind: QueryKind, sparql: string, o: Oracle): (t: seq<Event>)
    requires DrawAllowed(|c.repositories|, o.draw)
    ensures |c.repositories| == 0 ==> t == [Raise(Unwrapped(Exc(ChooseRepository, [])))]
    ensures |c.repositories| > 0 ==> |t| > 0 && t[0] == Chose(o.draw)
    ensures Balanced(t)
    ensures ResourceEvents(t) ==
      if |c.repositories| == 0 || GetConnection in o.failing then []
      else if CreateOutputWriter in o.failing then [Acquire(Connection), Release(Connection)]
      else [Acquire(Connection), Acquire(OutputWriter), Release(OutputWriter), Release(Connection)]
    ensures Fetched(t) == []
    ensures Issued(t) ==
      if |c.repositories| == 0 || GetConnection in o.failing || CreateOutputWriter in o.failing
         || CreateRdfWriter in o.failing
      then [] else [Issue(kind, c.repositories[o.draw].url, sparql)]
    ensures Raised(t) <==> |c.repositories| == 0 || FirstFailure(QueryOrder, o.failing).Some?
    ensures |c.repositories| > 0 && Raised(t) ==>
      var thrown := t[|t| - 1].thrown;
      && thrown.Wrapped?
      && thrown.cause.origin == QueryOrder[FirstFailure(QueryOrder, o.failing).value]
      && thrown.cause.suppressed == QuerySuppressed(thrown.cause.origin, o.failing)
      && thrown.message == (if c.repositories[o.draw].kind.NeptuneExport?
                            then TrailerMessage(o.trailer) else CauseDescription)
  {
    if |c.repositories| == 0 then
      ProjectCons(Raise(Unwrapped(Exc(ChooseRepository, []))), []);
      UnwindCons(Raise(Unwrapped(Exc(ChooseRepository, []))), [], [], {});
      [Raise(Unwrapped(Exc(ChooseRepository, [])))]
    else
      var repository := c.repositories[o.draw];
      ChosenQueryEvents(repository, o.draw, kind, sparql, o);
      ChosenQueryRaise(repository, o.draw, kind, sparql, o);
      ChosenQuery(repository, o.draw, kind, sparql, o)
  }

  /** The query path once `repository`, at index `draw`, has been chosen. */
  function ChosenQuery(repository: Repository, draw: nat, kind: QueryKind, sparql: string, o: Oracle): (t: seq<Event>)
    ensures |t| > 0 && t[0] == Chose(draw)
  {
    var block := QueryBlock(repository, kind, sparql, o.failing);
    var raised := match block.1
      case None => []
      case Some(e) => [Raise(Translate(repository, o.trailer, e))];
    [Chose(draw)] + block.0 + raised
  }

  /** What the query path leaves open, issues and fetches once a repository is
      chosen. */
  lemma ChosenQueryEvents(repository: Repository, draw: nat, kind: QueryKind, sparql: string, o: Oracle)
    ensures var t := ChosenQuery(repository, draw, kind, sparql, o);
      && Balanced(t)
      && ResourceEvents(t) ==
        (if GetConnection in o.failing then []
         else if CreateOutputWriter in o.failing then [Acquire(Connection), Release(Connection)]
         else [Acquire(Connection), Acquire(OutputWriter), Release(OutputWriter), Release(Connection)])
      && Fetched(t) == []
      && Issued(t) ==
        (if GetConnection in o.failing || CreateOutputWriter in o.failing || CreateRdfWriter in o.failing
         then [] else [Issue(kind, repository.url, sparql)])
  {
    var block := QueryBlock(repository, kind, sparql, o.failing);
    var raised := match block.1
      case None => []
      case Some(e) => [Raise(Translate(repository, o.trailer, e))];
    FramedProjections(draw, block.0, raised);
    QueryShapesBalanced();
    UnwindIgnoresOtherEvents(block.0, [], {});
  }

  /** The query block raises nothing itself: its exception goes to the catch. */
  lemma QueryBlockRaiseFree(repository: Repository, kind: QueryKind, sparql: string, failing: set<Step>)
    ensures var block := QueryBlock(repository, kind, sparql, failing).0;
      forall i :: 0 <= i < |block| ==> !block[i].Raise?
  {
  }

  /** What the query path throws once a repository is chosen: the block's exception,
      wrapped by the catch. */
  lemma ChosenQueryRaise(repository: Repository, draw: nat, kind: QueryKind, sparql: string, o: Oracle)
    ensures var t := ChosenQuery(repository, draw, kind, sparql, o);
      && (Raised(t) <==> FirstFailure(QueryOrder, o.failing).Some?)
      && (Raised(t) ==>
          var thrown := t[|t| - 1].thrown;
          && thrown.Wrapped?
          && thrown.cause.origin == QueryOrder[FirstFailure(QueryOrder, o.failing).value]
          && thrown.cause.suppressed == QuerySuppressed(thrown.cause.origin, o.failing)
          && thrown.message == (if repository.kind.NeptuneExport? then TrailerMessage(o.trailer) else CauseDescription))
  {
    var block := QueryBlock(repository, kind, sparql, o.failing);
    var raised := match block.1
      case None => []
      case Some(e) => [Raise(Translate(repository, o.trailer, e))];
    QueryBlockRaiseFree(repository, kind, sparql, o.failing);
    LastRaise(Chose(draw), block.0, raised);
    assert [Chose(draw)] + block.0 + raised == [Chose(draw)] + (block.0 + raised);
  }

  /** `executeTupleQuery`: at most one query is issued, a tuple query with exactly the
      given text, to the chosen repository. */
  function ExecuteTupleQuery(c: Client, sparql: string, o: Oracle): (t: seq<Event>)
    requires DrawAllowed(|c.repositories|, o.draw)
    ensures Issued(t) == [] || (|c.repositories| > 0 && Issued(t) == [Issue(Tuple, c.repositories[o.draw].url, sparql)])
    ensures Balanced(t) && Fetched(t) == []
  {
    ExecuteQuery(c, Tuple, sparql, o)
  }

  /** `executeGraphQuery`: at most one query is issued, a graph query with exactly the
      given text, to the chosen repository. */
  function ExecuteGraphQuery(c: Client, sparql: string, o: Oracle): (t: seq<Event>)
    requires DrawAllowed(|c.repositories|, o.draw)
    ensures Issued(t) == [] || (|c.repositories| > 0 && Issued(t) == [Issue(Graph, c.repositories[o.draw].url, sparql)])
    ensures Balanced(t) && Fetched(t) == []
  {
    ExecuteQuery(c, Graph, sparql, o)
  }

  /** The close failure the bulk-fetch writer block attaches to an exception thrown
      at `origin`: the output writer's, when the writer was open at the throw. The
      body's close in `finally` replaces an exception instead. */
  function GspSuppressed(origin: Step, failing: set<Step>): seq<Step> {
    if origin in {CreateRdfWriter, CloseBody, Parse} && CloseOutputWriter in failing then [CloseOutputWriter] else []
  }

  /** The exception a bulk-fetch block lets reach its catch, spelled out step by step. */
  lemma GspOrderFirstFailure(failing: set<Step>)
    ensures FirstFailure(GspOrder, failing) ==
      if CreateOutputWriter in failing then Some(0)
      else if CreateRdfWriter in failing then Some(1)
      else if CloseBody in failing then Some(2)
      else if Parse in failing then Some(3)
      else if CloseOutputWriter in failing then Some(4)
      else None
  {
    var r := FirstFailure(GspOrder, failing);
    if r.Some? {
      assert GspOrder[0] == CreateOutputWriter && GspOrder[1] == CreateRdfWriter;
      assert GspOrder[2] == CloseBody && GspOrder[3] == Parse && GspOrder[4] == CloseOutputWriter;
    }
  }

  /** The try-with-resources block of the bulk-fetch path, entered with the response
      body already open: the output writer, then the RDF writer, then the parse with
      the body closed in its `finally`. */
  function GspWriterBlock(failing: set<Step>): (r: (seq<Event>, Option<Exc>))
    ensures r.1.Some? <==> FirstFailure(GspOrder, failing).Some?
    ensures r.1.Some? ==> r.1.value.origin == GspOrder[FirstFailure(GspOrder, failing).value]
    ensures r.1.Some? ==> r.1.value.suppressed == GspSuppressed(r.1.value.origin, failing)
    ensures r.0 ==
      if CreateOutputWriter in failing then []
      else if CreateRdfWriter in failing then [Acquire(OutputWriter), Release(OutputWriter)]
      else [Acquire(OutputWriter), Release(ResponseBody), Release(OutputWriter)]
  {
    GspOrderFirstFailure(failing);
    if CreateOutputWriter in failing then ([], Some(Exc(CreateOutputWriter, [])))
    else
      var parsed: (seq<Event>, Option<Exc>) :=
        if CreateRdfWriter in failing then ([], Some(Exc(CreateRdfWriter, [])))
        else if CloseBody in failing then ([Release(ResponseBody)], Some(Exc(CloseBody, [])))
        else if Parse in failing then ([Release(ResponseBody)], Some(Exc(Parse, [])))
        else ([Release(ResponseBody)], None);
      var closed := Close(OutputWriter, CloseOutputWriter, parsed.1, failing);
      ([Acquire(OutputWriter)] + parsed.0 + closed.0, closed.1)
  }

  /** Projections of the shapes of the bulk-fetch writer block, and those shapes
      behind the opening of the response body. */
  lemma GspBlockShapes()
    ensures var b := [Acquire(OutputWriter), Release(OutputWriter)];
      && ResourceEvents(b) == b && Issued(b) == [] && Fetched(b) == []
      && [Acquire(ResponseBody)] + b == [Acquire(ResponseBody), Acquire(OutputWriter), Release(OutputWriter)]
    ensures var b := [Acquire(OutputWriter), Release(ResponseBody), Release(OutputWriter)];
      && ResourceEvents(b) == b && Issued(b) == [] && Fetched(b) == []
      && [Acquire(ResponseBody)] + b
         == [Acquire(ResponseBody), Acquire(OutputWriter), Release(ResponseBody), Release(OutputWriter)]
  {
    ProjectCons(Release(OutputWriter), []);
    ProjectCons(Release(ResponseBody), [Release(OutputWriter)]);
    ProjectCons(Acquire(OutputWriter), [Release(OutputWriter)]);
    ProjectCons(Acquire(OutputWriter), [Release(ResponseBody), Release(OutputWriter)]);
  }

  /** Projections of a block followed by at most one raise. */
  lemma RaisedTail(block: seq<Event>, raised: seq<Event>)
    requires raised == [] || (|raised| == 1 && raised[0].Raise?)
    ensures ResourceEvents(block + raised) == ResourceEvents(block)
    ensures Issued(block + raised) == Issued(block)
    ensures Fetched(block + raised) == Fetched(block)
  {
    ResourceEventsAppend(block, raised);
    IssuedAppend(block, raised);
    FetchedAppend(block, raised);
    if raised != [] {
      assert raised == [raised[0]] + [];
      ProjectCons(raised[0], []);
    }
  }

  /** A raise-free block after a non-raise event, then at most one raise: the trace
      ends in a raise exactly when there is one, and then it ends in that one. */
  lemma LastRaise(first: Event, block: seq<Event>, raised: seq<Event>)
    requires !first.Raise?
    requires forall i :: 0 <= i < |block| ==> !block[i].Raise?
    requires raised == [] || |raised| == 1
    ensures var t := [first] + (block + raised);
      && (Raised(t) <==> raised != [] && raised[0].Raise?)
      && (raised != [] ==> t[|t| - 1] == raised[0])
  {
    var t := [first] + (block + raised);
    if raised == [] && block != [] {
      assert t[|t| - 1] == block[|block| - 1];
    }
  }

  /** What the catch of the bulk-fetch path throws, if anything: the writer block's
      exception wrapped on its own, without a trailer message. */
  function GspRaised(failing: set<Step>): (raised: seq<Event>)
    ensures raised == [] || (|raised| == 1 && raised[0].Raise?)
    ensures raised != [] <==> FirstFailure(GspOrder, failing).Some?
    ensures raised != [] ==>
      var thrown := raised[0].thrown;
      thrown.Wrapped? && thrown.message == CauseDescription
      && thrown.cause.origin == GspOrder[FirstFailure(GspOrder, failing).value]
      && thrown.cause.suppressed == GspSuppressed(thrown.cause.origin, failing)
  {
    match GspWriterBlock(failing).1
    case None => []
    case Some(e) => [Raise(Wrapped(CauseDescription, e))]
  }

  /** Everything after the response body is opened: the writer block and the wrapped
      exception, if any. */
  function GspAfterResponse(failing: set<Step>): (t: seq<Event>)
    ensures Issued(t) == [] && Fetched(t) == []
    ensures ResourceEvents(t) ==
      if CreateOutputWriter in failing then [Acquire(ResponseBody)]
      else if CreateRdfWriter in failing
      then [Acquire(ResponseBody), Acquire(OutputWriter), Release(OutputWriter)]
      else [Acquire(ResponseBody), Acquire(OutputWriter), Release(ResponseBody), Release(OutputWriter)]
    ensures Raised(t) <==> FirstFailure(GspOrder, failing).Some?
    ensures Raised(t) ==>
      var thrown := t[|t| - 1].thrown;
      thrown.Wrapped? && thrown.message == CauseDescription
      && thrown.cause.origin == GspOrder[FirstFailure(GspOrder, failing).value]
      && thrown.cause.suppressed == GspSuppressed(thrown.cause.origin, failing)
  {
    GspFramedEvents(failing, GspRaised(failing));
    GspAfterResponseRaise(failing);
    [Acquire(ResponseBody)] + (GspWriterBlock(failing).0 + GspRaised(failing))
  }

  /** The bulk-fetch path after the response body is opened ends in the wrapped
      exception of the writer block, if there is one. */
  lemma GspAfterResponseRaise(failing: set<Step>)
    ensures var t := [Acquire(ResponseBody)] + (GspWriterBlock(failing).0 + GspRaised(failing));
      && (Raised(t) <==> FirstFailure(GspOrder, failing).Some?)
      && (Raised(t) ==>
          var thrown := t[|t| - 1].thrown;
          thrown.Wrapped? && thrown.message == CauseDescription
          && thrown.cause.origin == GspOrder[FirstFailure(GspOrder, failing).value]
          && thrown.cause.suppressed == GspSuppressed(thrown.cause.origin, failing))
  {
    var block := GspWriterBlock(failing).0;
    var raised := GspRaised(failing);
    WriterBlockRaiseFree(failing);
    LastRaise(Acquire(ResponseBody), block, raised);
  }

  /** The writer block raises nothing itself: its exception goes to the catch. */
  lemma WriterBlockRaiseFree(failing: set<Step>)
    ensures var block := GspWriterBlock(failing).0;
      forall i :: 0 <= i < |block| ==> !block[i].Raise?
  {
  }

  /** Projections of the writer block behind the opened body and before at most one
      raise. */
  lemma GspFramedEvents(failing: set<Step>, raised: seq<Event>)
    requires raised == [] || (|raised| == 1 && raised[0].Raise?)
    ensures var t := [Acquire(ResponseBody)] + (GspWriterBlock(failing).0 + raised);
      && Issued(t) == [] && Fetched(t) == []
      && ResourceEvents(t) ==
        if CreateOutputWriter in failing then [Acquire(ResponseBody)]
        else if CreateRdfWriter in failing
        then [Acquire(ResponseBody), Acquire(OutputWriter), Release(OutputWriter)]
        else [Acquire(ResponseBody), Acquire(OutputWriter), Release(ResponseBody), Release(OutputWriter)]
  {
    var block := GspWriterBlock(failing).0;
    GspBlockShapes();
    RaisedTail(block, raised);
    ProjectCons(Acquire(ResponseBody), block + raised);
  }

  /** Everything after the request for `url` is built: the GET, the response body
      and the writer block. */
  function GspSent(url: string, failing: set<Step>): (t: seq<Event>)
    ensures |t| > 0
    ensures Issued(t) == [] && Fetched(t) == [Fetch(url, NTriples)]
    ensures ResourceEvents(t) ==
      if HttpExecute in failing || GetContent in failing then []
      else if CreateOutputWriter in failing then [Acquire(ResponseBody)]
      else if CreateRdfWriter in failing
      then [Acquire(ResponseBody), Acquire(OutputWriter), Release(OutputWriter)]
      else [Acquire(ResponseBody), Acquire(OutputWriter), Release(ResponseBody), Release(OutputWriter)]
    ensures Raised(t) <==>
      HttpExecute in failing || GetContent in failing || FirstFailure(GspOrder, failing).Some?
    ensures HttpExecute in failing ==> t[|t| - 1] == Raise(Unwrapped(Exc(HttpExecute, [])))
    ensures HttpExecute !in failing && GetContent in failing ==>
      t[|t| - 1] == Raise(Unwrapped(Exc(GetContent, [])))
    ensures HttpExecute !in failing && GetContent !in failing && Raised(t) ==>
      var thrown := t[|t| - 1].thrown;
      thrown.Wrapped? && thrown.message == CauseDescription
      && thrown.cause.origin == GspOrder[FirstFailure(GspOrder, failing).value]
      && thrown.cause.suppressed == GspSuppressed(thrown.cause.origin, failing)
  {
    if HttpExecute in failing then SendFailed(url, HttpExecute)
    else if GetContent in failing then SendFailed(url, GetContent)
    else Received(url, failing)
  }

  /** The GET for `url` is sent and `step` throws before a response body exists. */
  function SendFailed(url: string, step: Step): (t: seq<Event>)
    ensures Issued(t) == [] && Fetched(t) == [Fetch(url, NTriples)] && ResourceEvents(t) == []
    ensures Raised(t) && t[|t| - 1] == Raise(Unwrapped(Exc(step, [])))
  {
    ProjectCons(Raise(Unwrapped(Exc(step, []))), []);
    ProjectCons(Fetch(url, NTriples), [Raise(Unwrapped(Exc(step, [])))]);
    [Fetch(url, NTriples), Raise(Unwrapped(Exc(step, [])))]
  }

  /** The GET for `url` is sent and its response body opened. */
  function Received(url: string, failing: set<Step>): (t: seq<Event>)
    ensures |t| > 0
    ensures Issued(t) == [] && Fetched(t) == [Fetch(url, NTriples)]
    ensures ResourceEvents(t) == ResourceEvents(GspAfterResponse(failing))
    ensures Raised(t) <==> Raised(GspAfterResponse(failing))
    ensures Raised(t) ==> t[|t| - 1] == GspAfterResponse(failing)[|GspAfterResponse(failing)| - 1]
  {
    var rest := GspAfterResponse(failing);
    ProjectCons(Fetch(url, NTriples), rest);
    [Fetch(url, NTriples)] + rest
  }

  /** `new HttpGet(getGSPEndpoint(selector))` succeeds: there is a first endpoint, and
      `URI.create` accepts the URL built for it. */
  predicate RequestBuilt(config: ConnectionConfig, selector: string) {
    |config.endpoints| > 0 && JavaUri.Accepts(GspEndpoint(config.endpoints, config.port, selector).value)
  }

  /** Everything after the repository is chosen: the URL of the first endpoint, the
      request built from it, and what follows once it is sent. Neither the draw nor
      the trailers are consulted. */
  function GspAfterChoice(config: ConnectionConfig, selector: string, failing: set<Step>): (t: seq<Event>)
    ensures |t| > 0
    ensures |config.endpoints| == 0 ==> t == [Raise(Unwrapped(Exc(FirstEndpoint, [])))]
    ensures |config.endpoints| > 0 && !RequestBuilt(config, selector) ==>
      t == [Raise(Unwrapped(Exc(BuildRequest, [])))]
    ensures RequestBuilt(config, selector) ==>
      t == GspSent(GspEndpoint(config.endpoints, config.port, selector).value, failing)
    ensures Issued(t) == []
    ensures Fetched(t) ==
      if RequestBuilt(config, selector)
      then [Fetch(GspEndpoint(config.endpoints, config.port, selector).value, NTriples)]
      else []
    ensures ResourceEvents(t) ==
      if !RequestBuilt(config, selector) || HttpExecute in failing || GetContent in failing then []
      else if CreateOutputWriter in failing then [Acquire(ResponseBody)]
      else if CreateRdfWriter in failing
      then [Acquire(ResponseBody), Acquire(OutputWriter), Release(OutputWriter)]
      else [Acquire(ResponseBody), Acquire(OutputWriter), Release(ResponseBody), Release(OutputWriter)]
    ensures Raised(t) <==>
      || !RequestBuilt(config, selector) || HttpExecute in failing || GetContent in failing
      || FirstFailure(GspOrder, failing).Some?
  {
    var url := GspEndpoint(config.endpoints, config.port, selector);
    if url.None? then
      ProjectCons(Raise(Unwrapped(Exc(FirstEndpoint, []))), []);
      [Raise(Unwrapped(Exc(FirstEndpoint, [])))]
    else if !JavaUri.Accepts(url.value) then
      ProjectCons(Raise(Unwrapped(Exc(BuildRequest, []))), []);
      [Raise(Unwrapped(Exc(BuildRequest, [])))]
    else
      GspSent(url.value, failing)
  }

  /** `executeGSPExport(selector)`: choose a repository for its HTTP client, build a GET
      of the bulk-fetch URL of the FIRST endpoint asking for N-Triples, send it, open
      the response body, then run the writer block. Failures before the writer block
      leave the call as thrown; failures inside it are wrapped without any trailer
      message. */
  function ExecuteGspExport(c: Client, selector: string, o: Oracle): (t: seq<Event>)
    requires DrawAllowed(|c.repositories|, o.draw)
    ensures |c.repositories| == 0 ==> t == [Raise(Unwrapped(Exc(ChooseRepository, [])))]
    ensures |c.repositories| > 0 ==> t == [Chose(o.draw)] + GspAfterChoice(c.config, selector, o.failing)
    ensures Issued(t) == []
    ensures Fetched(t) ==
      if |c.repositories| > 0 && RequestBuilt(c.config, selector)
      then [Fetch(GspEndpoint(c.config.endpoints, c.config.port, selector).value, NTriples)]
      else []
    ensures ResourceEvents(t) ==
      if |c.repositories| == 0 || !RequestBuilt(c.config, selector)
         || HttpExecute in o.failing || GetContent in o.failing then []
      else if CreateOutputWriter in o.failing then [Acquire(ResponseBody)]
      else if CreateRdfWriter in o.failing
      then [Acquire(ResponseBody), Acquire(OutputWriter), Release(OutputWriter)]
      else [Acquire(ResponseBody), Acquire(OutputWriter), Release(ResponseBody), Release(OutputWriter)]
    ensures Raised(t) <==>
      || |c.repositories| == 0 || !RequestBuilt(c.config, selector)
      || HttpExecute in o.failing || GetContent in o.failing
      || FirstFailure(GspOrder, o.failing).Some?
  {
    if |c.repositories| == 0 then
      ProjectCons(Raise(Unwrapped(Exc(ChooseRepository, []))), []);
      [Raise(Unwrapped(Exc(ChooseRepository, [])))]
    else
      var rest := GspAfterChoice(c.config, selector, o.failing);
      ProjectCons(Chose(o.draw), rest);
      [Chose(o.draw)] + rest
  }
}
