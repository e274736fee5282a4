/** Whether the bulk-fetch path releases the response body it opens. As written, the
    body is closed only in the `finally` around the parse, which is reached only when
    both writers were created; the correction makes the body a resource of the
    try-with-resources block itself, so that it is closed on every path. */
module BodyRelease {
  import opened Options
  import opened Trace
  import opened Endpoints
  import opened SparqlClient
  import opened Selection
  import opened Executor

  /** Acquire and release events occur in a trace exactly when they occur among its
      resource events. */
  lemma {:induction false} InResourceEvents(e: Event, t: seq<Event>)
    requires e.Acquire? || e.Release?
    ensures e in t <==> e in ResourceEvents(t)
    decreases |t|
  {
    if |t| > 0 {
      InResourceEvents(e, t[1..]);
      ProjectCons(t[0], t[1..]);
      assert t == [t[0]] + t[1..];
    }
  }

  /** The resources a trace acquires and never releases. */
  function LeftOpen(t: seq<Event>): set<Resource> {
    set r | r in {Connection, OutputWriter, ResponseBody} && Acquire(r) in t && Release(r) !in t
  }

  /** Only resource events decide what a trace leaves open. */
  lemma LeftOpenOfEvents(t: seq<Event>)
    ensures LeftOpen(t) == LeftOpen(ResourceEvents(t))
  {
    forall r: Resource
      ensures (Acquire(r) in t <==> Acquire(r) in ResourceEvents(t))
           && (Release(r) in t <==> Release(r) in ResourceEvents(t))
    {
      InResourceEvents(Acquire(r), t);
      InResourceEvents(Release(r), t);
    }
  }

  /** What each of the four resource-event shapes of the bulk-fetch path leaves open. */
  lemma GspShapesLeftOpen()
    ensures LeftOpen([]) == {}
    ensures LeftOpen([Acquire(ResponseBody)]) == {ResponseBody}
    ensures LeftOpen([Acquire(ResponseBody), Acquire(OutputWriter), Release(OutputWriter)]) == {ResponseBody}
    ensures LeftOpen([Acquire(ResponseBody), Acquire(OutputWriter), Release(ResponseBody), Release(OutputWriter)]) == {}
  {
    assert Acquire(ResponseBody) in [Acquire(ResponseBody)];
    assert Acquire(ResponseBody) in [Acquire(ResponseBody), Acquire(OutputWriter), Release(OutputWriter)];
    assert Release(OutputWriter) in [Acquire(ResponseBody), Acquire(OutputWriter), Release(OutputWriter)];
  }

  /** As written, what a bulk fetch leaves open: nothing when it fails before the
      response arrives (no repository, no endpoint, a URL `URI.create` rejects, or a
      failing GET) or when both writers can be created, and the response body when
      either writer cannot be created. */
  function GspLeftOpen(c: Client, selector: string, o: Oracle): (open: set<Resource>)
    requires DrawAllowed(|c.repositories|, o.draw)
    ensures open ==
      if && |c.repositories| > 0 && RequestBuilt(c.config, selector)
         && HttpExecute !in o.failing && GetContent !in o.failing
         && (CreateOutputWriter in o.failing || CreateRdfWriter in o.failing)
      then {ResponseBody}
      else {}
  {
    var t := ExecuteGspExport(c, selector, o);
    LeftOpenOfEvents(t);
    GspShapesLeftOpen();
    LeftOpen(t)
  }

  /** The steps of the corrected block, in the order in which they decide the
      exception that reaches the catch: try-with-resources closes the writer before the
      body, and a close failure never replaces an earlier one. */
  const ClosingGspOrder: seq<Step> :=
    [CreateOutputWriter, CreateRdfWriter, Parse, CloseOutputWriter, CloseBody]

  lemma ClosingGspOrderFirstFailure(failing: set<Step>)
    ensures FirstFailure(ClosingGspOrder, failing) ==
      if CreateOutputWriter in failing then Some(0)
      else if CreateRdfWriter in failing then Some(1)
      else if Parse in failing then Some(2)
      else if CloseOutputWriter in failing then Some(3)
      else if CloseBody in failing then Some(4)
      else None
  {
    var r := FirstFailure(ClosingGspOrder, failing);
    if r.Some? {
      assert ClosingGspOrder[0] == CreateOutputWriter && ClosingGspOrder[1] == CreateRdfWriter;
      assert ClosingGspOrder[2] == Parse && ClosingGspOrder[3] == CloseOutputWriter;
      assert ClosingGspOrder[4] == CloseBody;
    }
  }

  /** The writer part of the corrected block: the output writer, then the RDF writer
      and the parse, then the writer's close. */
  function ClosingWriterPart(failing: set<Step>): (r: (seq<Event>, Option<Exc>))
    ensures r.1.Some? <==>
      CreateOutputWriter in failing || CreateRdfWriter in failing || Parse in failing || CloseOutputWriter in failing
    ensures r.1.Some? ==>
      r.1.value.origin ==
        if CreateOutputWriter in failing then CreateOutputWriter
        else if CreateRdfWriter in failing then CreateRdfWriter
        else if Parse in failing then Parse
        else CloseOutputWriter
    ensures r.0 == if CreateOutputWriter in failing then [] else [Acquire(OutputWriter), Release(OutputWriter)]
  {
    if CreateOutputWriter in failing then ([], Some(Exc(CreateOutputWriter, [])))
    else
      var parsed :=
        if CreateRdfWriter in failing then Some(Exc(CreateRdfWriter, []))
        else if Parse in failing then Some(Exc(Parse, []))
        else None;
      var closed := Close(OutputWriter, CloseOutputWriter, parsed, failing);
      ([Acquire(OutputWriter)] + closed.0, closed.1)
  }

  /** Projections of the two shapes of the corrected block. */
  lemma ClosingShapes()
    ensures var t := [Acquire(ResponseBody), Release(ResponseBody)];
      ResourceEvents(t) == t && Issued(t) == [] && Fetched(t) == []
    ensures var t := [Acquire(ResponseBody), Acquire(OutputWriter), Release(OutputWriter), Release(ResponseBody)];
      ResourceEvents(t) == t && Issued(t) == [] && Fetched(t) == []
  {
    ProjectCons(Release(ResponseBody), []);
    ProjectCons(Acquire(ResponseBody), [Release(ResponseBody)]);
    ProjectCons(Release(OutputWriter), [Release(ResponseBody)]);
    ProjectCons(Acquire(OutputWriter), [Release(OutputWriter), Release(ResponseBody)]);
    ProjectCons(Acquire(ResponseBody), [Acquire(OutputWriter), Release(OutputWriter), Release(ResponseBody)]);
  }

  /** The two shapes of the corrected block are balanced and leave nothing open. */
  lemma ClosingShapesBalanced()
    ensures var t := [Acquire(ResponseBody), Release(ResponseBody)];
      Balanced(t) && LeftOpen(t) == {}
    ensures var t := [Acquire(ResponseBody), Acquire(OutputWriter), Release(OutputWriter), Release(ResponseBody)];
      Balanced(t) && LeftOpen(t) == {}
  {
    UnwindCons(Acquire(ResponseBody), [Release(ResponseBody)], [], {});
    UnwindCons(Release(ResponseBody), [], [ResponseBody], {ResponseBody});
    assert [] + [ResponseBody] == [ResponseBody] && {} + {ResponseBody} == {ResponseBody};
    UnwindCons(Acquire(ResponseBody), [Acquire(OutputWriter), Release(OutputWriter), Release(ResponseBody)], [], {});
    UnwindCons(Acquire(OutputWriter), [Release(OutputWriter), Release(ResponseBody)], [ResponseBody], {ResponseBody});
    assert [ResponseBody] + [OutputWriter] == [ResponseBody, OutputWriter];
    assert {ResponseBody} + {OutputWriter} == {ResponseBody, OutputWriter};
    assert [ResponseBody, OutputWriter][..1] == [ResponseBody];
    UnwindCons(Release(OutputWriter), [Release(ResponseBody)], [ResponseBody, OutputWriter], {ResponseBody, OutputWriter});
    UnwindCons(Release(ResponseBody), [], [ResponseBody], {ResponseBody, OutputWriter});
  }

  /** The resource events of the corrected block, whatever fails. */
  function ClosingBlock(failing: set<Step>): (r: (seq<Event>, Option<Exc>))
    ensures r.1.Some? <==> FirstFailure(ClosingGspOrder, failing).Some?
    ensures r.1.Some? ==> r.1.value.origin == ClosingGspOrder[FirstFailure(ClosingGspOrder, failing).value]
    ensures [Acquire(ResponseBody)] + r.0 ==
      if CreateOutputWriter in failing then [Acquire(ResponseBody), Release(ResponseBody)]
      else [Acquire(ResponseBody), Acquire(OutputWriter), Release(OutputWriter), Release(ResponseBody)]
    ensures forall i :: 0 <= i < |r.0| ==> !r.0[i].Raise?
  {
    ClosingGspOrderFirstFailure(failing);
    var inner := ClosingWriterPart(failing);
    var bodyClosed := Close(ResponseBody, CloseBody, inner.1, failing);
    (inner.0 + bodyClosed.0, bodyClosed.1)
  }

  /** The corrected bulk-fetch block: the body is a resource of the try-with-resources
      block, closed after the writer on every path. */
  function ClosingGspAfterResponse(failing: set<Step>): (t: seq<Event>)
    ensures Balanced(t) && LeftOpen(t) == {}
    ensures Issued(t) == [] && Fetched(t) == []
    ensures Raised(t) <==> FirstFailure(ClosingGspOrder, failing).Some?
    ensures Raised(t) ==>
      var thrown := t[|t| - 1].thrown;
      thrown.Wrapped? && thrown.message == CauseDescription
      && thrown.cause.origin == ClosingGspOrder[FirstFailure(ClosingGspOrder, failing).value]
  {
    var block := ClosingBlock(failing);
    var raised := match block.1
      case None => []
      case Some(e) => [Raise(Wrapped(CauseDescription, e))];
    ClosingFramed(block.0, raised);
    LastRaise(Acquire(ResponseBody), block.0, raised);
    [Acquire(ResponseBody)] + (block.0 + raised)
  }

  /** The corrected block behind the opened body and before at most one raise keeps the
      balance and projections of its shape. */
  lemma ClosingFramed(block: seq<Event>, raised: seq<Event>)
    requires [Acquire(ResponseBody)] + block
          == [Acquire(ResponseBody), Release(ResponseBody)]
          || [Acquire(ResponseBody)] + block
          == [Acquire(ResponseBody), Acquire(OutputWriter), Release(OutputWriter), Release(ResponseBody)]
    requires raised == [] || (|raised| == 1 && raised[0].Raise?)
    ensures var t := [Acquire(ResponseBody)] + (block + raised);
      && Balanced(t) && LeftOpen(t) == {} && Issued(t) == [] && Fetched(t) == []
  {
    var shape := [Acquire(ResponseBody)] + block;
    var t := [Acquire(ResponseBody)] + (block + raised);
    assert t == shape + raised;
    ClosingShapes();
    ClosingShapesBalanced();
    RaisedTail(shape, raised);
    assert Balanced(t) by {
      UnwindIgnoresOtherEvents(t, [], {});
      UnwindIgnoresOtherEvents(shape, [], {});
    }
    assert LeftOpen(t) == {} by {
      LeftOpenOfEvents(t);
      LeftOpenOfEvents(shape);
    }
  }

  /** The correction changes only what is released: the same failing steps make the
      call throw, as written and corrected. */
  lemma ClosingKeepsFailures(failing: set<Step>)
    ensures Raised(ClosingGspAfterResponse(failing)) <==> Raised(GspAfterResponse(failing))
  {
    ClosingGspOrderFirstFailure(failing);
    GspOrderFirstFailure(failing);
  }
}
