/** The abstract trace of one client call: which repository was chosen, which
    resources were acquired and released, which query or fetch was issued, and the
    exception, if any, that left the call. */
module Trace {
  import opened Options

  /** The scoped resources of a call. */
  datatype Resource = Connection | OutputWriter | ResponseBody

  /** Every step of a call that can throw. */
  datatype Step =
    | ChooseRepository    // Random.nextInt on an empty repository list
    | FirstEndpoint       // iterator().next() on an empty endpoint list
    | BuildRequest        // new HttpGet: URI.create rejects the URL text
    | GetConnection
    | CreateOutputWriter
    | CreateRdfWriter
    | Evaluate
    | CloseOutputWriter
    | CloseConnection
    | HttpExecute
    | GetContent
    | Parse
    | CloseBody

  /** A Java exception: the step that threw it and the close failures that
      try-with-resources attached to it as suppressed exceptions. */
  datatype Exc = Exc(origin: Step, suppressed: seq<Step>)

  /** The message of a wrapping RuntimeException: the repository's trailer message
      (`None` is Java's null), or, for `new RuntimeException(cause)`, the cause's own
      description. */
  datatype Message = TrailerMessage(text: Option<string>) | CauseDescription

  /** What leaves a call: an exception as thrown, or a RuntimeException wrapping it. */
  datatype Thrown = Unwrapped(exc: Exc) | Wrapped(message: Message, cause: Exc)

  datatype QueryKind = Tuple | Graph

  datatype Event =
    | Chose(index: nat)
    | Acquire(resource: Resource)
    | Release(resource: Resource)
    | Issue(kind: QueryKind, endpoint: string, text: string)
    | Fetch(url: string, accept: string)
    | Raise(thrown: Thrown)

  /** The acquire and release events of a trace, in order. */
  function ResourceEvents(t: seq<Event>): seq<Event>
  {
    if |t| == 0 then []
    else (if t[0].Acquire? || t[0].Release? then [t[0]] else []) + ResourceEvents(t[1..])
  }

  /** Replays acquire and release events against the stack of resources held and the
      set of resources ever acquired: a resource may be acquired once, and only the
      most recently acquired resource still held may be released. `None` on the first
      violation; otherwise the resources still held at the end. */
  function Unwind(t: seq<Event>, held: seq<Resource>, used: set<Resource>): Option<seq<Resource>>
  {
    if |t| == 0 then Some(held)
    else match t[0]
      case Acquire(r) =>
        if r in used then None else Unwind(t[1..], held + [r], used + {r})
      case Release(r) =>
        if |held| > 0 && held[|held| - 1] == r then Unwind(t[1..], held[..|held| - 1], used) else None
      case _ => Unwind(t[1..], held, used)
  }

  /** Every resource the trace acquires is acquired once and released once, after
      its acquisition, and resources are released in reverse order of acquisition. */
  predicate Balanced(t: seq<Event>) {
    Unwind(t, [], {}) == Some([])
  }

  /** One step of `Unwind`. */
  lemma UnwindCons(e: Event, t: seq<Event>, held: seq<Resource>, used: set<Resource>)
    ensures e.Acquire? ==> (Unwind([e] + t, held, used) ==
      if e.resource in used then None else Unwind(t, held + [e.resource], used + {e.resource}))
    ensures e.Release? ==> (Unwind([e] + t, held, used) ==
      if |held| > 0 && held[|held| - 1] == e.resource then Unwind(t, held[..|held| - 1], used) else None)
    ensures !e.Acquire? && !e.Release? ==> Unwind([e] + t, held, used) == Unwind(t, held, used)
  {
    assert ([e] + t)[0] == e;
    assert ([e] + t)[1..] == t;
  }

  /** Only acquire and release events matter to `Unwind`. */
  lemma {:induction false} UnwindIgnoresOtherEvents(t: seq<Event>, held: seq<Resource>, used: set<Resource>)
    ensures Unwind(t, held, used) == Unwind(ResourceEvents(t), held, used)
    decreases |t|
  {
    if |t| > 0 {
      UnwindIgnoresOtherEvents(t[1..], held, used);
      if t[0].Acquire? || t[0].Release? {
        var r := ResourceEvents(t);
        assert r[0] == t[0] && r[1..] == ResourceEvents(t[1..]);
        if t[0].Acquire? {
          UnwindIgnoresOtherEvents(t[1..], held + [t[0].resource], used + {t[0].resource});
        } else if |held| > 0 {
          UnwindIgnoresOtherEvents(t[1..], held[..|held| - 1], used);
        }
      } else {
        assert ResourceEvents(t) == ResourceEvents(t[1..]);
      }
    }
  }

  /** The projections of a trace that starts with `e`. */
  lemma ProjectCons(e: Event, t: seq<Event>)
    ensures ResourceEvents([e] + t) == (if e.Acquire? || e.Release? then [e] else []) + ResourceEvents(t)
    ensures Issued([e] + t) == (if e.Issue? then [e] else []) + Issued(t)
    ensures Fetched([e] + t) == (if e.Fetch? then [e] else []) + Fetched(t)
  {
    assert ([e] + t)[0] == e;
    assert ([e] + t)[1..] == t;
  }

  lemma {:induction false} ResourceEventsAppend(a: seq<Event>, b: seq<Event>)
    ensures ResourceEvents(a + b) == ResourceEvents(a) + ResourceEvents(b)
    decreases |a|
  {
    if |a| == 0 {
      assert a + b == b;
    } else {
      assert (a + b)[0] == a[0];
      assert (a + b)[1..] == a[1..] + b;
      ResourceEventsAppend(a[1..], b);
      ProjectCons(a[0], a[1..] + b);
      ProjectCons(a[0], a[1..]);
      assert [a[0]] + (a[1..] + b) == a + b;
      assert [a[0]] + a[1..] == a;
    }
  }

  /** The call ended by throwing. */
  predicate Raised(t: seq<Event>) {
    |t| > 0 && t[|t| - 1].Raise?
  }

  /** The queries a trace issued, in order. */
  function Issued(t: seq<Event>): seq<Event>
  {
    if |t| == 0 then []
    else (if t[0].Issue? then [t[0]] else []) + Issued(t[1..])
  }

  /** The bulk fetches a trace sent, in order. */
  function Fetched(t: seq<Event>): seq<Event>
  {
    if |t| == 0 then []
    else (if t[0].Fetch? then [t[0]] else []) + Fetched(t[1..])
  }

  lemma {:induction false} IssuedAppend(a: seq<Event>, b: seq<Event>)
    ensures Issued(a + b) == Issued(a) + Issued(b)
    decreases |a|
  {
    if |a| == 0 {
      assert a + b == b;
    } else {
      assert (a + b)[0] == a[0];
      assert (a + b)[1..] == a[1..] + b;
      IssuedAppend(a[1..], b);
      ProjectCons(a[0], a[1..] + b);
      ProjectCons(a[0], a[1..]);
      assert [a[0]] + (a[1..] + b) == a + b;
      assert [a[0]] + a[1..] == a;
    }
  }

  lemma {:induction false} FetchedAppend(a: seq<Event>, b: seq<Event>)
    ensures Fetched(a + b) == Fetched(a) + Fetched(b)
    decreases |a|
  {
    if |a| == 0 {
      assert a + b == b;
    } else {
      assert (a + b)[0] == a[0];
      assert (a + b)[1..] == a[1..] + b;
      FetchedAppend(a[1..], b);
      ProjectCons(a[0], a[1..] + b);
      ProjectCons(a[0], a[1..]);
      assert [a[0]] + (a[1..] + b) == a + b;
      assert [a[0]] + a[1..] == a;
    }
  }
}
