/** How a Graph Store server reads the graph name back out of a bulk-fetch URL, and
    why the name has to be percent-encoded before it is put there. The URL syntax is
    that of RFC 3986: the fragment starts at the first '#' (section 3.5) and the query
    is what follows the first '?' before it (section 3.4). Query fields are separated
    by '&' and `%HH` stands for the character with hexadecimal code `HH` (section 2.1). */
module GraphSelector {
  import opened Options
  import opened Text
  import opened Endpoints
  import opened SparqlClient
  import opened Selection
  import opened Trace
  import opened Executor
  import opened Export
  import JavaUri

  /** Characters that never need escaping (section 2.3 of RFC 3986). */
  predicate IsUnreserved(c: char) {
    || 'A' <= c <= 'Z' || 'a' <= c <= 'z' || '0' <= c <= '9'
    || c == '-' || c == '.' || c == '_' || c == '~'
  }

  /** ASCII characters that an encoder writes as `%HH`. Characters beyond ASCII are
      left as they are. */
  predicate IsEscaped(c: char) {
    c as int < 128 && !IsUnreserved(c)
  }

  /** The upper-case hexadecimal digit for `0 <= d < 16`. */
  function HexDigit(d: nat): (c: char)
    requires d < 16
    ensures IsHex(c)
  {
    if d < 10 then ('0' as int + d) as char else ('A' as int + d - 10) as char
  }

  /** The value of a hexadecimal digit of either case. */
  function HexValue(c: char): (v: nat)
    requires IsHex(c)
    ensures v < 16
    ensures 'A' <= c <= 'F' || '0' <= c <= '9' ==> HexDigit(v) == c
  {
    if '0' <= c <= '9' then c as int - '0' as int
    else if 'A' <= c <= 'F' then c as int - 'A' as int + 10
    else c as int - 'a' as int + 10
  }

  /** One character as it appears in an encoded query value. */
  function EncodeChar(c: char): (r: string)
    ensures IsEscaped(c) ==>
      && |r| == 3 && r[0] == '%' && IsHex(r[1]) && IsHex(r[2])
      && 16 * HexValue(r[1]) + HexValue(r[2]) == c as int
    ensures !IsEscaped(c) ==> r == [c]
  {
    if IsEscaped(c) then ['%', HexDigit(c as int / 16), HexDigit(c as int % 16)] else [c]
  }

  /** Percent-encoding of a whole query value. What comes out holds no ASCII character
      that would need escaping other than the '%' of the escapes themselves. */
  function PercentEncode(s: string): (r: string)
    ensures forall i :: 0 <= i < |r| ==> r[i] == '%' || !IsEscaped(r[i])
    ensures '#' !in r && '&' !in r && '?' !in r
    decreases |s|
  {
    if |s| == 0 then []
    else
      var head := EncodeChar(s[0]);
      var tail := PercentEncode(s[1..]);
      assert forall i :: 0 <= i < |head| ==> (head + tail)[i] == head[i];
      assert forall i :: |head| <= i < |head + tail| ==> (head + tail)[i] == tail[i - |head|];
      head + tail
  }

  /** Percent-decoding: every `%` followed by two hexadecimal digits stands for one
      character; anything else stands for itself. Text without '%' is unchanged. */
  function PercentDecode(s: string): (r: string)
    ensures '%' !in s ==> r == s
    ensures |r| <= |s|
    decreases |s|
  {
    if |s| == 0 then []
    else if |s| >= 3 && s[0] == '%' && IsHex(s[1]) && IsHex(s[2]) then
      [(16 * HexValue(s[1]) + HexValue(s[2])) as char] + PercentDecode(s[3..])
    else
      [s[0]] + PercentDecode(s[1..])
  }

  /** Decoding undoes the encoding of one character in front of anything. */
  lemma DecodeEncodedChar(c: char, rest: string)
    ensures PercentDecode(EncodeChar(c) + rest) == [c] + PercentDecode(rest)
  {
    var s := EncodeChar(c) + rest;
    if IsEscaped(c) {
      assert s[0] == '%' && s[1] == EncodeChar(c)[1] && s[2] == EncodeChar(c)[2];
      assert s[3..] == rest;
    } else {
      assert s[0] == c && c != '%';
      assert s[1..] == rest;
    }
  }

  /** Decoding undoes encoding: every value survives the round trip. */
  lemma {:induction false} DecodeEncode(s: string)
    ensures PercentDecode(PercentEncode(s)) == s
    decreases |s|
  {
    if |s| > 0 {
      DecodeEncodedChar(s[0], PercentEncode(s[1..]));
      DecodeEncode(s[1..]);
      assert [s[0]] + s[1..] == s;
    }
  }

  /** Encoding is injective: distinct graph names give distinct query values. */
  lemma EncodeInjective(s1: string, s2: string)
    requires PercentEncode(s1) == PercentEncode(s2)
    ensures s1 == s2
  {
    DecodeEncode(s1);
    DecodeEncode(s2);
  }

  /** The URL without its fragment: everything before the first '#'. */
  function WithoutFragment(url: string): (r: string)
    ensures '#' !in r
    ensures StartsWith(url, r)
    ensures '#' !in url ==> r == url
    ensures |r| < |url| ==> url[|r|] == '#'
  {
    match IndexOf(url, '#')
    case None => url
    case Some(k) => url[..k]
  }

  /** The query of a URL: what follows the first '?' before the fragment; `None` when
      there is no '?' there. */
  function QueryOf(url: string): (r: Option<string>)
    ensures r.None? <==> '?' !in WithoutFragment(url)
    ensures r.Some? ==> '#' !in r.value
  {
    var head := WithoutFragment(url);
    match IndexOf(head, '?')
    case None => None
    case Some(k) => Some(head[k + 1..])
  }

  /** The first field of a query: everything before the first '&'. */
  function FirstField(query: string): (r: string)
    ensures '&' !in r
    ensures StartsWith(query, r)
    ensures '&' !in query ==> r == query
  {
    match IndexOf(query, '&')
    case None => query
    case Some(k) => query[..k]
  }

  /** The graph a Graph Store server fetches for a URL whose query starts with a
      `graph=` field: the field's value, percent-decoded. */
  function ServerGraph(url: string): Option<string> {
    match QueryOf(url)
    case None => None
    case Some(query) =>
      var field := FirstField(query);
      if StartsWith(field, GraphParameter) then Some(PercentDecode(field[|GraphParameter|..]))
      else None
  }

  /** The rendered port holds neither '?' nor '#'. */
  lemma PortIsPlain(port: int)
    ensures '?' !in IntToString(port) && '#' !in IntToString(port)
  {
    var s := IntToString(port);
    forall i | 0 <= i < |s| ensures s[i] != '?' && s[i] != '#' {
      assert IsDigit(s[i]) || s[i] == '-';
    }
  }

  /** Cutting `a + b` after `a` and `k` more characters keeps `a` whole. */
  lemma PrefixThrough(a: string, b: string, k: nat)
    requires k <= |b|
    ensures (a + b)[..|a| + k] == a + b[..k]
  {
  }

  /** Cutting the fragment off text whose front holds no '#' keeps that front. */
  lemma WithoutFragmentAfterFree(a: string, b: string)
    requires '#' !in a
    ensures WithoutFragment(a + b) == a + WithoutFragment(b)
  {
    IndexOfAfterFree(a, b, '#');
    match IndexOf(b, '#')
    case None =>
    case Some(k) =>
      PrefixThrough(a, b, k);
  }

  /** The first field of a query whose front holds no '&' keeps that front. */
  lemma FirstFieldAfterFree(a: string, b: string)
    requires '&' !in a
    ensures FirstField(a + b) == a + FirstField(b)
  {
    IndexOfAfterFree(a, b, '&');
    match IndexOf(b, '&')
    case None =>
    case Some(k) =>
      PrefixThrough(a, b, k);
  }

  /** The query of a URL whose base holds no '?' or '#' is what follows the '?' up to
      the first '#'. */
  lemma QueryOfParts(base: string, selector: string)
    requires '?' !in base && '#' !in base
    ensures QueryOf(base + "?" + selector) == Some(WithoutFragment(selector))
  {
    var w := WithoutFragment(selector);
    assert '#' !in base + "?";
    WithoutFragmentAfterFree(base + "?", selector);
    assert base + "?" + w == base + ['?'] + w;
    IndexOfAfterFreePrefix(base, '?', w);
    assert (base + "?" + w)[|base| + 1..] == w;
  }

  /** The bulk-fetch URL of a plain host is a '?'-free and '#'-free base, the '?', and
      the selector. */
  lemma GspEndpointParts(endpoints: seq<string>, port: int, selector: string) returns (base: string)
    requires |endpoints| > 0 && JavaUri.IsPlainHost(endpoints[0])
    ensures '?' !in base && '#' !in base
    ensures GspEndpoint(endpoints, port, selector).value == base + "?" + selector
  {
    var front := Scheme + endpoints[0] + ":" + IntToString(port);
    base := front + JavaUri.GspDirectory;
    assert '?' !in front && '#' !in front by {
      PortIsPlain(port);
      assert Scheme == ['h', 't', 't', 'p', 's', ':', '/', '/'];
    }
    assert '?' !in JavaUri.GspDirectory && '#' !in JavaUri.GspDirectory by {
      JavaUri.GspDirectoryFacts();
    }
    JavaUri.GspDirectoryFacts();
    MarkSplit(front, JavaUri.GspDirectory, selector);
  }

  /** Appending a directory and a '?' at once, or one after the other, is the same. */
  lemma MarkSplit(front: string, dir: string, selector: string)
    ensures front + (dir + "?") + selector == front + dir + "?" + selector
  {
  }

  /** The query of the bulk-fetch URL of a plain host is the selector up to its first
      '#'. */
  lemma GspEndpointQuery(endpoints: seq<string>, port: int, selector: string)
    requires |endpoints| > 0 && JavaUri.IsPlainHost(endpoints[0])
    ensures QueryOf(GspEndpoint(endpoints, port, selector).value) == Some(WithoutFragment(selector))
  {
    var base := GspEndpointParts(endpoints, port, selector);
    QueryOfParts(base, selector);
  }

  /** Neither fixed selector text holds a '#' or a '&'. */
  lemma SelectorConstants()
    ensures '#' !in GraphParameter && '&' !in GraphParameter
    ensures WithoutFragment(DefaultSelector) == DefaultSelector
  {
    assert GraphParameter == ['g', 'r', 'a', 'p', 'h', '='];
    assert DefaultSelector == ['d', 'e', 'f', 'a', 'u', 'l', 't'];
  }

  /** The server reads a leading `graph=` field of a query as its decoded value. */
  lemma ServerGraphOfQuery(url: string, query: string, value: string)
    requires QueryOf(url) == Some(query)
    requires FirstField(query) == GraphParameter + value
    ensures ServerGraph(url) == Some(PercentDecode(value))
  {
    assert (GraphParameter + value)[|GraphParameter|..] == value;
  }

  /** `graph=` in front of a name moves past the fragment and field cuts. */
  lemma GraphFieldCuts(g: string)
    ensures FirstField(WithoutFragment(GraphParameter + g)) == GraphParameter + FirstField(WithoutFragment(g))
  {
    SelectorConstants();
    WithoutFragmentAfterFree(GraphParameter, g);
    FirstFieldAfterFree(GraphParameter, WithoutFragment(g));
  }

  /** The server reads a graph name written unencoded after `graph=` in the bulk-fetch
      URL of a plain host up to its first '#', then up to its first '&', and then
      percent-decodes it. */
  lemma ServerReadsName(endpoints: seq<string>, port: int, g: string)
    requires |endpoints| > 0 && JavaUri.IsPlainHost(endpoints[0])
    ensures ServerGraph(GspEndpoint(endpoints, port, GraphParameter + g).value)
         == Some(PercentDecode(FirstField(WithoutFragment(g))))
  {
    var url := GspEndpoint(endpoints, port, GraphParameter + g).value;
    GspEndpointQuery(endpoints, port, GraphParameter + g);
    GraphFieldCuts(g);
    ServerGraphOfQuery(url, WithoutFragment(GraphParameter + g), FirstField(WithoutFragment(g)));
  }

  /** A name in which none of '&', '%' and '+' occurs: a query reader that splits
      fields, decodes escapes or reads '+' as a space leaves it as it is. */
  predicate IsPlainName(s: string) {
    forall i :: 0 <= i < |s| ==> s[i] != '&' && s[i] != '%' && s[i] != '+'
  }

  /** A name free of '#' that the server reads back exactly and that `URI.create`
      accepts as it is. */
  predicate CarriedIntact(g: string) {
    '#' !in g && IsPlainName(g) && JavaUri.Legal(JavaUri.Uric, g)
  }

  /** Text without '#' is accepted after the '?' exactly when it is a legal query. */
  lemma SelectorWithoutFragment(s: string)
    requires '#' !in s
    ensures JavaUri.SelectorAccepted(s) <==> JavaUri.Legal(JavaUri.Uric, s)
  {
    assert Span(s, "#") == |s|;
    assert s[..|s|] == s;
  }

  /** As written, the graph the server exports for a named-graph bulk fetch, `None`
      when `URI.create` rejects the URL and nothing is sent. The URL carries the name
      unencoded, so everything from the first '#' on becomes a fragment the server
      never sees, and a name `a#b` is exported as `a`, never as `a#b`. */
  function FetchedGraph(config: ConnectionConfig, toggles: set<Toggle>, graph: string): (r: Option<string>)
    requires |config.endpoints| > 0 && JavaUri.IsPlainHost(config.endpoints[0])
    requires NoGsp !in toggles
    ensures r.Some? <==> JavaUri.AuthorityAccepted(config.endpoints[0], config.port) && JavaUri.SelectorAccepted(graph)
    ensures r.Some? && IsPlainName(WithoutFragment(graph)) ==> r == Some(WithoutFragment(graph))
    ensures r.Some? && '#' in graph ==> |r.value| < |graph|
  {
    var url := GspEndpoint(config.endpoints, config.port, ExportRequest(toggles, Some(graph)).selector).value;
    NamedFetchBuilt(config, graph);
    ServerReadsName(config.endpoints, config.port, graph);
    if IsPlainName(WithoutFragment(graph)) then
      PlainNameRead(graph);
      if !JavaUri.Accepts(url) then None else ServerGraph(url)
    else
      if !JavaUri.Accepts(url) then None else ServerGraph(url)
  }

  /** The server reading of a name whose part before the first '#' is plain is that
      part. */
  lemma PlainNameRead(g: string)
    requires IsPlainName(WithoutFragment(g))
    ensures PercentDecode(FirstField(WithoutFragment(g))) == WithoutFragment(g)
  {
    var a := WithoutFragment(g);
    assert '&' !in a && '%' !in a by {
      assert IsPlainName(a);
    }
  }

  /** With a legal authority, the graph `urn:x#y` is exported as the graph `urn:x`. */
  lemma FragmentTruncatesExample(config: ConnectionConfig, toggles: set<Toggle>)
    requires |config.endpoints| > 0 && JavaUri.IsPlainHost(config.endpoints[0])
    requires JavaUri.AuthorityAccepted(config.endpoints[0], config.port)
    requires NoGsp !in toggles
    ensures FetchedGraph(config, toggles, "urn:x#y") == Some("urn:x")
  {
    ExampleCut();
    ExamplePlain();
    ExampleAccepted();
  }

  /** `urn:x` holds none of '&', '%' and '+'. */
  lemma ExamplePlain()
    ensures IsPlainName("urn:x")
  {
    assert "urn:x" == ['u', 'r', 'n', ':', 'x'];
  }

  /** `urn:x#y` cut at its fragment is `urn:x`. */
  lemma ExampleCut()
    ensures WithoutFragment("urn:x#y") == "urn:x"
  {
    var a := "urn:x";
    assert "urn:x#y" == a + ['#'] + "y";
    IndexOfAfterFreePrefix(a, '#', "y");
  }

  /** `urn:x#y` is a legal query and fragment. */
  lemma ExampleAccepted()
    ensures JavaUri.SelectorAccepted("urn:x#y")
  {
    var a := "urn:x";
    assert forall i :: 0 <= i < |a| ==> JavaUri.Allowed(JavaUri.Uric, a[i]);
    assert "urn:x#y" == a + "#y";
    JavaUri.SelectorAfterAllowed(a, "#y");
    assert Span("#y", "#") == 0;
    assert "#y"[1..] == "y";
    assert JavaUri.Legal(JavaUri.Uric, "y") by {
      assert "y"[1..] == [];
    }
  }

  /** With a legal authority, a named-graph bulk fetch of `a b` throws before
      anything is sent: `URI.create` refuses the space. */
  lemma SpaceRejectedExample(config: ConnectionConfig, toggles: set<Toggle>)
    requires |config.endpoints| > 0 && JavaUri.IsPlainHost(config.endpoints[0])
    requires NoGsp !in toggles
    ensures FetchedGraph(config, toggles, "a b") == None
  {
    assert !JavaUri.Legal(JavaUri.Uric, "a b") by {
      assert "a b"[1..] == " b";
      assert !JavaUri.IsOther(' ');
    }
    SelectorWithoutFragment("a b");
  }

  /** The graphs a bulk fetch selects as the server reads its URL: nothing when
      `URI.create` rejects the URL, every graph for the `default` query, the graph a
      leading `graph=` field names, and otherwise nothing this model reads. */
  function FetchScope(config: ConnectionConfig, selector: string): Scope {
    if !RequestBuilt(config, selector) then NoExport
    else
      var url := GspEndpoint(config.endpoints, config.port, selector).value;
      if QueryOf(url) == Some(DefaultSelector) then AllGraphs
      else match ServerGraph(url)
        case Some(g) => OneGraph(g)
        case None => Unrecognised
  }

  /** The graphs an export selects, read the way the receiving side reads them. */
  function ExportScope(config: ConnectionConfig, toggles: set<Toggle>, graph: Option<string>): Scope {
    match ExportRequest(toggles, graph)
    case TupleQuery(text) => QueryScope(text)
    case GspFetch(selector) => FetchScope(config, selector)
  }

  /** A built request whose query is `default` selects every graph. */
  lemma DefaultQueryScope(config: ConnectionConfig, selector: string)
    requires RequestBuilt(config, selector)
    requires QueryOf(GspEndpoint(config.endpoints, config.port, selector).value) == Some(DefaultSelector)
    ensures FetchScope(config, selector) == AllGraphs
  {
  }

  /** A built request whose query is not `default` selects the graph the server reads. */
  lemma NamedQueryScope(config: ConnectionConfig, selector: string, g: string)
    requires RequestBuilt(config, selector)
    requires QueryOf(GspEndpoint(config.endpoints, config.port, selector).value) != Some(DefaultSelector)
    requires ServerGraph(GspEndpoint(config.endpoints, config.port, selector).value) == Some(g)
    ensures FetchScope(config, selector) == OneGraph(g)
  {
  }

  /** The bulk fetch of a complete export selects every graph when its URL can be
      built. */
  lemma CompleteFetchScope(config: ConnectionConfig)
    requires |config.endpoints| > 0 && JavaUri.IsPlainHost(config.endpoints[0])
    requires JavaUri.AuthorityAccepted(config.endpoints[0], config.port)
    ensures FetchScope(config, DefaultSelector) == AllGraphs
  {
    var url := GspEndpoint(config.endpoints, config.port, DefaultSelector).value;
    assert RequestBuilt(config, DefaultSelector) by {
      CompleteFetchBuilt(config);
    }
    assert QueryOf(url) == Some(DefaultSelector) by {
      GspEndpointQuery(config.endpoints, config.port, DefaultSelector);
      SelectorConstants();
    }
    DefaultQueryScope(config, DefaultSelector);
  }

  /** The bulk fetch of a named graph that is carried intact selects that graph. */
  lemma NamedFetchScope(config: ConnectionConfig, g: string)
    requires |config.endpoints| > 0 && JavaUri.IsPlainHost(config.endpoints[0])
    requires JavaUri.AuthorityAccepted(config.endpoints[0], config.port)
    requires CarriedIntact(g)
    ensures FetchScope(config, GraphParameter + g) == OneGraph(g)
  {
    var selector := GraphParameter + g;
    var url := GspEndpoint(config.endpoints, config.port, selector).value;
    assert RequestBuilt(config, selector) by {
      SelectorWithoutFragment(g);
      NamedFetchBuilt(config, g);
    }
    assert QueryOf(url) != Some(DefaultSelector) by {
      GspEndpointQuery(config.endpoints, config.port, selector);
      SelectorConstants();
      WithoutFragmentAfterFree(GraphParameter, g);
      assert selector[0] != DefaultSelector[0];
    }
    assert ServerGraph(url) == Some(g) by {
      ServerReadsName(config.endpoints, config.port, g);
      PlainNameRead(g);
    }
    NamedQueryScope(config, selector, g);
  }

  /** Without `No_GSP` the request is a bulk fetch of `default`, or of `graph=` and
      the name. */
  lemma FetchRequest(toggles: set<Toggle>, graph: Option<string>)
    requires NoGsp !in toggles
    ensures ExportRequest(toggles, graph)
         == GspFetch(if graph.None? then DefaultSelector else GraphParameter + graph.value)
  {
  }

  /** The scope of an export under `No_GSP` is that of its tuple query. */
  lemma QueryExportScope(config: ConnectionConfig, toggles: set<Toggle>, graph: Option<string>)
    requires NoGsp in toggles
    ensures ExportScope(config, toggles, graph) == QueryScope(ExportRequest(toggles, graph).text)
  {
  }

  /** The two strategies select the same graphs: with or without `No_GSP`, a complete
      export selects every graph and a named-graph export exactly the named graph, as
      long as the name is a well-formed IRI that the bulk-fetch URL carries intact. */
  lemma StrategiesSelectSameGraphs(config: ConnectionConfig, toggles: set<Toggle>, graph: Option<string>)
    requires |config.endpoints| > 0 && JavaUri.IsPlainHost(config.endpoints[0])
    requires JavaUri.AuthorityAccepted(config.endpoints[0], config.port)
    requires graph.Some? ==> IsIriRef(graph.value) && CarriedIntact(graph.value)
    ensures ExportScope(config, toggles + {NoGsp}, graph) == if graph.None? then AllGraphs else OneGraph(graph.value)
    ensures ExportScope(config, toggles - {NoGsp}, graph) == if graph.None? then AllGraphs else OneGraph(graph.value)
  {
    QueriesSelectRequestedGraphs(toggles + {NoGsp}, graph);
    QueryExportScope(config, toggles + {NoGsp}, graph);
    FetchRequest(toggles - {NoGsp}, graph);
    if graph.None? {
      CompleteFetchScope(config);
    } else {
      NamedFetchScope(config, graph.value);
    }
  }

  /** The server never reads back the whole of a name holding '#': what it reads is
      shorter. */
  lemma FragmentReadShorter(g: string)
    requires '#' in g
    ensures |PercentDecode(FirstField(WithoutFragment(g)))| < |g|
  {
    var w := WithoutFragment(g);
    assert w != g;
    assert |w| <= |g|;
  }

  /** As written, the bulk fetch of a name holding '#' never selects that graph. */
  lemma FragmentFetchScope(config: ConnectionConfig, g: string)
    requires |config.endpoints| > 0 && JavaUri.IsPlainHost(config.endpoints[0])
    requires '#' in g
    ensures FetchScope(config, GraphParameter + g) != OneGraph(g)
  {
    var selector := GraphParameter + g;
    var url := GspEndpoint(config.endpoints, config.port, selector).value;
    if RequestBuilt(config, selector) && QueryOf(url) != Some(DefaultSelector) {
      var read := PercentDecode(FirstField(WithoutFragment(g)));
      ServerReadsName(config.endpoints, config.port, g);
      NamedQueryScope(config, selector, read);
      FragmentReadShorter(g);
    }
  }

  /** As written, the strategies part ways on a name holding '#': the tuple query
      selects the named graph, the bulk fetch never does. */
  lemma StrategiesDisagreeOnFragment(config: ConnectionConfig, toggles: set<Toggle>, g: string)
    requires |config.endpoints| > 0 && JavaUri.IsPlainHost(config.endpoints[0])
    requires IsIriRef(g) && '#' in g
    ensures ExportScope(config, toggles + {NoGsp}, Some(g)) == OneGraph(g)
    ensures ExportScope(config, toggles - {NoGsp}, Some(g)) != OneGraph(g)
  {
    QueriesSelectRequestedGraphs(toggles + {NoGsp}, Some(g));
    QueryExportScope(config, toggles + {NoGsp}, Some(g));
    FetchRequest(toggles - {NoGsp}, Some(g));
    FragmentFetchScope(config, g);
  }

  /** The corrected request of an export: as before, except that the graph name of a
      named-graph bulk fetch is percent-encoded. */
  function EncodedExportRequest(toggles: set<Toggle>, graph: Option<string>): (r: Request)
    ensures r.TupleQuery? <==> NoGsp in toggles
    ensures r.TupleQuery? || graph.None? ==> r == ExportRequest(toggles, graph)
    ensures graph.Some? && r.GspFetch? ==>
      StartsWith(r.selector, GraphParameter) && PercentDecode(r.selector[|GraphParameter|..]) == graph.value
  {
    match graph
    case Some(g) =>
      if NoGsp in toggles then ExportRequest(toggles, graph)
      else
        DecodeEncode(g);
        assert (GraphParameter + PercentEncode(g))[|GraphParameter|..] == PercentEncode(g);
        GspFetch(GraphParameter + PercentEncode(g))
    case None => ExportRequest(toggles, graph)
  }

  /** With the correction every graph name reaches the server intact, whatever
      characters it holds. */
  lemma EncodedGraphReachesServer(endpoints: seq<string>, port: int, toggles: set<Toggle>, g: string)
    requires |endpoints| > 0 && JavaUri.IsPlainHost(endpoints[0])
    requires NoGsp !in toggles
    ensures ServerGraph(GspEndpoint(endpoints, port, EncodedExportRequest(toggles, Some(g)).selector).value)
         == Some(g)
  {
    var value := PercentEncode(g);
    ServerReadsName(endpoints, port, value);
    DecodeEncode(g);
  }

  /** A name every character of which the encoder writes in a form `URI.create`
      accepts: ASCII, or beyond it and neither a space nor a control character. */
  predicate EncodableName(g: string) {
    forall i :: 0 <= i < |g| ==> g[i] as int < 128 || JavaUri.IsOther(g[i])
  }

  /** One encoded character in front of legal text is legal exactly when the
      character is encodable. */
  lemma LegalEncodedChar(c: char, rest: string)
    ensures JavaUri.Legal(JavaUri.Uric, EncodeChar(c) + rest)
        <==> (c as int < 128 || JavaUri.IsOther(c)) && JavaUri.Legal(JavaUri.Uric, rest)
  {
    var s := EncodeChar(c) + rest;
    if IsEscaped(c) {
      assert s[0] == '%' && s[1] == EncodeChar(c)[1] && s[2] == EncodeChar(c)[2];
      assert s[3..] == rest;
    } else {
      assert s[0] == c && s[1..] == rest;
      if c as int < 128 {
        assert JavaUri.Allowed(JavaUri.Uric, c);
      } else {
        assert !JavaUri.Allowed(JavaUri.Uric, c);
      }
    }
  }

  /** `URI.create` accepts an encoded name exactly when the name is encodable. */
  lemma {:induction false} LegalEncoded(g: string)
    ensures JavaUri.Legal(JavaUri.Uric, PercentEncode(g)) <==> EncodableName(g)
    decreases |g|
  {
    if |g| > 0 {
      LegalEncodedChar(g[0], PercentEncode(g[1..]));
      LegalEncoded(g[1..]);
      assert EncodableName(g) <==> (g[0] as int < 128 || JavaUri.IsOther(g[0])) && EncodableName(g[1..]) by {
        assert forall i :: 1 <= i < |g| ==> g[i] == g[1..][i - 1];
      }
    }
  }

  /** The corrected bulk-fetch request of a plain host is built exactly when the
      authority is legal and the name is encodable. */
  lemma EncodedFetchBuilt(config: ConnectionConfig, g: string)
    requires |config.endpoints| > 0 && JavaUri.IsPlainHost(config.endpoints[0])
    ensures RequestBuilt(config, GraphParameter + PercentEncode(g))
        <==> JavaUri.AuthorityAccepted(config.endpoints[0], config.port) && EncodableName(g)
  {
    NamedFetchBuilt(config, PercentEncode(g));
    SelectorWithoutFragment(PercentEncode(g));
    LegalEncoded(g);
  }

  /** With the correction, the server exports exactly the named graph whenever the
      request can be built, and the request can be built for every encodable name. */
  function EncodedFetchedGraph(config: ConnectionConfig, toggles: set<Toggle>, graph: string): (r: Option<string>)
    requires |config.endpoints| > 0 && JavaUri.IsPlainHost(config.endpoints[0])
    requires NoGsp !in toggles
    ensures r == if JavaUri.AuthorityAccepted(config.endpoints[0], config.port) && EncodableName(graph)
                 then Some(graph) else None
  {
    var url := GspEndpoint(config.endpoints, config.port, EncodedExportRequest(toggles, Some(graph)).selector).value;
    EncodedGraphReachesServer(config.endpoints, config.port, toggles, graph);
    EncodedFetchBuilt(config, graph);
    if !JavaUri.Accepts(url) then None else ServerGraph(url)
  }

  /** `executeNamedGraphExport` with the correction: unchanged under `No_GSP`;
      otherwise no query, and a bulk fetch exactly when the name is encodable, whose
      URL the server reads as exactly `graph`. */
  function ExecuteEncodedNamedGraphExport(c: Client, graph: string, o: Oracle): (t: seq<Event>)
    requires DrawAllowed(|c.repositories|, o.draw)
    requires |c.config.endpoints| > 0 && JavaUri.IsPlainHost(c.config.endpoints[0])
    ensures NoGsp in c.toggles ==> t == ExecuteNamedGraphExport(c, graph, o)
    ensures NoGsp !in c.toggles ==> Issued(t) == []
    ensures NoGsp !in c.toggles && |c.repositories| > 0 ==>
      (|Fetched(t)| == 1
       <==> JavaUri.AuthorityAccepted(c.config.endpoints[0], c.config.port) && EncodableName(graph))
    ensures NoGsp !in c.toggles && |Fetched(t)| == 1 ==>
      Fetched(t)[0].Fetch? && ServerGraph(Fetched(t)[0].url) == Some(graph)
  {
    if NoGsp !in c.toggles then
      EncodedGraphReachesServer(c.config.endpoints, c.config.port, c.toggles, graph);
      EncodedFetchBuilt(c.config, graph);
      Perform(c, EncodedExportRequest(c.toggles, Some(graph)), o)
    else
      Perform(c, EncodedExportRequest(c.toggles, Some(graph)), o)
  }
}
