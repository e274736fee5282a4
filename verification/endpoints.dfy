/** Endpoint addresses: the query-protocol URL of one endpoint (`sparqlEndpoint`) and
    the Graph Store Protocol URL used for bulk fetches (`getGSPEndpoint`). The bulk-fetch
    URL identifies its graph indirectly through a query string, as in section 4.2 of the
    W3C SPARQL 1.1 Graph Store HTTP Protocol, and is fetched with GET (section 5.2). */
module Endpoints {
  import opened Options
  import opened Text

  const Scheme := "https://"
  const GspPath := "/sparql/gsp/?"

  /** A host and port read back out of a query-protocol URL. */
  datatype Address = Address(host: string, port: int)

  /** `https://<host>:<port>`, the port rendered as Java renders an `int`. */
  function SparqlEndpoint(host: string, port: int): string {
    Scheme + host + ":" + IntToString(port)
  }

  /** Inverse of `SparqlEndpoint`: the host is everything between the scheme and the
      last ':', the port is the numeral after it. */
  function ParseSparqlEndpoint(url: string): Option<Address> {
    if !StartsWith(url, Scheme) then None
    else
      var rest := url[|Scheme|..];
      var colon := LastIndexOf(rest, ':');
      if colon.None? then None
      else
        var port := ParseInt(rest[colon.value + 1..]);
        if port.None? then None
        else Some(Address(rest[..colon.value], port.value))
  }

  /** Every host (even one containing ':') and every port can be read back from the
      URL built for them. */
  lemma ParseSparqlEndpointOfBuilt(host: string, port: int)
    ensures ParseSparqlEndpoint(SparqlEndpoint(host, port)) == Some(Address(host, port))
  {
    var digits := IntToString(port);
    var url := SparqlEndpoint(host, port);
    assert url[..|Scheme|] == Scheme;
    var rest := url[|Scheme|..];
    assert rest == host + [':'] + digits;
    assert ':' !in digits by {
      forall i | 0 <= i < |digits|
        ensures digits[i] != ':'
      {
        assert IsDigit(digits[i]) || digits[i] == '-';
      }
    }
    LastIndexOfBeforeFreeSuffix(host, ':', digits);
    assert rest[..|host|] == host;
    assert rest[|host| + 1..] == digits;
    IntToStringRoundTrip(port, digits);
    assert ParseInt(digits) == Some(port);
  }

  /** A URL is read as (host, port) only if it is exactly the URL built for them. */
  lemma BuiltSparqlEndpointOfParsed(host: string, port: int, url: string)
    requires ParseSparqlEndpoint(url) == Some(Address(host, port))
    ensures SparqlEndpoint(host, port) == url
  {
    var tail := ParsedSplit(url);
    TailIsRendering(port, tail);
  }

  /** A URL that parses is the scheme, the parsed host, ':' and a numeral for the port. */
  lemma ParsedSplit(url: string) returns (tail: string)
    requires ParseSparqlEndpoint(url).Some?
    ensures url == Scheme + ParseSparqlEndpoint(url).value.host + ":" + tail
    ensures ParseInt(tail) == Some(ParseSparqlEndpoint(url).value.port)
  {
    var rest := url[|Scheme|..];
    var k := LastIndexOf(rest, ':').value;
    var host := rest[..k];
    tail := rest[k + 1..];
    assert ParseSparqlEndpoint(url) == Some(Address(host, ParseInt(tail).value)) by {
      assert StartsWith(url, Scheme);
    }
    assert rest == host + ":" + tail by {
      assert rest[k] == ':';
      SplitAround(rest, k);
    }
    assert url == Scheme + rest by {
      assert StartsWith(url, Scheme);
      assert url == url[..|Scheme|] + rest;
    }
  }

  lemma TailIsRendering(port: int, tail: string)
    requires ParseInt(tail) == Some(port)
    ensures IntToString(port) == tail
  {
    IntToStringRoundTrip(port, tail);
  }

  lemma SplitAround(s: string, k: nat)
    requires k < |s|
    ensures s == s[..k] + [s[k]] + s[k + 1..]
  {
  }

  /** `ParseSparqlEndpoint` and `SparqlEndpoint` are inverse, in both directions. */
  lemma SparqlEndpointRoundTrip(host: string, port: int, url: string)
    ensures ParseSparqlEndpoint(url) == Some(Address(host, port)) <==> SparqlEndpoint(host, port) == url
  {
    if SparqlEndpoint(host, port) == url {
      ParseSparqlEndpointOfBuilt(host, port);
    }
    if ParseSparqlEndpoint(url) == Some(Address(host, port)) {
      BuiltSparqlEndpointOfParsed(host, port, url);
    }
  }

  /** `getGSPEndpoint`: the bulk-fetch URL, always addressed to the FIRST configured
      endpoint; `None` when there is no endpoint (`iterator().next()` throws). The
      selector is appended as it is, without percent-encoding. */
  function GspEndpoint(endpoints: seq<string>, port: int, selector: string): (r: Option<string>)
    ensures r.Some? <==> |endpoints| > 0
  {
    if |endpoints| == 0 then None
    else Some(Scheme + endpoints[0] + ":" + IntToString(port) + GspPath + selector)
  }

  /** The bulk-fetch URL is the first endpoint's query-protocol URL followed by the
      Graph Store path and the selector. */
  lemma GspEndpointExtendsFirstEndpoint(endpoints: seq<string>, port: int, selector: string)
    requires |endpoints| > 0
    ensures GspEndpoint(endpoints, port, selector)
         == Some(SparqlEndpoint(endpoints[0], port) + GspPath + selector)
  {
  }

  /** Only the first endpoint matters: lists that agree on it give the same URL. */
  lemma GspEndpointDependsOnlyOnFirst(e1: seq<string>, e2: seq<string>, port: int, selector: string)
    requires |e1| > 0 && |e2| > 0 && e1[0] == e2[0]
    ensures GspEndpoint(e1, port, selector) == GspEndpoint(e2, port, selector)
  {
  }

  /** For a fixed endpoint list and port, distinct selectors give distinct URLs. */
  lemma GspEndpointSelectorInjective(endpoints: seq<string>, port: int, s1: string, s2: string)
    requires |endpoints| > 0
    requires GspEndpoint(endpoints, port, s1) == GspEndpoint(endpoints, port, s2)
    ensures s1 == s2
  {
    var prefix := Scheme + endpoints[0] + ":" + IntToString(port) + GspPath;
    var u := GspEndpoint(endpoints, port, s1).value;
    assert u == prefix + s1 && u == prefix + s2;
    assert s1 == u[|prefix|..] == s2;
  }
}
