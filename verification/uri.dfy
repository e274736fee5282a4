/** Which URL texts `java.net.URI` accepts, as `new HttpGet(String)` needs them to be
    accepted: `URI.create` throws an `IllegalArgumentException` for any other text.
    The grammar is that of RFC 2396, as amended by RFC 2732 and by the deviations the
    class documents: after `<scheme>://` comes an authority up to the first '/', '?' or
    '#', a path up to the first '?' or '#', a query up to the first '#', and a
    fragment. Each component is a run of the characters its class allows, of escapes
    `%HH`, and of "other" characters (beyond ASCII, neither ISO control nor space).
    A '%' that does not start an escape makes the whole text illegal. */
module JavaUri {
  import opened Text
  import opened Endpoints

  /** The character classes of the three kinds of component. */
  datatype Component = RegName | PathPart | Uric

  predicate IsAlphanum(c: char) {
    'A' <= c <= 'Z' || 'a' <= c <= 'z' || '0' <= c <= '9'
  }

  /** Unreserved characters of RFC 2396: letters, digits and the marks. */
  predicate IsUnreserved(c: char) {
    IsAlphanum(c) || c in "-_.!~*'()"
  }

  /** The characters a component of each kind holds as they are. '%' and '#' are in
      none of them. */
  predicate Allowed(part: Component, c: char) {
    match part
    case RegName => IsUnreserved(c) || c in "$,;:@&=+"
    case PathPart => IsUnreserved(c) || c in ":@&=+$,;/"
    case Uric => IsUnreserved(c) || c in ";/?:@&=+$,[]"
  }

  /** `Character.isISOControl`. */
  predicate IsIsoControl(c: char) {
    c as int <= 0x1F || 0x7F <= c as int <= 0x9F
  }

  /** `Character.isSpaceChar`: the space, line and paragraph separators. */
  predicate IsSpaceChar(c: char) {
    || c as int == 0x20 || c as int == 0xA0 || c as int == 0x1680
    || 0x2000 <= c as int <= 0x200A || c as int == 0x2028 || c as int == 0x2029
    || c as int == 0x202F || c as int == 0x205F || c as int == 0x3000
  }

  /** A character beyond ASCII that a component may hold unescaped. */
  predicate IsOther(c: char) {
    c as int > 128 && !IsSpaceChar(c) && !IsIsoControl(c)
  }

  /** The whole of `s` scans as a component of kind `part`. */
  predicate Legal(part: Component, s: string)
    decreases |s|
  {
    if |s| == 0 then true
    else if s[0] == '%' then |s| >= 3 && IsHex(s[1]) && IsHex(s[2]) && Legal(part, s[3..])
    else (Allowed(part, s[0]) || IsOther(s[0])) && Legal(part, s[1..])
  }

  /** The text after a '?': a query up to the first '#', then, after it, a fragment. */
  predicate SelectorAccepted(s: string) {
    var k := Span(s, "#");
    Legal(Uric, s[..k]) && (k < |s| ==> Legal(Uric, s[k + 1..]))
  }

  /** The text after `<scheme>://`: a non-empty remainder whose authority, path, and
      query and fragment are legal. */
  predicate AcceptsHierarchical(rest: string) {
    var a := Span(rest, "/?#");
    var p := a + Span(rest[a..], "?#");
    && |rest| > 0
    && Legal(RegName, rest[..a])
    && Legal(PathPart, rest[a..p])
    && if p < |rest| && rest[p] == '?' then SelectorAccepted(rest[p + 1..])
       else p == |rest| || Legal(Uric, rest[p + 1..])
  }

  /** `URI.create` accepts an `https://` URL. Only this scheme is modelled: the
      predicate is false for text that does not start with it. */
  predicate Accepts(url: string) {
    StartsWith(url, Scheme) && AcceptsHierarchical(url[|Scheme|..])
  }

  /** The authority `<host>:<port>` of a query-protocol URL is legal. */
  predicate AuthorityAccepted(host: string, port: int) {
    Legal(RegName, host + ":" + IntToString(port))
  }

  /** A host name that ends the authority where the port does: it holds no '/', '?'
      or '#'. */
  predicate IsPlainHost(host: string) {
    '/' !in host && '?' !in host && '#' !in host
  }

  /** Characters a component holds as they are can be skipped at its front. */
  lemma {:induction false} LegalAfterAllowed(part: Component, a: string, b: string)
    requires forall i :: 0 <= i < |a| ==> Allowed(part, a[i])
    ensures Legal(part, a + b) <==> Legal(part, b)
    decreases |a|
  {
    if |a| == 0 {
      assert a + b == b;
    } else {
      assert (a + b)[0] == a[0];
      assert (a + b)[1..] == a[1..] + b;
      LegalAfterAllowed(part, a[1..], b);
    }
  }

  /** A query prefix of allowed characters changes nothing about what is accepted. */
  lemma SelectorAfterAllowed(a: string, b: string)
    requires forall i :: 0 <= i < |a| ==> Allowed(Uric, a[i])
    ensures SelectorAccepted(a + b) <==> SelectorAccepted(b)
  {
    var k := Span(b, "#");
    assert Span(a + b, "#") == |a| + k by {
      assert forall i :: 0 <= i < |a| ==> a[i] !in "#" by {
        forall i | 0 <= i < |a| ensures a[i] !in "#" {
          AllowedIsNotMark(Uric, a[i]);
        }
      }
      SpanAfterFree(a, b, "#");
    }
    assert Legal(Uric, (a + b)[..|a| + k]) <==> Legal(Uric, b[..k]) by {
      assert (a + b)[..|a| + k] == a + b[..k];
      LegalAfterAllowed(Uric, a, b[..k]);
    }
    if k < |b| {
      assert (a + b)[|a| + k + 1..] == b[k + 1..];
    }
  }

  /** No component holds a '#' as it is. */
  lemma AllowedIsNotMark(part: Component, c: char)
    requires Allowed(part, c)
    ensures c !in "#"
  {
  }

  /** The path of every bulk-fetch URL. */
  const GspDirectory := "/sparql/gsp/"

  lemma GspDirectoryFacts()
    ensures GspPath == GspDirectory + "?"
    ensures forall i :: 0 <= i < |GspDirectory| ==> GspDirectory[i] !in "?#"
    ensures Legal(PathPart, GspDirectory)
  {
    assert forall i :: 0 <= i < |GspDirectory| ==> Allowed(PathPart, GspDirectory[i]);
    LegalAfterAllowed(PathPart, GspDirectory, []);
    assert GspDirectory + [] == GspDirectory;
  }

  /** The authority of a plain host ends at the '/' that follows the port. */
  lemma AuthorityIsFree(host: string, port: int)
    requires IsPlainHost(host)
    ensures var auth := host + ":" + IntToString(port);
      forall i :: 0 <= i < |auth| ==> auth[i] !in "/?#"
  {
    var digits := IntToString(port);
    var auth := host + ":" + digits;
    forall i | 0 <= i < |auth|
      ensures auth[i] !in "/?#"
    {
      if i < |host| {
        assert auth[i] == host[i];
      } else if i > |host| {
        assert auth[i] == digits[i - |host| - 1];
        assert IsDigit(digits[i - |host| - 1]) || digits[i - |host| - 1] == '-';
      }
    }
  }

  /** A remainder whose path ends at a '?' is accepted when its authority, its path
      and what follows the '?' are. */
  lemma HierarchicalWithQuery(rest: string, a: nat, p: nat)
    requires a == Span(rest, "/?#") && p == a + Span(rest[a..], "?#")
    requires p < |rest| && rest[p] == '?'
    ensures AcceptsHierarchical(rest)
        <==> Legal(RegName, rest[..a]) && Legal(PathPart, rest[a..p]) && SelectorAccepted(rest[p + 1..])
  {
  }

  /** Where the authority and the path of such a remainder end. */
  lemma PartsSpans(auth: string, dir: string, selector: string)
    requires forall i :: 0 <= i < |auth| ==> auth[i] !in "/?#"
    requires |dir| > 0 && dir[0] == '/'
    requires forall i :: 0 <= i < |dir| ==> dir[i] !in "?#"
    ensures var rest := auth + dir + "?" + selector;
      && Span(rest, "/?#") == |auth|
      && Span(rest[|auth|..], "?#") == |dir|
  {
    var rest := auth + dir + "?" + selector;
    assert Span(rest, "/?#") == |auth| by {
      assert rest == auth + (dir + "?" + selector);
      SpanAfterFree(auth, dir + "?" + selector, "/?#");
      assert (dir + "?" + selector)[0] == '/';
    }
    assert Span(rest[|auth|..], "?#") == |dir| by {
      assert rest[|auth|..] == dir + ("?" + selector);
      SpanAfterFree(dir, "?" + selector, "?#");
      assert ("?" + selector)[0] == '?';
    }
  }

  /** The pieces of such a remainder, cut where its spans end. */
  lemma PartsSlices(auth: string, dir: string, selector: string)
    ensures var rest := auth + dir + "?" + selector;
      && rest[..|auth|] == auth
      && rest[|auth|..|auth| + |dir|] == dir
      && rest[|auth| + |dir|] == '?'
      && rest[|auth| + |dir| + 1..] == selector
  {
  }

  /** A remainder made of a '/'-, '?'- and '#'-free authority, a path starting with
      '/' and free of '?' and '#', then '?' and a selector, splits at those places. */
  lemma HierarchicalParts(auth: string, dir: string, selector: string)
    requires forall i :: 0 <= i < |auth| ==> auth[i] !in "/?#"
    requires |dir| > 0 && dir[0] == '/'
    requires forall i :: 0 <= i < |dir| ==> dir[i] !in "?#"
    ensures AcceptsHierarchical(auth + dir + "?" + selector)
        <==> Legal(RegName, auth) && Legal(PathPart, dir) && SelectorAccepted(selector)
  {
    var rest := auth + dir + "?" + selector;
    var a := |auth|;
    var p := |auth| + |dir|;
    assert a == Span(rest, "/?#") && p == a + Span(rest[a..], "?#") by {
      PartsSpans(auth, dir, selector);
    }
    assert p < |rest| && rest[p] == '?' && rest[..a] == auth && rest[a..p] == dir && rest[p + 1..] == selector by {
      PartsSlices(auth, dir, selector);
    }
    HierarchicalWithQuery(rest, a, p);
  }

  /** A bulk-fetch URL is the scheme followed by the authority, the path, '?' and
      the selector. */
  lemma GspEndpointPieces(endpoints: seq<string>, port: int, selector: string)
    requires |endpoints| > 0
    ensures var url := GspEndpoint(endpoints, port, selector).value;
      && StartsWith(url, Scheme)
      && url[|Scheme|..] == endpoints[0] + ":" + IntToString(port) + GspDirectory + "?" + selector
  {
    var auth := endpoints[0] + ":" + IntToString(port);
    var url := GspEndpoint(endpoints, port, selector).value;
    assert GspPath == GspDirectory + "?";
    assert url == Scheme + (auth + GspDirectory + "?" + selector);
  }

  /** `URI.create` accepts the bulk-fetch URL of a plain host exactly when the
      authority is legal and so are the query and fragment written after the '?'. */
  lemma GspEndpointAccepted(endpoints: seq<string>, port: int, selector: string)
    requires |endpoints| > 0 && IsPlainHost(endpoints[0])
    ensures Accepts(GspEndpoint(endpoints, port, selector).value)
        <==> AuthorityAccepted(endpoints[0], port) && SelectorAccepted(selector)
  {
    GspEndpointPieces(endpoints, port, selector);
    AuthorityIsFree(endpoints[0], port);
    GspDirectoryFacts();
    HierarchicalParts(endpoints[0] + ":" + IntToString(port), GspDirectory, selector);
  }
}
