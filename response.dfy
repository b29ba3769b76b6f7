/**
 * The response side of the framing core: a response is built from the
 * request it answers (status line, the headers the request asks for, the
 * possibly compressed body) and written out as one byte string. Go's gzip
 * writer is the parameter `compress`; only the lengths it produces matter
 * to the framing.
 */
module HttpResponse {
  import opened Outcomes
  import opened Text
  import opened HttpRequest

  const Protocol: string := "HTTP/1.1"
  const ContentType: string := "Content-Type"
  const ContentEncoding: string := "Content-Encoding"
  const Connection: string := "Connection"
  const AcceptEncoding: string := "Accept-Encoding"

  datatype StatusLine = StatusLine(protocol: string, status: string, reason: string)

  datatype ResponseValue = ResponseValue(startLine: StatusLine, headers: map<string, string>, body: string)

  /** A freshly allocated response: zero status line, empty header map, empty body. */
  const Empty: ResponseValue := ResponseValue(StatusLine("", "", ""), map[], "")

  // ------------------------------------------------------------- the builder

  /** The request accepts a gzip body: it has an `Accept-Encoding` field mentioning "gzip". */
  predicate AcceptsGzip(request: RequestValue) {
    AcceptEncoding in request.headers && Contains(request.headers[AcceptEncoding], "gzip")
  }

  /** The request carries a `Connection` field, whatever its value. */
  predicate AsksToClose(request: RequestValue) {
    Connection in request.headers
  }

  /** The names a response to `request` carries: always the type and length, the others on request. */
  function ResponseKeys(request: RequestValue): set<string> {
    {ContentType, ContentLength}
    + (if AcceptsGzip(request) then {ContentEncoding} else {})
    + (if AsksToClose(request) then {Connection} else {})
  }

  /**
   * Response.parseHeaders: a fresh map with the content type and the given
   * length, plus `Content-Encoding` and `Connection` as the request asks.
   * Every value carries one leading space.
   */
  function ResponseHeaders(request: RequestValue, contentType: string, contentLength: string): (h: map<string, string>)
    ensures h.Keys == ResponseKeys(request)
    ensures h[ContentType] == " " + contentType && h[ContentLength] == " " + contentLength
    ensures ContentEncoding in h ==> h[ContentEncoding] == " gzip"
    ensures Connection in h ==> h[Connection] == " close"
  {
    var fixed := map[ContentType := " " + contentType, ContentLength := " " + contentLength];
    var encoded := if AcceptsGzip(request) then fixed[ContentEncoding := " gzip"] else fixed;
    if AsksToClose(request) then encoded[Connection := " close"] else encoded
  }

  /**
   * Response.build: status line, headers for the content's length, then the
   * body; with `Content-Encoding` set, the body is the compressed content and
   * `Content-Length` is rewritten to its length.
   */
  function BuildResponse(request: RequestValue, content: string, contentType: string,
                         status: string, reason: string, compress: string -> string): (r: ResponseValue)
    ensures r.startLine == StatusLine(Protocol, status, reason)
    ensures r.body == if AcceptsGzip(request) then compress(content) else content
    ensures r.headers.Keys == ResponseKeys(request)
    ensures r.headers[ContentType] == " " + contentType
    ensures r.headers[ContentLength] == " " + Itoa(|r.body|)
    ensures ContentEncoding in r.headers ==> r.headers[ContentEncoding] == " gzip"
    ensures Connection in r.headers ==> r.headers[Connection] == " close"
  {
    var headers := ResponseHeaders(request, contentType, Itoa(|content|));
    if ContentEncoding in headers then
      var packed := compress(content);
      ResponseValue(StatusLine(Protocol, status, reason), headers[ContentLength := " " + Itoa(|packed|)], packed)
    else
      ResponseValue(StatusLine(Protocol, status, reason), headers, content)
  }

  /**
   * The length a built response announces is the length of the body it
   * carries: a reader that trims the `Content-Length` value and converts it
   * gets exactly the number of body bytes, compressed or not.
   */
  lemma LengthAnnounced(request: RequestValue, content: string, contentType: string,
                        status: string, reason: string, compress: string -> string)
    requires |BuildResponse(request, content, contentType, status, reason, compress).body| <= MaxInt
    ensures var r := BuildResponse(request, content, contentType, status, reason, compress);
            Atoi(TrimSpace(r.headers[ContentLength])) == Some(|r.body|)
  {
    var n := |BuildResponse(request, content, contentType, status, reason, compress).body|;
    ItoaTrimmed(n);
    TrimSpaceLeadingBlank(Itoa(n));
    ItoaRoundTrip(n);
  }

  // ---------------------------------------------------------- serialization

  /** The status line on the wire. */
  function StatusText(s: StatusLine): (t: string)
    ensures HasPrefix(t, s.protocol + " ")
    ensures |t| >= 2 && t[|t| - 2..] == CRLF
  {
    s.protocol + " " + s.status + " " + s.reason + CRLF
  }

  /** One header on the wire: name, colon, space, the value (with its own leading space), CRLF. */
  function FieldLine(name: string, value: string): (t: string)
    ensures HasPrefix(t, name + ": ")
    ensures |t| == |name| + |value| + 4 && t[|t| - 2..] == CRLF
  {
    name + ": " + value + CRLF
  }

  /** The header lines for the names in `order`, in that order. */
  function Lines(h: map<string, string>, order: seq<string>): (lines: seq<string>)
    ensures |lines| == |order|
  {
    if order == [] then []
    else
      var k := order[|order| - 1];
      Lines(h, order[..|order| - 1]) + [FieldLine(k, Get(h, k))]
  }

  /** The line at each position is the header line for the name at that position. */
  lemma {:induction false} LinesAt(h: map<string, string>, order: seq<string>, i: int)
    requires 0 <= i < |order|
    ensures Lines(h, order)[i] == FieldLine(order[i], Get(h, order[i]))
    decreases |order|
  {
    if i < |order| - 1 {
      var init := order[..|order| - 1];
      LinesAt(h, init, i);
      assert init[i] == order[i];
    }
  }

  /** The header lines of a concatenation of name lists. */
  lemma {:induction false} LinesAppend(h: map<string, string>, a: seq<string>, b: seq<string>)
    ensures Lines(h, a + b) == Lines(h, a) + Lines(h, b)
    decreases |b|
  {
    if b == [] {
      assert a + b == a;
    } else {
      var b' := b[..|b| - 1];
      assert (a + b)[..|a + b| - 1] == a + b';
      LinesAppend(h, a, b');
    }
  }

  /** Strings written one after another. */
  function Concat(parts: seq<string>): string {
    if parts == [] then "" else Concat(parts[..|parts| - 1]) + parts[|parts| - 1]
  }

  /** `order` lists every name of the key set exactly once. */
  ghost predicate IsOrdering(order: seq<string>, keys: set<string>) {
    multiset(order) == multiset(keys)
  }

  /** The bytes of a response whose headers are written in `order`. */
  function Serialize(r: ResponseValue, order: seq<string>): (wire: string)
    ensures |wire| == |StatusText(r.startLine)| + |Concat(Lines(r.headers, order))| + 2 + |r.body|
  {
    StatusText(r.startLine) + Concat(Lines(r.headers, order)) + CRLF + r.body
  }

  /** Dropping one element of a sequence drops one occurrence from its multiset. */
  lemma Without<T>(s: seq<T>, i: int)
    requires 0 <= i < |s|
    ensures multiset(s[..i] + s[i + 1..]) == multiset(s) - multiset{s[i]}
  {
    assert s == s[..i] + [s[i]] + s[i + 1..];
  }

  lemma ConcatAppend(a: seq<string>, b: seq<string>)
    ensures Concat(a + b) == Concat(a) + Concat(b)
    decreases |b|
  {
    if b == [] {
      assert a + b == a;
    } else {
      var b' := b[..|b| - 1];
      assert (a + b)[..|a + b| - 1] == a + b';
      ConcatAppend(a, b');
    }
  }

  lemma ConcatLength(a: seq<string>, b: seq<string>)
    requires multiset(a) == multiset(b)
    ensures |Concat(a)| == |Concat(b)|
    decreases |a|
  {
    if a != [] {
      var x := a[|a| - 1];
      assert a == a[..|a| - 1] + [x];
      assert x in multiset(b);
      var i :| 0 <= i < |b| && b[i] == x;
      assert b == b[..i] + [x] + b[i + 1..];
      var rest := b[..i] + b[i + 1..];
      Without(b, i);
      Without(a, |a| - 1);
      assert a[|a| - 1 + 1..] == [];
      ConcatLength(a[..|a| - 1], rest);
      ConcatAppend(b[..i] + [x], b[i + 1..]);
      ConcatAppend(b[..i], [x]);
      ConcatAppend(b[..i], b[i + 1..]);
      assert [x][..0] == [];
    }
  }

  /** Leaving one name out of the list leaves its header line out of the lines. */
  lemma LinesWithout(h: map<string, string>, o: seq<string>, i: int)
    requires 0 <= i < |o|
    ensures var line := FieldLine(o[i], Get(h, o[i]));
            && line in multiset(Lines(h, o))
            && multiset(Lines(h, o[..i] + o[i + 1..])) == multiset(Lines(h, o)) - multiset{line}
  {
    var front, back := o[..i], o[i + 1..];
    assert o == front + [o[i]] + back;
    LinesAppend(h, front + [o[i]], back);
    LinesAppend(h, front, [o[i]]);
    LinesAppend(h, front, back);
    assert [o[i]][..0] == [];
  }

  /** Header names that are a permutation of each other give header lines that are one too. */
  lemma {:induction false} LinesPermuted(h: map<string, string>, o1: seq<string>, o2: seq<string>)
    requires multiset(o1) == multiset(o2)
    ensures multiset(Lines(h, o1)) == multiset(Lines(h, o2))
    decreases |o1|
  {
    if o1 != [] {
      var n := |o1| - 1;
      var x := o1[n];
      assert x in multiset(o2);
      var i :| 0 <= i < |o2| && o2[i] == x;
      Without(o2, i);
      Without(o1, n);
      assert o1[..n] + o1[n + 1..] == o1[..n];
      LinesPermuted(h, o1[..n], o2[..i] + o2[i + 1..]);
      LinesWithout(h, o1, n);
      LinesWithout(h, o2, i);
      Restore(multiset(Lines(h, o1)), FieldLine(x, Get(h, x)));
      Restore(multiset(Lines(h, o2)), FieldLine(x, Get(h, x)));
    }
  }

  /** Taking an element out of a set takes exactly that one out of its multiset. */
  lemma Pick<T>(s: set<T>, x: T)
    requires x in s
    ensures multiset(s) == multiset(s - {x}) + multiset{x}
  {
  }

  /** Taking one occurrence out of a multiset and putting it back changes nothing. */
  lemma Restore<T>(m: multiset<T>, x: T)
    requires x in m
    ensures m == (m - multiset{x}) + multiset{x}
  {
  }

  /**
   * The bytes of a response: its status line first, then one header line per
   * header, then a blank line and the body exactly as built; the length is
   * the sum of those parts.
   */
  lemma SerializeShape(r: ResponseValue, order: seq<string>)
    requires IsOrdering(order, r.headers.Keys)
    ensures forall k :: k in order ==> k in r.headers
    ensures forall k :: k in r.headers ==> multiset(order)[k] == 1
    ensures |Lines(r.headers, order)| == |r.headers|
    ensures forall k :: k in r.headers ==> FieldLine(k, r.headers[k]) in multiset(Lines(r.headers, order))
    ensures var wire := Serialize(r, order);
            var block := Concat(Lines(r.headers, order));
            && wire[..|StatusText(r.startLine)|] == StatusText(r.startLine)
            && wire[|wire| - |r.body| - 2..] == CRLF + r.body
            && |wire| == |StatusText(r.startLine)| + |block| + 2 + |r.body|
  {
    OrderingCovers(order, r.headers.Keys);
    LinesCover(r.headers, order);
    Framed(StatusText(r.startLine), Concat(Lines(r.headers, order)), r.body);
  }

  /** An ordering of a key set names only keys, each exactly once, and is as long as the set is large. */
  lemma OrderingCovers(order: seq<string>, keys: set<string>)
    requires IsOrdering(order, keys)
    ensures forall k :: k in order ==> k in keys
    ensures forall k :: k in keys ==> multiset(order)[k] == 1
    ensures |order| == |keys|
  {
    forall k | k in order
      ensures k in keys
    {
      assert k in multiset(order);
    }
    assert |order| == |multiset(order)| == |multiset(keys)|;
  }

  /** Written in an ordering of its names, a header map yields the line of each of its headers. */
  lemma LinesCover(h: map<string, string>, order: seq<string>)
    requires IsOrdering(order, h.Keys)
    ensures forall k :: k in h ==> FieldLine(k, h[k]) in multiset(Lines(h, order))
  {
    forall k | k in h
      ensures FieldLine(k, h[k]) in multiset(Lines(h, order))
    {
      assert k in multiset(order);
      var i :| 0 <= i < |order| && order[i] == k;
      LinesWithout(h, order, i);
    }
  }

  /** The head, the middle and the tail of `head + middle + CRLF + tail`. */
  lemma Framed(head: string, middle: string, tail: string)
    ensures var s := head + middle + CRLF + tail;
            && s[..|head|] == head
            && s[|s| - |tail| - 2..] == CRLF + tail
            && |s| == |head| + |middle| + 2 + |tail|
  {
    var s := head + middle + CRLF + tail;
    assert s == head + (middle + CRLF + tail);
    assert s == head + middle + (CRLF + tail);
  }

  /**
   * Go visits a map in an unspecified order; whatever order two writes of
   * the same response take, they carry the same header lines, only
   * rearranged, and the same number of bytes (the status line before them
   * and the blank line and body after them are fixed by SerializeShape).
   */
  lemma SerializationsAgree(r: ResponseValue, o1: seq<string>, o2: seq<string>)
    requires IsOrdering(o1, r.headers.Keys) && IsOrdering(o2, r.headers.Keys)
    ensures multiset(Lines(r.headers, o1)) == multiset(Lines(r.headers, o2))
    ensures |Serialize(r, o1)| == |Serialize(r, o2)|
  {
    LinesPermuted(r.headers, o1, o2);
    ConcatLength(Lines(r.headers, o1), Lines(r.headers, o2));
  }

  // ------------------------------------------------------------- the object

  /** The mutable response the connection handler builds and writes. */
  class Response {
    var startLine: StatusLine
    var headers: map<string, string>
    var body: string

    /** The response as a value. */
    function Value(): ResponseValue
      reads this
    {
      ResponseValue(startLine, headers, body)
    }

    /** A response with an empty header map, as the handler allocates it. */
    constructor ()
      ensures Value() == Empty
    {
      startLine := StatusLine("", "", "");
      headers := map[];
      body := "";
    }

    /** Sets an HTTP/1.1 status line with the given code and reason. */
    method ParseStartLine(status: string, reason: string)
      modifies this`startLine
      ensures startLine == StatusLine(Protocol, status, reason)
    {
      startLine := StatusLine(Protocol, status, reason);
    }

    /** Replaces the header map with the headers a response to `request` carries. */
    method ParseHeaders(request: RequestValue, contentType: string, contentLength: string)
      modifies this`headers
      ensures headers == ResponseHeaders(request, contentType, contentLength)
    {
      headers := map[ContentType := " " + contentType, ContentLength := " " + contentLength];
      if AcceptEncoding in request.headers && Contains(request.headers[AcceptEncoding], "gzip") {
        headers := headers[ContentEncoding := " gzip"];
      }
      if Connection in request.headers {
        headers := headers[Connection := " close"];
      }
    }

    /** Stores the content as the body, compressed when `Content-Encoding` is set, and then fixes the length. */
    method ParseBody(content: string, compress: string -> string)
      modifies this`headers, this`body
      ensures ContentEncoding in old(headers) ==>
                body == compress(content) && headers == old(headers)[ContentLength := " " + Itoa(|body|)]
      ensures ContentEncoding !in old(headers) ==> body == content && headers == old(headers)
    {
      if ContentEncoding in headers {
        var packed := compress(content);
        headers := headers[ContentLength := " " + Itoa(|packed|)];
        body := packed;
        return;
      }
      body := content;
    }

    /** Response.build: status line, headers for the content's length, body. */
    method Build(request: RequestValue, content: string, contentType: string,
                 status: string, reason: string, compress: string -> string)
      modifies this
      ensures Value() == BuildResponse(request, content, contentType, status, reason, compress)
    {
      ParseStartLine(status, reason);
      ParseHeaders(request, contentType, Itoa(|content|));
      ParseBody(content, compress);
    }
  }

  /**
   * Response.Bytes (a method on a copy of the response): the status line,
   * one line per header in the order the map is visited, a blank line, the
   * body. The visiting order is chosen arbitrarily and returned as a ghost.
   */
  method Bytes(r: ResponseValue) returns (wire: string, ghost order: seq<string>)
    ensures IsOrdering(order, r.headers.Keys)
    ensures wire == Serialize(r, order)
    ensures HasPrefix(wire, StatusText(r.startLine))
    ensures |wire| >= |r.body| + 2 && wire[|wire| - |r.body| - 2..] == CRLF + r.body
  {
    var head;
    head, order := HeaderBlock(r);
    wire := head + CRLF + r.body;
    SerializeEnds(r, order);
  }

  /** The status line and the header lines, one per name, in the order the map is visited. */
  method HeaderBlock(r: ResponseValue) returns (head: string, ghost order: seq<string>)
    ensures IsOrdering(order, r.headers.Keys)
    ensures head == StatusText(r.startLine) + Concat(Lines(r.headers, order))
  {
    head := StatusText(r.startLine);
    order := [];
    var remaining := r.headers.Keys;
    while remaining != {}
      invariant remaining <= r.headers.Keys
      invariant multiset(order) + multiset(remaining) == multiset(r.headers.Keys)
      invariant head == StatusText(r.startLine) + Concat(Lines(r.headers, order))
      decreases |remaining|
    {
      var k :| k in remaining;
      LinesAppend(r.headers, order, [k]);
      head := head + FieldLine(k, r.headers[k]);
      order := order + [k];
      Pick(remaining, k);
      remaining := remaining - {k};
    }
  }

  /** Any serialization begins with the status line and ends with the blank line and the body. */
  lemma SerializeEnds(r: ResponseValue, order: seq<string>)
    ensures var wire := Serialize(r, order);
            && HasPrefix(wire, StatusText(r.startLine))
            && |wire| >= |r.body| + 2 && wire[|wire| - |r.body| - 2..] == CRLF + r.body
  {
    Framed(StatusText(r.startLine), Concat(Lines(r.headers, order)), r.body);
  }
}
