/**
 * The request side of the framing core: a request is cut out of one read
 * buffer by its start line, its header block and its body. `ParseRequest`
 * is the specification; the `Request` class does the same work step by step,
 * as the Go methods do, filling its fields in place.
 */
module HttpRequest {
  import opened Outcomes
  import opened Text

  const CRLF: string := "\r\n"
  const BlankLine: string := "\r\n\r\n"
  const ContentLength: string := "Content-Length"

  datatype RequestLine = RequestLine(verb: string, target: string, protocol: string)

  datatype RequestValue = RequestValue(startLine: RequestLine, headers: map<string, string>, body: string)

  /** A freshly allocated request: zero start line, empty header map, empty body. */
  const Blank: RequestValue := RequestValue(RequestLine("", "", ""), map[], "")

  /** Go's `m[k]` on a map of strings: the value, or "" when `k` is missing. */
  function Get(m: map<string, string>, k: string): string {
    if k in m then m[k] else ""
  }

  // ------------------------------------------------------------ header block

  /**
   * The header lines: the text from just after the first CRLF up to the last
   * blank line, split at each CRLF. Slicing panics when the last blank line
   * starts before the end of the first CRLF (or there is none).
   */
  function HeaderLines(data: string): (r: Result<seq<string>>)
    ensures r.Panic? ==> r.fault == HeaderSlice
    ensures r.Ok? ==> var start := IndexOf(data, CRLF) + 2;
                      var end := LastIndexOf(data, BlankLine);
                      && 0 <= start <= end
                      && Join(r.value, CRLF) == data[start..end]
                      && forall k :: 0 <= k < |r.value| ==> Free(r.value[k], CRLF)
  {
    var start := IndexOf(data, CRLF) + 2;
    var end := LastIndexOf(data, BlankLine);
    if 0 <= start <= end <= |data| then Ok(Split(data[start..end], CRLF)) else Panic(HeaderSlice)
  }

  /** The field name of a header line: the text before its first ':', if it has one. */
  function FieldName(line: string): Option<string> {
    match Cut(line, ':')
    case None => None
    case Some((name, _)) => Some(name)
  }

  /** The field value of a header line: the text after its first ':', trimmed. */
  function FieldValue(line: string): string
    requires ':' in line
  {
    TrimSpace(Cut(line, ':').value.1)
  }

  /** One pass of the header loop: a line with a ':' sets its field; any other line is skipped. */
  function AddField(h: map<string, string>, line: string): (r: map<string, string>)
    ensures FieldName(line).None? ==> r == h
    ensures FieldName(line).Some? ==>
              var name := FieldName(line).value;
              && name in r && r[name] == FieldValue(line)
              && (forall k :: k != name ==> (k in r <==> k in h))
              && (forall k :: k != name && k in h ==> r[k] == h[k])
  {
    match FieldName(line)
    case None => h
    case Some(name) => h[name := FieldValue(line)]
  }

  /** The header loop over `lines`, left to right. */
  function AddFields(h: map<string, string>, lines: seq<string>): (r: map<string, string>)
    ensures h.Keys <= r.Keys
    ensures (forall i :: 0 <= i < |lines| ==> FieldName(lines[i]).None?) ==> r == h
    decreases |lines|
  {
    if lines == [] then h else AddField(AddFields(h, lines[..|lines| - 1]), lines[|lines| - 1])
  }

  /** One more line through the header loop. */
  lemma AddFieldsStep(h: map<string, string>, lines: seq<string>, i: int)
    requires 0 <= i < |lines|
    ensures AddFields(h, lines[..i + 1]) == AddField(AddFields(h, lines[..i]), lines[i])
  {
    assert lines[..i + 1][..i] == lines[..i];
  }

  /** The index of the last line among `lines` that names field `name`, or -1. */
  function LastField(lines: seq<string>, name: string): (j: int)
    ensures -1 <= j < |lines|
    ensures j >= 0 ==> FieldName(lines[j]) == Some(name)
    ensures forall k :: j < k < |lines| ==> FieldName(lines[k]) != Some(name)
  {
    if lines == [] then -1
    else if FieldName(lines[|lines| - 1]) == Some(name) then |lines| - 1
    else
      var init := lines[..|lines| - 1];
      assert forall k :: 0 <= k < |init| ==> init[k] == lines[k];
      LastField(init, name)
  }

  /**
   * What the header loop leaves under `name`: the trimmed value of the last
   * line naming it, whatever came before; when no line names it, whatever
   * the map held before.
   */
  lemma {:induction false} AddFieldsLookup(h: map<string, string>, lines: seq<string>, name: string)
    ensures var r := AddFields(h, lines);
            var j := LastField(lines, name);
            && (j >= 0 ==> name in r && r[name] == FieldValue(lines[j]))
            && (j < 0 ==> (name in r <==> name in h) && (name in h ==> r[name] == h[name]))
  {
    if lines != [] {
      var init := lines[..|lines| - 1];
      AddFieldsLookup(h, init, name);
      if FieldName(lines[|lines| - 1]) != Some(name) {
        assert LastField(lines, name) == LastField(init, name);
        forall k | LastField(init, name) < k < |init|
          ensures FieldName(init[k]) != Some(name)
        {
          assert init[k] == lines[k];
        }
      }
    }
  }

  /** A name ends up in the header map exactly when it was there before or some line with a ':' names it. */
  lemma AddFieldsKeys(h: map<string, string>, lines: seq<string>, name: string)
    ensures name in AddFields(h, lines) <==>
              name in h || exists i :: 0 <= i < |lines| && FieldName(lines[i]) == Some(name)
  {
    AddFieldsLookup(h, lines, name);
  }

  // -------------------------------------------------------------- start line

  /**
   * The start line: the text before the first CRLF, split at single spaces;
   * the first three segments are the method, target and protocol.
   */
  function StartLine(data: string): (r: Result<RequestLine>)
    ensures r == Panic(StartLineSlice) <==> IndexOf(data, CRLF) < 0
    ensures r.Panic? ==> r.fault == StartLineSlice || r.fault == StartLineIndex
    ensures r.Ok? ==> Free(r.value.verb, " ") && Free(r.value.target, " ") && Free(r.value.protocol, " ")
  {
    var i := IndexOf(data, CRLF);
    if i < 0 then Panic(StartLineSlice)
    else
      var segments := Split(data[..i], " ");
      if |segments| < 3 then Panic(StartLineIndex)
      else Ok(RequestLine(segments[0], segments[1], segments[2]))
  }

  /** The start line is read exactly when the text before the first CRLF holds at least two spaces. */
  lemma StartLineAccepts(data: string)
    ensures StartLine(data).Ok? <==>
              IndexOf(data, CRLF) >= 0 && exists a, b :: 0 <= a < b < IndexOf(data, CRLF) && data[a] == ' ' && data[b] == ' '
  {
    var i := IndexOf(data, CRLF);
    if i >= 0 {
      SplitsThree(data[..i], ' ');
    }
  }

  /**
   * A parsed start line is what the buffer begins with: method, space,
   * target, space, protocol, and then either a further space or the first
   * CRLF. Method and target hold no space; nor does the protocol.
   */
  lemma StartLineShape(data: string)
    requires StartLine(data).Ok?
    ensures var l := StartLine(data).value;
            var n := |l.verb| + |l.target| + |l.protocol| + 2;
            && Free(l.verb, " ") && Free(l.target, " ") && Free(l.protocol, " ")
            && n <= IndexOf(data, CRLF)
            && data[..n] == l.verb + " " + l.target + " " + l.protocol
            && (n == IndexOf(data, CRLF) || data[n] == ' ')
  {
    var i := IndexOf(data, CRLF);
    var segments := Split(data[..i], " ");
    JoinFront3(segments, " ");
    var n := |segments[0]| + |segments[1]| + |segments[2]| + 2;
    assert Free(segments[0], " ") && Free(segments[1], " ") && Free(segments[2], " ");
    assert data[..i][..n] == data[..n];
    if n < i {
      assert data[..i][n..n + 1] == [data[n]];
    }
  }

  /** The first three pieces of a join, and what follows them. */
  lemma JoinFront3(parts: seq<string>, sep: string)
    requires |parts| >= 3 && |sep| == 1
    ensures var n := |parts[0]| + |parts[1]| + |parts[2]| + 2;
            var s := Join(parts, sep);
            && n <= |s|
            && s[..n] == parts[0] + sep + parts[1] + sep + parts[2]
            && (n == |s| || s[n..n + 1] == sep)
  {
    var s := Join(parts, sep);
    var tail := Join(parts[1..], sep);
    assert s == parts[0] + sep + tail;
    var tail2 := Join(parts[2..], sep);
    assert tail == parts[1] + sep + tail2;
    if |parts| > 3 {
      assert tail2 == parts[2] + sep + Join(parts[3..], sep);
    }
  }

  // -------------------------------------------------------------------- body

  /**
   * The body: `Content-Length` bytes from just after the last blank line. A
   * missing or non-numeric `Content-Length` leaves the body as it was; a
   * negative one, or one reaching past the buffer, panics.
   */
  function Body(prior: string, headers: map<string, string>, data: string): (r: Result<string>)
    ensures Atoi(Get(headers, ContentLength)).None? ==> r == Ok(prior)
    ensures r.Ok? && Atoi(Get(headers, ContentLength)).Some? ==> |r.value| == Atoi(Get(headers, ContentLength)).value
    ensures r.Panic? ==> r.fault == BodySlice
  {
    var start := LastIndexOf(data, BlankLine) + 4;
    match Atoi(Get(headers, ContentLength))
    case None => Ok(prior)
    case Some(n) =>
      if 0 <= start <= start + n <= |data| then Ok(data[start..start + n]) else Panic(BodySlice)
  }

  // ----------------------------------------------------------------- request

  /** Request.build on a request already holding `r`: headers first, then the start line, then the body. */
  function ParseOnto(r: RequestValue, data: string): (p: Result<RequestValue>)
    ensures HeaderLines(data).Panic? ==> p == Panic(HeaderSlice)
    ensures HeaderLines(data).Ok? && StartLine(data).Panic? ==> p == Panic(StartLine(data).fault)
    ensures p.Ok? ==> Ok(p.value.startLine) == StartLine(data) && r.headers.Keys <= p.value.headers.Keys
  {
    var lines :- HeaderLines(data);
    var headers := AddFields(r.headers, lines);
    var line :- StartLine(data);
    var body :- Body(r.body, headers, data);
    Ok(RequestValue(line, headers, body))
  }

  /** A request parsed from one read buffer into a fresh Request. */
  function ParseRequest(data: string): (r: Result<RequestValue>)
    ensures r.Ok? ==> Ok(r.value.startLine) == StartLine(data)
    ensures r.Ok? ==> r.value.body == "" || Atoi(Get(r.value.headers, ContentLength)).Some?
  {
    ParseOnto(Blank, data)
  }

  /**
   * The header block can be cut out exactly when some blank line begins after
   * the first line's CRLF; a request without a single header line (its first
   * CRLF is its only blank line) makes the parser panic.
   */
  lemma {:induction false} HeaderLinesOk(data: string)
    ensures HeaderLines(data).Ok? <==> exists b :: At(data, BlankLine, b) && b > IndexOf(data, CRLF)
  {
    var i := IndexOf(data, CRLF);
    var e := LastIndexOf(data, BlankLine);
    if HeaderLines(data).Ok? {
      assert At(data, BlankLine, e) && e > i;
    }
    if exists b :: At(data, BlankLine, b) && b > i {
      var b :| At(data, BlankLine, b) && b > i;
      assert b <= e;
      // the last blank line starts with a CRLF, so the first CRLF is no later;
      // and it cannot start one byte after the first CRLF, which holds an LF there
      assert At(data, BlankLine, e);
      assert data[e..e + 4][..2] == CRLF;
      assert At(data, CRLF, e);
      assert 0 <= i <= e;
      assert data[e..e + 4][0] == data[e];
      assert data[i..i + 2][1] == data[i + 1];
      assert e != i + 1;
      assert 0 <= i + 2 <= e <= |data|;
    }
  }

  /**
   * A request with no header line at all — a start line directly followed by
   * the blank line, then bytes holding no CR, such as the zero padding of the
   * read buffer — panics before anything is routed.
   */
  lemma NoHeaderLinesPanic(line: string, rest: string)
    requires '\r' !in line && '\r' !in rest
    ensures ParseRequest(line + BlankLine + rest) == Panic(HeaderSlice)
  {
    var data := line + BlankLine + rest;
    assert data == line + (BlankLine + rest);
    AtShift(line, BlankLine + rest, CRLF, 0);
    AtFront(BlankLine, rest, CRLF, 0);
    forall j | 0 <= j < |line|
      ensures !At(data, CRLF, j)
    {
      assert data[j..j + 2][0] == line[j];
    }
    assert IndexOf(data, CRLF) == |line|;
    forall b | b > |line|
      ensures !At(data, BlankLine, b)
    {
      if b + 4 <= |data| {
        assert data[b..b + 4][0] == data[b] && data[b..b + 4][2] == data[b + 2];
      }
    }
    HeaderLinesOk(data);
  }

  /**
   * A parsed request's headers hold, under each name, the trimmed value of
   * the last header line naming it; a name no header line carries is absent.
   */
  lemma ParsedHeaders(data: string, name: string)
    requires ParseRequest(data).Ok?
    ensures var r := ParseRequest(data).value;
            var lines := HeaderLines(data).value;
            var j := LastField(lines, name);
            && (j >= 0 ==> name in r.headers && r.headers[name] == FieldValue(lines[j]))
            && (j < 0 ==> name !in r.headers)
  {
    AddFieldsLookup(map[], HeaderLines(data).value, name);
  }

  /**
   * The body of a parsed request: when `Content-Length` reads as `n` it is
   * the `n` bytes after the last blank line, so exactly `n` long whatever
   * follows in the buffer; otherwise it is empty.
   */
  lemma ParsedBody(data: string)
    requires ParseRequest(data).Ok?
    ensures var r := ParseRequest(data).value;
            var start := LastIndexOf(data, BlankLine) + 4;
            match Atoi(Get(r.headers, ContentLength))
            case None => r.body == ""
            case Some(n) => 0 <= n && start + n <= |data| && |r.body| == n && r.body == data[start..start + n]
  {
    assert ParseRequest(data) == ParseOnto(Blank, data);
    ParseOntoOk(Blank, data);
    var headers := AddFields(Blank.headers, HeaderLines(data).value);
    var r := ParseRequest(data).value;
    assert r.headers == headers && r.body == Body(Blank.body, headers, data).value;
    BodyOk(Blank.body, headers, data);
  }

  /** A parse that does not panic is built from the header lines, the start line and the body, each of which did not panic. */
  lemma ParseOntoOk(r: RequestValue, data: string)
    requires ParseOnto(r, data).Ok?
    ensures HeaderLines(data).Ok? && StartLine(data).Ok?
    ensures var headers := AddFields(r.headers, HeaderLines(data).value);
            && Body(r.body, headers, data).Ok?
            && ParseOnto(r, data).value == RequestValue(StartLine(data).value, headers, Body(r.body, headers, data).value)
  {
  }

  /** A body that does not panic is the prior body, or the `n` bytes after the last blank line. */
  lemma BodyOk(prior: string, headers: map<string, string>, data: string)
    requires Body(prior, headers, data).Ok?
    ensures var start := LastIndexOf(data, BlankLine) + 4;
            var b := Body(prior, headers, data).value;
            match Atoi(Get(headers, ContentLength))
            case None => b == prior
            case Some(n) => 0 <= n && start + n <= |data| && b == data[start..start + n]
  {
  }

  /**
   * The body panics exactly when `Content-Length` reads as a number that is
   * negative or reaches past the end of the buffer.
   */
  lemma BodyPanics(prior: string, headers: map<string, string>, data: string)
    requires LastIndexOf(data, BlankLine) >= 0
    ensures var start := LastIndexOf(data, BlankLine) + 4;
            Body(prior, headers, data).Panic? <==>
              (Atoi(Get(headers, ContentLength)).Some? &&
               var n := Atoi(Get(headers, ContentLength)).value; n < 0 || start + n > |data|)
  {
  }

  // ------------------------------------------------------------- round trip

  /** A token of the start line: no space, CR or LF. */
  predicate Token(s: string) {
    ' ' !in s && '\r' !in s && '\n' !in s
  }

  /** The text of a request: start line, the header lines joined by CRLF, a blank line, the body. */
  function RequestText(line: RequestLine, fields: seq<string>, body: string): string {
    line.verb + " " + line.target + " " + line.protocol + CRLF + Join(fields, CRLF) + BlankLine + body
  }

  /** What the parser reads as the body length from `fields`. */
  function DeclaredLength(fields: seq<string>): Option<int> {
    Atoi(Get(AddFields(map[], fields), ContentLength))
  }

  /**
   * A request the parser can read back: start-line parts without spaces or
   * line breaks, at least one header line, none holding a CRLF, and a body
   * whose length the fields announce (or an empty body when they announce
   * no usable length).
   */
  ghost predicate Readable(line: RequestLine, fields: seq<string>, body: string) {
    && Token(line.verb) && Token(line.target) && Token(line.protocol)
    && |fields| > 0 && (forall k :: 0 <= k < |fields| ==> Free(fields[k], CRLF))
    && (DeclaredLength(fields) == Some(|body|) || (DeclaredLength(fields).None? && body == ""))
  }

  /**
   * Parsing undoes RequestText: a request written with token start-line parts,
   * at least one header line free of CRLF, and a body announced by its
   * `Content-Length` (or an empty body and no usable `Content-Length`) is read
   * back exactly from the buffer, whatever padding follows, so long as no
   * blank line starts inside the body or the padding.
   */
  lemma ParseRequestText(line: RequestLine, fields: seq<string>, body: string, pad: string)
    requires Readable(line, fields, body)
    requires forall j :: 0 < j ==> !At(BlankLine + body + pad, BlankLine, j)
    ensures ParseRequest(RequestText(line, fields, body) + pad) ==
            Ok(RequestValue(line, AddFields(map[], fields), body))
  {
    TextFraming(line, fields, body, pad);
    TextBody(line, fields, body, pad);
    ParseFromParts(line, fields, body, RequestText(line, fields, body) + pad);
  }

  /** The header lines and start line of a request text, and where its blank line sits. */
  lemma TextFraming(line: RequestLine, fields: seq<string>, body: string, pad: string)
    requires Token(line.verb) && Token(line.target) && Token(line.protocol)
    requires |fields| > 0 && forall k :: 0 <= k < |fields| ==> Free(fields[k], CRLF)
    requires forall j :: 0 < j ==> !At(BlankLine + body + pad, BlankLine, j)
    ensures var data := RequestText(line, fields, body) + pad;
            && HeaderLines(data) == Ok(fields)
            && StartLine(data) == Ok(line)
            && LastIndexOf(data, BlankLine) == |data| - |pad| - |body| - 4
  {
    var sl := line.verb + " " + line.target + " " + line.protocol;
    var head := sl + CRLF + Join(fields, CRLF);
    assert BlankLine + body + pad == BlankLine + (body + pad);
    assert head + BlankLine + body + pad == head + BlankLine + (body + pad);
    StartLineTokens(line);
    FramingOfText(sl, fields, body + pad);
    StartLineOf(head + BlankLine + (body + pad), line);
  }

  /** The body of a request text is the announced number of bytes after its blank line. */
  lemma TextBody(line: RequestLine, fields: seq<string>, body: string, pad: string)
    requires var data := RequestText(line, fields, body) + pad;
             LastIndexOf(data, BlankLine) == |data| - |pad| - |body| - 4
    requires DeclaredLength(fields) == Some(|body|) || (DeclaredLength(fields).None? && body == "")
    ensures Body("", AddFields(map[], fields), RequestText(line, fields, body) + pad) == Ok(body)
  {
    var sl := line.verb + " " + line.target + " " + line.protocol;
    BodyAfter(sl + CRLF + Join(fields, CRLF), body, pad, AddFields(map[], fields));
  }

  /** Request.build succeeds with the three parts when each stage does. */
  lemma ParseFromParts(line: RequestLine, fields: seq<string>, body: string, data: string)
    requires HeaderLines(data) == Ok(fields)
    requires StartLine(data) == Ok(line)
    requires Body("", AddFields(map[], fields), data) == Ok(body)
    ensures ParseRequest(data) == Ok(RequestValue(line, AddFields(map[], fields), body))
  {
  }

  lemma StartLineOf(data: string, line: RequestLine)
    requires var sl := line.verb + " " + line.target + " " + line.protocol;
             IndexOf(data, CRLF) == |sl| && data[..|sl|] == sl && Split(sl, " ") == [line.verb, line.target, line.protocol]
    ensures StartLine(data) == Ok(line)
  {
  }

  /** The framing of a request text: where its start line ends, where its header block ends, and the header lines. */
  lemma FramingOfText(sl: string, fields: seq<string>, rest: string)
    requires '\r' !in sl
    requires |fields| > 0 && forall k :: 0 <= k < |fields| ==> Free(fields[k], CRLF)
    requires forall j :: 0 < j ==> !At(BlankLine + rest, BlankLine, j)
    ensures var head := sl + CRLF + Join(fields, CRLF);
            var data := head + BlankLine + rest;
            && IndexOf(data, CRLF) == |sl|
            && data[..|sl|] == sl
            && LastIndexOf(data, BlankLine) == |head|
            && HeaderLines(data) == Ok(fields)
  {
    var block := Join(fields, CRLF);
    var head := sl + CRLF + block;
    var tail := BlankLine + rest;
    var data := head + tail;
    assert data == head + BlankLine + rest;
    assert data == sl + CRLF + (block + tail);
    FirstLineEnd(sl, block + tail);
    assert data[..|sl|] == sl;
    AtFront(BlankLine, rest, BlankLine, 0);
    LastBlankLine(head, tail);
    assert data[|sl| + 2..|head|] == block;
    SplitJoin(fields, CRLF);
  }

  /** With the last blank line at the end of `head`, the announced number of bytes after it is the body. */
  lemma BodyAfter(head: string, body: string, pad: string, headers: map<string, string>)
    requires LastIndexOf(head + BlankLine + body + pad, BlankLine) == |head|
    requires Atoi(Get(headers, ContentLength)) == Some(|body|) || (Atoi(Get(headers, ContentLength)).None? && body == "")
    ensures Body("", headers, head + BlankLine + body + pad) == Ok(body)
  {
    var data := head + BlankLine + body + pad;
    assert data[|head| + 4..|head| + 4 + |body|] == body;
  }

  /** The first CRLF of a buffer is the one after a first line holding no CR. */
  lemma FirstLineEnd(first: string, rest: string)
    requires '\r' !in first
    ensures IndexOf(first + CRLF + rest, CRLF) == |first|
  {
    var data := first + CRLF + rest;
    assert data == first + (CRLF + rest);
    AtShift(first, CRLF + rest, CRLF, 0);
    AtFront(CRLF, rest, CRLF, 0);
    forall j | 0 <= j < |first|
      ensures !At(data, CRLF, j)
    {
      assert data[j..j + 2][0] == first[j];
    }
  }

  /** The last blank line of a buffer is the one starting its tail when the tail has no later one. */
  lemma LastBlankLine(head: string, tail: string)
    requires At(tail, BlankLine, 0)
    requires forall j :: 0 < j ==> !At(tail, BlankLine, j)
    ensures LastIndexOf(head + tail, BlankLine) == |head|
  {
    AtShift(head, tail, BlankLine, 0);
    forall j | j > |head|
      ensures !At(head + tail, BlankLine, j)
    {
      AtShift(head, tail, BlankLine, j - |head|);
    }
  }

  /** A token holds no space. */
  lemma TokenFree(s: string)
    requires Token(s)
    ensures Free(s, " ")
  {
    forall j
      ensures !At(s, " ", j)
    {
      AtSingle(s, ' ', j);
    }
  }

  /** A start line made of three tokens splits back into them. */
  lemma StartLineTokens(line: RequestLine)
    requires Token(line.verb) && Token(line.target) && Token(line.protocol)
    ensures var sl := line.verb + " " + line.target + " " + line.protocol;
            '\r' !in sl && Split(sl, " ") == [line.verb, line.target, line.protocol]
  {
    var parts := [line.verb, line.target, line.protocol];
    assert parts[1..] == [line.target, line.protocol] && parts[1..][1..] == [line.protocol];
    assert Join(parts[1..][1..], " ") == line.protocol;
    assert Join(parts[1..], " ") == line.target + " " + line.protocol;
    assert Join(parts, " ") == line.verb + " " + line.target + " " + line.protocol;
    TokenFree(line.verb);
    TokenFree(line.target);
    TokenFree(line.protocol);
    SplitJoin(parts, " ");
  }

  // ------------------------------------------------------------ the object

  /** How a step of the parser ended: normally, or in a runtime panic. */
  function Completion<T>(r: Result<T>): Result<()> {
    match r
    case Ok(_) => Ok(())
    case Panic(f) => Panic(f)
  }

  /**
   * The mutable request the connection handler fills in. Each method does
   * the work of the Go method of the same name and reports whether it
   * panicked; after a panic the goroutine, and with it the process, is gone,
   * so the fields are then left unspecified by `Build`.
   */
  class Request {
    var startLine: RequestLine
    var headers: map<string, string>
    var body: string

    /** The request as a value. */
    function Value(): RequestValue
      reads this
    {
      RequestValue(startLine, headers, body)
    }

    /** A request with an empty header map, as the handler allocates it. */
    constructor ()
      ensures Value() == Blank
    {
      startLine := RequestLine("", "", "");
      headers := map[];
      body := "";
    }

    /** Cuts the header block out of `data` and stores each field, later lines overriding earlier ones. */
    method ParseHeaders(data: string) returns (status: Result<()>)
      modifies this`headers
      ensures status == Completion(HeaderLines(data))
      ensures status.Ok? ==> headers == AddFields(old(headers), HeaderLines(data).value)
      ensures status.Panic? ==> headers == old(headers)
    {
      var start := IndexOf(data, CRLF) + 2;
      var end := LastIndexOf(data, BlankLine);
      if !(0 <= start <= end <= |data|) {
        return Panic(HeaderSlice);
      }
      var lines := Split(data[start..end], CRLF);
      assert HeaderLines(data) == Ok(lines);
      for i := 0 to |lines|
        invariant headers == AddFields(old(headers), lines[..i])
      {
        AddFieldsStep(old(headers), lines, i);
        var kv := Cut(lines[i], ':');
        if kv.None? {
          continue;
        }
        var (k, v) := kv.value;
        headers := headers[k := TrimSpace(v)];
      }
      assert lines[..|lines|] == lines;
      status := Ok(());
    }

    /** Splits the first line of `data` into method, target and protocol. */
    method ParseStartLine(data: string) returns (status: Result<()>)
      modifies this`startLine
      ensures status == Completion(StartLine(data))
      ensures status.Ok? ==> startLine == StartLine(data).value
      ensures status.Panic? ==> startLine == old(startLine)
    {
      var i := IndexOf(data, CRLF);
      if i < 0 {
        return Panic(StartLineSlice);
      }
      var segments := Split(data[..i], " ");
      if |segments| < 3 {
        return Panic(StartLineIndex);
      }
      startLine := RequestLine(segments[0], segments[1], segments[2]);
      status := Ok(());
    }

    /** Takes `Content-Length` bytes after the last blank line as the body, when that header is numeric. */
    method ParseBody(data: string) returns (status: Result<()>)
      modifies this`body
      ensures status == Completion(Body(old(body), headers, data))
      ensures status.Ok? ==> body == Body(old(body), headers, data).value
      ensures status.Panic? ==> body == old(body)
    {
      var start := LastIndexOf(data, BlankLine) + 4;
      var n := Atoi(Get(headers, ContentLength));
      if n.None? {
        return Ok(());
      }
      if !(0 <= start <= start + n.value <= |data|) {
        return Panic(BodySlice);
      }
      body := data[start..start + n.value];
      status := Ok(());
    }

    /** Request.build: headers, then start line, then body, stopping at the first panic. */
    method Build(data: string) returns (status: Result<()>)
      modifies this
      ensures status == Completion(ParseOnto(old(Value()), data))
      ensures status.Ok? ==> Value() == ParseOnto(old(Value()), data).value
    {
      ghost var prior := Value();
      status := ParseHeaders(data);
      if status.Panic? {
        return;
      }
      ghost var headers' := AddFields(prior.headers, HeaderLines(data).value);
      assert headers == headers';
      status := ParseStartLine(data);
      if status.Panic? {
        assert ParseOnto(prior, data) == Panic(StartLine(data).fault);
        return;
      }
      status := ParseBody(data);
      assert ParseOnto(prior, data) == (var b :- Body(prior.body, headers', data); Ok(RequestValue(startLine, headers', b)));
    }
  }
}
