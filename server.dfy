/**
 * The connection handler: each read fills a 1024-byte buffer, the buffer is
 * parsed as a request, the target picks a route (first match wins), the
 * route produces what is written back, and the `Connection` header of the
 * response decides whether the loop goes on reading. The socket is a
 * sequence of read events and a list of written strings; the file system is
 * a `Disk` value; the directory given on the command line is a parameter.
 */
module Server {
  import opened Outcomes
  import opened Text
  import opened HttpRequest
  import opened HttpResponse

  const BufferSize: nat := 1024
  const NotFoundText: string := "HTTP/1.1 404 Not Found\r\n\r\n"
  const CreatedText: string := "HTTP/1.1 201 Created\r\n\r\n"
  /** What a failed read gets back: a 404 status line with no line ending. */
  const ReadFailureText: string := "HTTP/1.1 404 Not Found"
  const UserAgentField: string := "User-Agent"

  // -------------------------------------------------------------------- disk

  /**
   * The files under the served directory, by path, and the paths a write to
   * would fail (a missing directory, no permission, ...).
   */
  datatype Disk = Disk(files: map<string, string>, unwritable: set<string>)

  /** os.ReadFile: the contents, or None when the file cannot be read. */
  function ReadFile(disk: Disk, path: string): (r: Option<string>)
    ensures r.Some? <==> path in disk.files
    ensures r.Some? ==> r.value == disk.files[path]
  {
    if path in disk.files then Some(disk.files[path]) else None
  }

  /** os.WriteFile: the disk with the file replaced, or None when the write fails. */
  function WriteFile(disk: Disk, path: string, contents: string): (r: Option<Disk>)
    ensures r.Some? <==> path !in disk.unwritable
    ensures r.Some? ==> ReadFile(r.value, path) == Some(contents)
    ensures r.Some? ==> forall p :: p != path ==> ReadFile(r.value, p) == ReadFile(disk, p)
  {
    if path in disk.unwritable then None else Some(Disk(disk.files[path := contents], disk.unwritable))
  }

  // ----------------------------------------------------------------- routing

  datatype Route =
    | SaveFile(name: string)   // POST under /files
    | LoadFile(name: string)   // any other method under /files
    | UserAgent
    | Echo(text: string)
    | Root
    | NotFound

  /** The target without its leading '/', cut at every '/'. */
  function Segments(target: string): (paths: seq<string>)
    ensures |paths| >= 1
  {
    Split(TrimPrefix(target, "/"), "/")
  }

  /**
   * The route for a start line: a "/files" prefix, then exactly
   * "/user-agent", then a first segment "echo", then exactly "/", else 404.
   * The file and echo routes take the second segment and panic without one.
   */
  function SelectRoute(line: RequestLine): (r: Result<Route>)
    ensures r.Panic? ==> r.fault == PathIndex && |Segments(line.target)| < 2
    ensures r.Panic? ==> HasPrefix(line.target, "/files") || Segments(line.target)[0] == "echo"
    ensures r.Ok? && (r.value.SaveFile? || r.value.LoadFile?) ==>
              && HasPrefix(line.target, "/files") && |Segments(line.target)| >= 2
              && r.value.name == Segments(line.target)[1]
              && (r.value.SaveFile? <==> line.verb == "POST")
    ensures r == Ok(UserAgent) ==> line.target == "/user-agent"
    ensures r.Ok? && r.value.Echo? ==>
              && !HasPrefix(line.target, "/files")
              && |Segments(line.target)| >= 2
              && Segments(line.target)[0] == "echo" && r.value.text == Segments(line.target)[1]
    ensures r == Ok(Root) ==> line.target == "/"
    ensures r == Ok(NotFound) ==>
              && !HasPrefix(line.target, "/files") && line.target != "/user-agent"
              && Segments(line.target)[0] != "echo" && line.target != "/"
  {
    var target := line.target;
    var paths := Segments(target);
    if HasPrefix(target, "/files") then
      if |paths| < 2 then Panic(PathIndex)
      else if line.verb == "POST" then Ok(SaveFile(paths[1]))
      else Ok(LoadFile(paths[1]))
    else if target == "/user-agent" then Ok(UserAgent)
    else if paths[0] == "echo" then
      if |paths| < 2 then Panic(PathIndex) else Ok(Echo(paths[1]))
    else if target == "/" then Ok(Root)
    else Ok(NotFound)
  }

  /**
   * The file rule comes first: any target starting with "/files" is served
   * from the directory (written by a POST, read otherwise) or panics, even
   * when it would also match a later rule.
   */
  lemma FilesFirst(line: RequestLine)
    requires HasPrefix(line.target, "/files")
    ensures var r := SelectRoute(line);
            || r == Panic(PathIndex)
            || (r.Ok? && r.value.SaveFile? && line.verb == "POST")
            || (r.Ok? && r.value.LoadFile? && line.verb != "POST")
  {
  }

  /** "/files" and "/echo" alone have no second segment and make the handler panic. */
  lemma MissingSegmentPanics(verb: string, protocol: string)
    ensures SelectRoute(RequestLine(verb, "/files", protocol)) == Panic(PathIndex)
    ensures SelectRoute(RequestLine(verb, "/echo", protocol)) == Panic(PathIndex)
  {
    assert SelectRoute(RequestLine(verb, "/files", protocol)) == Panic(PathIndex) by {
      assert TrimPrefix("/files", "/") == "files";
      SplitOne("files");
      assert Segments("/files") == ["files"];
      assert HasPrefix("/files", "/files");
    }
    assert SelectRoute(RequestLine(verb, "/echo", protocol)) == Panic(PathIndex) by {
      assert TrimPrefix("/echo", "/") == "echo";
      SplitOne("echo");
      assert Segments("/echo") == ["echo"];
      assert !HasPrefix("/echo", "/files") by {
        assert "/echo"[1] != "/files"[1];
      }
      assert "/echo" != "/user-agent" && "/echo" != "/";
    }
  }

  /** A word without '/' splits into itself. */
  lemma SplitOne(word: string)
    requires '/' !in word
    ensures Split(word, "/") == [word]
  {
    forall j
      ensures !At(word, "/", j)
    {
      AtSingle(word, '/', j);
    }
    SplitJoin([word], "/");
  }

  /** "/echo/<text>", for a text without '/', is answered by echoing the text. */
  lemma {:induction false} EchoReflects(verb: string, text: string, protocol: string)
    requires '/' !in text
    ensures SelectRoute(RequestLine(verb, "/echo/" + text, protocol)) == Ok(Echo(text))
  {
    var target := "/echo/" + text;
    assert TrimPrefix(target, "/") == "echo/" + text;
    forall j
      ensures !At(text, "/", j)
    {
      AtSingle(text, '/', j);
    }
    forall j
      ensures !At("echo", "/", j)
    {
      AtSingle("echo", '/', j);
    }
    assert Join(["echo", text], "/") == "echo/" + text by {
      assert ["echo", text][1..] == [text];
    }
    SplitJoin(["echo", text], "/");
    assert !HasPrefix(target, "/files") by {
      assert target[..6][1] == 'e';
    }
  }

  /** The two fixed targets reach their own routes, whatever the method. */
  lemma FixedTargets(verb: string, protocol: string)
    ensures SelectRoute(RequestLine(verb, "/user-agent", protocol)) == Ok(UserAgent)
    ensures SelectRoute(RequestLine(verb, "/", protocol)) == Ok(Root)
  {
    assert !HasPrefix("/user-agent", "/files") by {
      assert "/user-agent"[..6][1] == 'u';
    }
    assert TrimPrefix("/", "/") == "";
    SplitOne("");
  }

  /** A target that matches none of the rules gets the bare 404, whatever the method. */
  lemma UnmatchedNotFound(line: RequestLine)
    requires !HasPrefix(line.target, "/files") && line.target != "/user-agent"
    requires Segments(line.target)[0] != "echo" && line.target != "/"
    ensures SelectRoute(line) == Ok(NotFound)
  {
  }

  /** For example, "/nonexistent" is answered with the bare 404. */
  lemma NonexistentNotFound(verb: string, protocol: string)
    ensures SelectRoute(RequestLine(verb, "/nonexistent", protocol)) == Ok(NotFound)
  {
    assert !HasPrefix("/nonexistent", "/files") by {
      assert "/nonexistent"[..6][1] == 'n';
    }
    assert TrimPrefix("/nonexistent", "/") == "nonexistent";
    SplitOne("nonexistent");
    UnmatchedNotFound(RequestLine(verb, "/nonexistent", protocol));
  }

  // ----------------------------------------------------------------- replies

  /** One conn.Write: a fixed status text, or a built response, written with `Bytes`. */
  datatype Chunk = Raw(text: string) | Message(response: ResponseValue)

  /** What handling one request does: the writes in order, whether the loop stops, the disk after it. */
  datatype Reply = Reply(chunks: seq<Chunk>, close: bool, disk: Disk)

  /** The close test after a response is built: its `Connection` value, trimmed, is "close". */
  function Closes(response: ResponseValue): (b: bool)
    ensures b ==> Connection in response.headers
  {
    assert LeadingSpace("") == 0;
    TrimSpace(Get(response.headers, Connection)) == "close"
  }

  /** A 200 response to `request` closes the connection exactly when the request has a `Connection` field. */
  lemma CloseIffConnectionField(request: RequestValue, content: string, contentType: string, compress: string -> string)
    ensures Closes(BuildResponse(request, content, contentType, "200", "OK", compress)) <==> AsksToClose(request)
  {
    var r := BuildResponse(request, content, contentType, "200", "OK", compress);
    if AsksToClose(request) {
      assert r.headers[Connection] == " " + "close";
      TrimSpaceLeadingBlank("close");
    } else {
      assert Get(r.headers, Connection) == "";
      assert LeadingSpace("") == 0;
    }
  }

  /**
   * The work of one route, as the handler does it: a POST writes the body to
   * the file and answers 201 (after a bare 404 when the write fails); a read
   * answers 200 with the file (after a bare 404, and with an empty body, when
   * the read fails); user-agent, echo and root answer 200 and close when the
   * response carries `Connection`, echo then writing nothing at all; any
   * other target gets a bare 404 and the connection stays open.
   */
  function Respond(request: RequestValue, route: Route, dir: string, disk: Disk, compress: string -> string): (reply: Reply)
    ensures reply.close ==> route.UserAgent? || route.Echo? || route.Root?
    ensures route.Echo? && reply.close ==> reply.chunks == []
    ensures route.NotFound? ==> reply == Reply([Raw(NotFoundText)], false, disk)
    ensures !route.SaveFile? ==> reply.disk == disk
  {
    match route
    case SaveFile(name) =>
      var stored := WriteFile(disk, dir + "/" + name, request.body);
      if stored.None? then Reply([Raw(NotFoundText), Raw(CreatedText)], false, disk)
      else Reply([Raw(CreatedText)], false, stored.value)
    case LoadFile(name) =>
      var found := ReadFile(disk, dir + "/" + name);
      var content := if found.Some? then found.value else "";
      var response := BuildResponse(request, content, "application/octet-stream", "200", "OK", compress);
      Reply((if found.None? then [Raw(NotFoundText)] else []) + [Message(response)], false, disk)
    case UserAgent =>
      var response := BuildResponse(request, Get(request.headers, UserAgentField), "text/plain", "200", "OK", compress);
      Reply([Message(response)], Closes(response), disk)
    case Echo(text) =>
      var response := BuildResponse(request, text, "text/plain", "200", "OK", compress);
      if Closes(response) then Reply([], true, disk) else Reply([Message(response)], false, disk)
    case Root =>
      var response := BuildResponse(request, "", "", "200", "OK", compress);
      Reply([Message(response)], Closes(response), disk)
    case NotFound =>
      Reply([Raw(NotFoundText)], false, disk)
  }

  /**
   * For the user-agent, echo and root routes the connection closes exactly
   * when the request has a `Connection` field, whatever its value; the
   * file routes and the 404 never close it.
   */
  lemma CloseDecision(request: RequestValue, route: Route, dir: string, disk: Disk, compress: string -> string)
    ensures var reply := Respond(request, route, dir, disk, compress);
            && ((route.UserAgent? || route.Echo? || route.Root?) ==> (reply.close <==> AsksToClose(request)))
            && (route.SaveFile? || route.LoadFile? || route.NotFound? ==> !reply.close)
  {
    match route
    case UserAgent =>
      CloseIffConnectionField(request, Get(request.headers, UserAgentField), "text/plain", compress);
    case Echo(text) =>
      CloseIffConnectionField(request, text, "text/plain", compress);
    case Root =>
      CloseIffConnectionField(request, "", "", compress);
    case _ =>
  }

  /**
   * The echo route reflects its text: when the request does not ask to
   * close, the one 200 text/plain response carries the text (compressed when the request
   * accepts gzip) and announces its length.
   */
  lemma EchoReply(request: RequestValue, text: string, dir: string, disk: Disk, compress: string -> string)
    requires !AsksToClose(request)
    ensures var reply := Respond(request, Echo(text), dir, disk, compress);
            && |reply.chunks| == 1 && reply.chunks[0].Message?
            && reply.chunks[0].response.startLine == StatusLine(Protocol, "200", "OK")
            && reply.chunks[0].response.headers[ContentType] == " text/plain"
            && reply.chunks[0].response.body == (if AcceptsGzip(request) then compress(text) else text)
            && reply.chunks[0].response.headers[ContentLength] == " " + Itoa(|reply.chunks[0].response.body|)
  {
    var response := BuildResponse(request, text, "text/plain", "200", "OK", compress);
    assert Get(response.headers, Connection) == "";
    assert LeadingSpace("") == 0;
    assert Respond(request, Echo(text), dir, disk, compress) == Reply([Message(response)], false, disk);
  }

  /**
   * The user-agent route reflects the request's `User-Agent` value: one 200
   * response whose body is that value (empty when the field is missing),
   * compressed when the request accepts gzip, with its length announced.
   */
  lemma UserAgentReply(request: RequestValue, dir: string, disk: Disk, compress: string -> string)
    ensures var reply := Respond(request, UserAgent, dir, disk, compress);
            var agent := Get(request.headers, UserAgentField);
            && |reply.chunks| == 1 && reply.chunks[0].Message?
            && reply.chunks[0].response.startLine == StatusLine(Protocol, "200", "OK")
            && reply.chunks[0].response.headers[ContentType] == " text/plain"
            && reply.chunks[0].response.body == (if AcceptsGzip(request) then compress(agent) else agent)
            && reply.chunks[0].response.headers[ContentLength] == " " + Itoa(|reply.chunks[0].response.body|)
  {
    var response := BuildResponse(request, Get(request.headers, UserAgentField), "text/plain", "200", "OK", compress);
    if AsksToClose(request) {
      assert Closes(response) by {
        CloseIffConnectionField(request, Get(request.headers, UserAgentField), "text/plain", compress);
      }
      assert Respond(request, UserAgent, dir, disk, compress) == Reply([Message(response)], true, disk);
    } else {
      assert Get(response.headers, Connection) == "";
      assert LeadingSpace("") == 0;
      assert Respond(request, UserAgent, dir, disk, compress) == Reply([Message(response)], false, disk);
    }
  }

  /**
   * The root answers one 200 response with empty content (compressed when
   * the request accepts gzip) and the length of what it carries.
   */
  lemma RootReply(request: RequestValue, dir: string, disk: Disk, compress: string -> string)
    ensures var reply := Respond(request, Root, dir, disk, compress);
            && |reply.chunks| == 1 && reply.chunks[0].Message?
            && reply.chunks[0].response.startLine == StatusLine(Protocol, "200", "OK")
            && reply.chunks[0].response.body == (if AcceptsGzip(request) then compress("") else "")
            && reply.chunks[0].response.headers[ContentLength] == " " + Itoa(|reply.chunks[0].response.body|)
  {
    var response := BuildResponse(request, "", "", "200", "OK", compress);
    if AsksToClose(request) {
      assert Closes(response) by {
        CloseIffConnectionField(request, "", "", compress);
      }
      assert Respond(request, Root, dir, disk, compress) == Reply([Message(response)], true, disk);
    } else {
      assert Get(response.headers, Connection) == "";
      assert LeadingSpace("") == 0;
      assert Respond(request, Root, dir, disk, compress) == Reply([Message(response)], false, disk);
    }
  }

  /**
   * The file routes in both outcomes. A POST answers 201 and stores the body,
   * or, when the write fails, answers a bare 404 and then 201 with the disk
   * untouched. A read answers one 200 octet-stream response with the file's
   * contents, or, when the file cannot be read, a bare 404 followed by a 200
   * with empty content. Neither closes the connection.
   */
  lemma FileReplies(request: RequestValue, name: string, dir: string, disk: Disk, compress: string -> string)
    ensures var path := dir + "/" + name;
            var saved := Respond(request, SaveFile(name), dir, disk, compress);
            && !saved.close
            && (path in disk.unwritable ==> saved.chunks == [Raw(NotFoundText), Raw(CreatedText)] && saved.disk == disk)
            && (path !in disk.unwritable ==> saved.chunks == [Raw(CreatedText)] && ReadFile(saved.disk, path) == Some(request.body))
    ensures var path := dir + "/" + name;
            var loaded := Respond(request, LoadFile(name), dir, disk, compress);
            && !loaded.close && loaded.disk == disk
            && |loaded.chunks| == (if path in disk.files then 1 else 2)
            && (path !in disk.files ==> loaded.chunks[0] == Raw(NotFoundText))
    ensures var path := dir + "/" + name;
            var loaded := Respond(request, LoadFile(name), dir, disk, compress);
            var content := if path in disk.files then disk.files[path] else "";
            var last := loaded.chunks[|loaded.chunks| - 1];
            && last.Message?
            && last.response.startLine == StatusLine(Protocol, "200", "OK")
            && last.response.headers[ContentType] == " application/octet-stream"
            && last.response.body == (if AcceptsGzip(request) then compress(content) else content)
            && last.response.headers[ContentLength] == " " + Itoa(|last.response.body|)
  {
    var path := dir + "/" + name;
    var content := if path in disk.files then disk.files[path] else "";
    var response := BuildResponse(request, content, "application/octet-stream", "200", "OK", compress);
    var loaded := Respond(request, LoadFile(name), dir, disk, compress);
    assert loaded == Reply((if path in disk.files then [] else [Raw(NotFoundText)]) + [Message(response)], false, disk);
    var stored := WriteFile(disk, path, request.body);
    assert Respond(request, SaveFile(name), dir, disk, compress) ==
           if stored.None? then Reply([Raw(NotFoundText), Raw(CreatedText)], false, disk)
           else Reply([Raw(CreatedText)], false, stored.value);
  }

  /**
   * A file written by a POST is what a later read of the same name serves:
   * the write replaces the file and answers 201, and the read then answers
   * 200 with its contents (compressed when that request accepts gzip).
   */
  lemma ReadAfterWrite(post: RequestValue, get: RequestValue, name: string, dir: string, disk: Disk, compress: string -> string)
    requires dir + "/" + name !in disk.unwritable
    ensures var saved := Respond(post, SaveFile(name), dir, disk, compress);
            var loaded := Respond(get, LoadFile(name), dir, saved.disk, compress);
            && saved.chunks == [Raw(CreatedText)]
            && |loaded.chunks| == 1 && loaded.chunks[0].Message?
            && loaded.chunks[0].response.startLine == StatusLine(Protocol, "200", "OK")
            && loaded.chunks[0].response.body == (if AcceptsGzip(get) then compress(post.body) else post.body)
  {
    var path := dir + "/" + name;
    var written := WriteFile(disk, path, post.body);
    assert ReadFile(written.value, path) == Some(post.body);
  }

  /**
   * The disk changes only through a POST whose write succeeds, and then only
   * in the one file it names.
   */
  lemma DiskChanges(request: RequestValue, route: Route, dir: string, disk: Disk, compress: string -> string)
    ensures var after := Respond(request, route, dir, disk, compress).disk;
            && (after != disk ==> route.SaveFile?)
            && (route.SaveFile? ==>
                  var path := dir + "/" + route.name;
                  if path in disk.unwritable then after == disk
                  else ReadFile(after, path) == Some(request.body)
                       && forall p :: p != path ==> ReadFile(after, p) == ReadFile(disk, p))
  {
  }

  // -------------------------------------------------------------- connection

  /** One conn.Read: the bytes it delivered (at most a buffer's worth) and whether it reported an error. */
  datatype ReadEvent = ReadEvent(data: string, failed: bool)

  /** Where the handler's loop is. */
  datatype Phase =
    | Reading
    | Dispatching(buffer: string)                  // a request buffer to parse and route
    | Writing(pending: seq<Chunk>, close: bool)    // the writes of one reply, and whether to stop after them
    | Closed                                       // the loop has ended
    | Crashed(fault: Fault)                        // a runtime panic ended the handler

  /** The handler's state: its phase, the disk, everything written to the socket so far. */
  datatype Conn = Conn(phase: Phase, disk: Disk, out: seq<Chunk>)

  /** Every read delivers at most a buffer's worth of bytes. */
  predicate Fits(events: seq<ReadEvent>) {
    forall i :: 0 <= i < |events| ==> |events[i].data| <= BufferSize
  }

  /** `n` zero bytes. */
  function Zeros(n: nat): (z: string)
    ensures |z| == n && forall i :: 0 <= i < n ==> z[i] == 0 as char
  {
    seq(n, _ => 0 as char)
  }

  /**
   * string(buf): the whole 1024-byte buffer, the bytes read followed by the
   * zero bytes the buffer was allocated with.
   */
  function Buffer(data: string): (b: string)
    requires |data| <= BufferSize
    ensures |b| == BufferSize && b[..|data|] == data
    ensures forall i :: |data| <= i < BufferSize ==> b[i] == 0 as char
  {
    data + Zeros(BufferSize - |data|)
  }

  /** Reading: a zero-byte read ends the loop; a failed read writes a bare 404 and ends it; otherwise the buffer is handled. */
  function ReceiveStep(c: Conn, ev: ReadEvent): (r: Conn)
    requires c.phase == Reading && |ev.data| <= BufferSize
    ensures r.disk == c.disk
    ensures |ev.data| == 0 ==> r == c.(phase := Closed)
    ensures |ev.data| > 0 && ev.failed ==> r == c.(phase := Closed, out := c.out + [Raw(ReadFailureText)])
    ensures |ev.data| > 0 && !ev.failed ==> r == c.(phase := Dispatching(Buffer(ev.data)))
  {
    if |ev.data| == 0 then c.(phase := Closed)
    else if ev.failed then c.(phase := Closed, out := c.out + [Raw(ReadFailureText)])
    else c.(phase := Dispatching(Buffer(ev.data)))
  }

  /** Dispatching: parse the buffer, pick the route, do its work; a panic in any step crashes the handler. */
  function DispatchStep(c: Conn, dir: string, compress: string -> string): (r: Conn)
    requires c.phase.Dispatching?
    ensures r.out == c.out
    ensures r.phase.Writing? || r.phase.Crashed?
  {
    match ParseRequest(c.phase.buffer)
    case Panic(f) => c.(phase := Crashed(f))
    case Ok(request) =>
      match SelectRoute(request.startLine)
      case Panic(f) => c.(phase := Crashed(f))
      case Ok(route) =>
        var reply := Respond(request, route, dir, c.disk, compress);
        Conn(Writing(reply.chunks, reply.close), reply.disk, c.out)
  }

  /** Writing: the reply's writes go out, then the loop reads again or stops. */
  function DeliverStep(c: Conn): (r: Conn)
    requires c.phase.Writing?
    ensures r.out == c.out + c.phase.pending && r.disk == c.disk
    ensures r.phase == if c.phase.close then Closed else Reading
  {
    Conn(if c.phase.close then Closed else Reading, c.disk, c.out + c.phase.pending)
  }

  /** One turn of the loop, from Reading back to Reading or to an end. */
  function Cycle(c: Conn, ev: ReadEvent, dir: string, compress: string -> string): (r: Conn)
    requires c.phase == Reading && |ev.data| <= BufferSize
    ensures r.phase.Reading? || r.phase.Closed? || r.phase.Crashed?
    ensures c.out <= r.out
  {
    var received := ReceiveStep(c, ev);
    if !received.phase.Dispatching? then received
    else
      var dispatched := DispatchStep(received, dir, compress);
      if !dispatched.phase.Writing? then dispatched else DeliverStep(dispatched)
  }

  /** The loop over a sequence of reads: it turns while it is Reading and there are reads left. */
  function Session(c: Conn, events: seq<ReadEvent>, dir: string, compress: string -> string): (r: Conn)
    requires Fits(events)
    ensures c.out <= r.out
    decreases |events|
  {
    if events == [] || c.phase != Reading then c
    else Session(Cycle(c, events[0], dir, compress), events[1..], dir, compress)
  }

  /**
   * Whatever the reads, the handler only ever adds to what it has written,
   * and it ends reading, closed or crashed; once closed or crashed it reads
   * nothing more.
   */
  lemma {:induction false} SessionEnds(c: Conn, events: seq<ReadEvent>, dir: string, compress: string -> string)
    requires Fits(events)
    requires c.phase.Reading? || c.phase.Closed? || c.phase.Crashed?
    ensures var r := Session(c, events, dir, compress);
            && c.out <= r.out
            && (r.phase.Reading? || r.phase.Closed? || r.phase.Crashed?)
            && (r.phase.Reading? ==> c.phase.Reading?)
            && (!c.phase.Reading? ==> r == c)
    decreases |events|
  {
    if events != [] && c.phase == Reading {
      var next := Cycle(c, events[0], dir, compress);
      assert Fits(events[1..]) by {
        forall i | 0 <= i < |events[1..]|
          ensures |events[1..][i].data| <= BufferSize
        {
          assert events[1..][i] == events[i + 1];
        }
      }
      SessionEnds(next, events[1..], dir, compress);
    }
  }

  /** A zero-byte read ends the loop at once, writing nothing, whatever reads would follow. */
  lemma ZeroByteReadEnds(c: Conn, failed: bool, rest: seq<ReadEvent>, dir: string, compress: string -> string)
    requires c.phase == Reading && Fits(rest)
    ensures Fits([ReadEvent("", failed)] + rest)
    ensures Session(c, [ReadEvent("", failed)] + rest, dir, compress) == c.(phase := Closed)
  {
    var events := [ReadEvent("", failed)] + rest;
    assert events[1..] == rest;
    assert Fits(events) by {
      forall i | 0 <= i < |events|
        ensures |events[i].data| <= BufferSize
      {
        if i > 0 {
          assert events[i] == rest[i - 1];
        }
      }
    }
  }

  /** A read that delivers bytes but reports an error gets a bare 404 back and ends the loop. */
  lemma FailedReadEnds(c: Conn, data: string, rest: seq<ReadEvent>, dir: string, compress: string -> string)
    requires c.phase == Reading && 0 < |data| <= BufferSize && Fits(rest)
    ensures Fits([ReadEvent(data, true)] + rest)
    ensures Session(c, [ReadEvent(data, true)] + rest, dir, compress) ==
            c.(phase := Closed, out := c.out + [Raw(ReadFailureText)])
  {
    var events := [ReadEvent(data, true)] + rest;
    assert events[1..] == rest;
    assert Fits(events) by {
      forall i | 0 <= i < |events|
        ensures |events[i].data| <= BufferSize
      {
        if i > 0 {
          assert events[i] == rest[i - 1];
        }
      }
    }
  }

  /**
   * A well-formed request that fits the buffer is served as its route says:
   * the buffer, zero padding and all, parses back to the request's start
   * line, header fields and body, and one turn of the loop writes the
   * route's reply and goes on reading unless the reply closes.
   */
  lemma ServeRequest(c: Conn, line: RequestLine, fields: seq<string>, body: string, route: Route,
                     dir: string, compress: string -> string)
    requires c.phase == Reading
    requires Readable(line, fields, body)
    requires forall j :: 0 < j ==> !At(BlankLine + body, BlankLine, j)
    requires 0 < |RequestText(line, fields, body)| <= BufferSize
    requires SelectRoute(line) == Ok(route)
    ensures var request := RequestValue(line, AddFields(map[], fields), body);
            var reply := Respond(request, route, dir, c.disk, compress);
            Cycle(c, ReadEvent(RequestText(line, fields, body), false), dir, compress) ==
              Conn(if reply.close then Closed else Reading, reply.disk, c.out + reply.chunks)
  {
    BufferParses(line, fields, body);
    CycleServes(c, ReadEvent(RequestText(line, fields, body), false),
                RequestValue(line, AddFields(map[], fields), body), route, dir, compress);
  }

  /** The buffer holding a well-formed request, zero padding and all, parses back to that request. */
  lemma BufferParses(line: RequestLine, fields: seq<string>, body: string)
    requires Readable(line, fields, body)
    requires forall j :: 0 < j ==> !At(BlankLine + body, BlankLine, j)
    requires |RequestText(line, fields, body)| <= BufferSize
    ensures ParseRequest(Buffer(RequestText(line, fields, body))) == Ok(RequestValue(line, AddFields(map[], fields), body))
  {
    var text := RequestText(line, fields, body);
    var pad := Zeros(BufferSize - |text|);
    assert Buffer(text) == text + pad;
    NoBlankLineInPadding(body, pad);
    ParseRequestText(line, fields, body, pad);
  }

  /** A turn of the loop on a read whose buffer parses and routes: the route's reply is written. */
  lemma CycleServes(c: Conn, ev: ReadEvent, request: RequestValue, route: Route, dir: string, compress: string -> string)
    requires c.phase == Reading && 0 < |ev.data| <= BufferSize && !ev.failed
    requires ParseRequest(Buffer(ev.data)) == Ok(request)
    requires SelectRoute(request.startLine) == Ok(route)
    ensures var reply := Respond(request, route, dir, c.disk, compress);
            Cycle(c, ev, dir, compress) == Conn(if reply.close then Closed else Reading, reply.disk, c.out + reply.chunks)
  {
  }

  /**
   * Zero padding adds no blank line: when the body shows none past the one
   * that ends the headers, the body and its padding show none either.
   */
  lemma NoBlankLineInPadding(body: string, pad: string)
    requires forall j :: 0 < j ==> !At(BlankLine + body, BlankLine, j)
    requires forall i :: 0 <= i < |pad| ==> pad[i] == 0 as char
    ensures forall j :: 0 < j ==> !At(BlankLine + body + pad, BlankLine, j)
  {
    var t := BlankLine + body;
    var s := t + pad;
    forall j | 0 < j
      ensures !At(s, BlankLine, j)
    {
      if j + 4 <= |t| {
        AtFront(t, pad, BlankLine, j);
      } else if j + 4 <= |s| {
        assert s[j..j + 4][3] == s[j + 3] == pad[j + 3 - |t|];
      }
    }
  }

  // ------------------------------------------------------------- the object

  /** What went out on the socket for one write: the fixed text, or some serialization of the response. */
  ghost predicate Renders(chunk: Chunk, wire: string) {
    match chunk
    case Raw(text) => wire == text
    case Message(r) => exists order :: IsOrdering(order, r.headers.Keys) && wire == Serialize(r, order)
  }

  /** The bytes written, write by write, are renderings of the chunks the model says were written. */
  ghost predicate Rendered(out: seq<Chunk>, written: seq<string>) {
    |out| == |written| && forall i :: 0 <= i < |out| ==> Renders(out[i], written[i])
  }

  /**
   * The per-connection handler: its phase, the disk it sees, the strings it
   * has written to the socket, and (as a ghost) the chunks those strings
   * render.
   */
  class Handler {
    var phase: Phase
    var disk: Disk
    var written: seq<string>
    ghost var out: seq<Chunk>

    /** The handler's state as a value. */
    ghost function Value(): Conn
      reads this
    {
      Conn(phase, disk, out)
    }

    /** The bytes on the socket are exactly the renderings of what the model wrote. */
    ghost predicate Valid()
      reads this
    {
      Rendered(out, written)
    }

    /** A fresh connection, about to read. */
    constructor (disk: Disk)
      ensures Value() == Conn(Reading, disk, []) && written == [] && Valid()
    {
      phase := Reading;
      this.disk := disk;
      written := [];
      out := [];
    }

    /** Appends one write to the socket. */
    method Write(chunk: Chunk)
      requires Valid()
      modifies this`written, this`out
      ensures out == old(out) + [chunk] && Valid()
      ensures |written| == |old(written)| + 1 && written[..|old(written)|] == old(written)
      ensures Renders(chunk, written[|old(written)|])
    {
      var wire: string;
      match chunk {
        case Raw(text) =>
          wire := text;
        case Message(r) =>
          ghost var order;
          wire, order := Bytes(r);
          assert Renders(chunk, wire);
      }
      written := written + [wire];
      out := out + [chunk];
      assert forall i :: 0 <= i < |old(out)| ==> out[i] == old(out)[i] && written[i] == old(written)[i];
    }

    /** One conn.Read and its checks. */
    method Receive(ev: ReadEvent)
      requires phase == Reading && |ev.data| <= BufferSize && Valid()
      modifies this`phase, this`written, this`out
      ensures Value() == ReceiveStep(old(Value()), ev) && Valid()
      ensures old(written) <= written
    {
      if |ev.data| == 0 {
        phase := Closed;
        return;
      }
      if ev.failed {
        Write(Raw(ReadFailureText));
        phase := Closed;
        return;
      }
      phase := Dispatching(ev.data + Zeros(BufferSize - |ev.data|));
    }

    /** Parses the buffer into a fresh Request, routes it and does the route's work, collecting its writes. */
    method Dispatch(dir: string, compress: string -> string)
      requires phase.Dispatching?
      modifies this`phase, this`disk
      ensures Value() == DispatchStep(old(Value()), dir, compress)
    {
      var data := phase.buffer;
      var request := new Request();
      var status := request.Build(data);
      if status.Panic? {
        phase := Crashed(status.fault);
        return;
      }
      assert ParseRequest(data) == Ok(request.Value());
      var target := request.startLine.target;
      var paths := Split(TrimPrefix(target, "/"), "/");
      var pending: seq<Chunk>;
      var close := false;
      if HasPrefix(target, "/files") {
        if |paths| < 2 {
          phase := Crashed(PathIndex);
          return;
        }
        pending := FileRoute(request.Value(), paths[1], dir, compress);
      } else if target == "/user-agent" {
        pending, close := TextRoute(request.Value(), UserAgent, dir, compress);
      } else if paths[0] == "echo" {
        if |paths| < 2 {
          phase := Crashed(PathIndex);
          return;
        }
        pending, close := TextRoute(request.Value(), Echo(paths[1]), dir, compress);
      } else if target == "/" {
        pending, close := TextRoute(request.Value(), Root, dir, compress);
      } else {
        pending := [Raw(NotFoundText)];
      }
      phase := Writing(pending, close);
    }

    /** The "/files" branch: a POST stores the body, anything else serves the file. */
    method FileRoute(request: RequestValue, name: string, dir: string, compress: string -> string)
      returns (pending: seq<Chunk>)
      modifies this`disk
      ensures var route := if request.startLine.verb == "POST" then SaveFile(name) else LoadFile(name);
              var reply := Respond(request, route, dir, old(disk), compress);
              pending == reply.chunks && disk == reply.disk
    {
      var response := new Response();
      var path := dir + "/" + name;
      pending := [];
      if request.startLine.verb == "POST" {
        response.ParseStartLine("201", "Created");
        var stored := WriteFile(disk, path, request.body);
        if stored.None? {
          pending := pending + [Raw(NotFoundText)];
        } else {
          disk := stored.value;
        }
        pending := pending + [Raw(CreatedText)];
      } else {
        var found := ReadFile(disk, path);
        if found.None? {
          pending := pending + [Raw(NotFoundText)];
        }
        var content := if found.Some? then found.value else "";
        response.Build(request, content, "application/octet-stream", "200", "OK", compress);
        pending := pending + [Message(response.Value())];
      }
    }

    /** The user-agent, echo and root branches: build a 200, then check its `Connection` value. */
    method TextRoute(request: RequestValue, route: Route, dir: string, compress: string -> string)
      returns (pending: seq<Chunk>, close: bool)
      requires route.UserAgent? || route.Echo? || route.Root?
      ensures var reply := Respond(request, route, dir, disk, compress);
              pending == reply.chunks && close == reply.close
    {
      var response := new Response();
      if route.UserAgent? {
        response.Build(request, Get(request.headers, UserAgentField), "text/plain", "200", "OK", compress);
        var v := Get(response.headers, Connection);
        pending := [Message(response.Value())];
        close := TrimSpace(v) == "close";
      } else if route.Echo? {
        response.Build(request, route.text, "text/plain", "200", "OK", compress);
        var v := Get(response.headers, Connection);
        close := TrimSpace(v) == "close";
        pending := if close then [] else [Message(response.Value())];
      } else {
        response.Build(request, "", "", "200", "OK", compress);
        var v := Get(response.headers, Connection);
        pending := [Message(response.Value())];
        close := TrimSpace(v) == "close";
      }
    }

    /** Writes the pending chunks, then reads again or stops. */
    method Deliver()
      requires phase.Writing? && Valid()
      modifies this`phase, this`written, this`out
      ensures Value() == DeliverStep(old(Value())) && Valid()
      ensures old(written) <= written
    {
      var pending, close := phase.pending, phase.close;
      for i := 0 to |pending|
        invariant out == old(out) + pending[..i] && Valid()
        invariant old(written) <= written
        invariant phase == old(phase) && disk == old(disk)
      {
        Write(pending[i]);
        assert pending[..i + 1] == pending[..i] + [pending[i]];
      }
      assert pending[..|pending|] == pending;
      phase := if close then Closed else Reading;
    }

    /** handleConn: turns of the loop over the reads, until they run out or the loop ends. */
    method Serve(events: seq<ReadEvent>, dir: string, compress: string -> string)
      requires Fits(events) && Valid()
      modifies this
      ensures Value() == Session(old(Value()), events, dir, compress) && Valid()
      ensures old(written) <= written
    {
      var i := 0;
      while i < |events| && phase == Reading
        invariant 0 <= i <= |events| && Fits(events[i..]) && Valid()
        invariant old(written) <= written
        invariant Session(Value(), events[i..], dir, compress) == Session(old(Value()), events, dir, compress)
        decreases |events| - i
      {
        assert events[i..][1..] == events[i + 1..];
        Turn(events[i], dir, compress);
        i := i + 1;
      }
    }

    /** One turn of the loop: read, then dispatch and deliver while nothing has ended it. */
    method Turn(ev: ReadEvent, dir: string, compress: string -> string)
      requires phase == Reading && |ev.data| <= BufferSize && Valid()
      modifies this
      ensures Value() == Cycle(old(Value()), ev, dir, compress) && Valid()
      ensures old(written) <= written
    {
      Receive(ev);
      if phase.Dispatching? {
        Dispatch(dir, compress);
        if phase.Writing? {
          Deliver();
        }
      }
    }
  }
}
