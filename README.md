# A verified model of a small HTTP/1.1 server's framing core

The server answers HTTP/1.1 requests on one TCP connection after another.
For each connection, `handleConn` loops as follows:

- It reads up to 1024 bytes into a fresh buffer.
- It parses the whole buffer, zero padding included, as a request: start line, header fields, body.
- It picks a route from the request target:
  - `/files/<name>`: a POST stores the body in that file; any other method serves the file.
  - `/user-agent`: echoes the `User-Agent` field.
  - `/echo/<text>`: echoes the text.
  - `/`: an empty 200.
  - anything else: a bare 404.
- It builds a response with `Content-Type`, `Content-Length` and, when the request asks, `Content-Encoding: gzip` and `Connection: close`.
- It serializes the response with `Bytes` and writes it.
- It either reads again or ends the connection.

The model follows `app/main.go` in five modules:

- `Outcomes`: `Option`, and `Result`, whose `Panic(fault)` case stands for a Go runtime panic. Each fault names the slice or index that panics.
- `Text`: the parts of Go's `strings` and `strconv` that the core relies on, with their edge cases:
  - `Index` and `LastIndex` return -1 when nothing is found.
  - `Split` always yields at least one part.
  - `SplitN(s, ":", 2)` becomes `Cut`.
  - `TrimSpace` trims ASCII white space.
  - `Atoi` accepts an optional sign, leading zeros and the 64-bit `int` range; `Itoa` writes the canonical digits it reads back.
- `HttpRequest`:
  - `ParseRequest` specifies request parsing as pure functions.
  - The `Request` class does the same work in place, method by method, as `build`, `parseHeaders`, `parseStartLine` and `parseBody` do.
  - Round trip: the text of a request parses back to its start line, header fields and body, under these conditions:
    - method, target and protocol hold no space, CR or LF;
    - there is at least one header line, since a request with none panics;
    - no header line holds a CRLF;
    - the body is exactly as long as its `Content-Length`, or empty when that field does not read as a number;
    - no blank line (`\r\n\r\n`) follows the one that ends the header block, neither in the body nor in what comes after it. The parser cuts at the last blank line, so a body containing one is not read back.
  - Read from the zero-padded 1024-byte buffer, the round trip holds under the same conditions. The padding is zero bytes, so it adds no blank line.
- `HttpResponse`:
  - `BuildResponse` specifies the builder.
  - The `Response` class fills its fields in place.
  - `Bytes` is a loop over the header map, which it visits in an arbitrary order. Every visiting order yields the same status line, the same header lines only rearranged, the same blank line and body, and the same length.
  - The announced `Content-Length` reads back as the length of the body actually sent.
- `Server`:
  - `SelectRoute` and `Respond` are the routing and the work of each branch, as pure functions.
  - `Disk` stands in for the file system.
  - The loop is a small state machine, `Reading → Dispatching → Writing → Reading | Closed`, with `Crashed` for a panic.
  - The `Handler` class runs that machine over a sequence of read events. Its `Serve` is proved equal to the functional `Session`. Every string it writes is a rendering (`Bytes`) of the chunk the model says was written.

Where the handler's code differs from the behaviour documented for the server, the model follows the code:

- Only the user-agent, echo and root branches look at `Connection`. A `/files` request or an unknown target never closes the connection, even when it carries `Connection: close`.
- The echo branch checks `Connection` before writing. A `Connection` field on an echo request ends the connection with nothing written.
- The `/files` branch has no `else` after its failure writes:
  - A failed write answers a bare 404 and then a 201.
  - A failed read answers a bare 404 and then a 200 with an empty body.
- A read that returns bytes together with an error writes `HTTP/1.1 404 Not Found` with no line ending, then ends the loop. A zero-byte read ends it silently.
- Some requests panic instead of getting a 404:
  - A request with no header line at all. Its only CRLF pair is the blank line, so the header slice runs backwards.
  - The targets `/files` and `/echo`, which have no second path segment.

## Model

| member | source | states |
|---|---|---|
| Text.IndexOf | app/main.go:44 | the result is -1 or a position where the pattern occurs, and the pattern occurs nowhere before it (nowhere at all when -1) |
| Text.LastIndexOf | app/main.go:56 | the result is -1 or a position where the pattern occurs, and the pattern occurs nowhere after it |
| Text.Split | app/main.go:45 | there is at least one part; joining the parts with the separator gives the input back; no part contains the separator |
| Text.SplitJoin | app/main.go:57 | splitting the join of separator-free parts gives exactly those parts back (the inverse of Split) |
| Text.SplitsThree | app/main.go:45-46 | splitting on one character gives three or more parts exactly when that character occurs at two different positions |
| Text.Cut | app/main.go:59-63 | no result exactly when the line has no ':'; otherwise the line is name, ':', rest, and the name holds no ':' |
| Text.Contains | app/main.go:97 | true exactly when the pattern occurs somewhere in the string |
| Text.HasPrefix | app/main.go:204 | true exactly when the string is at least as long as the prefix and agrees with it character by character |
| Text.TrimPrefix | app/main.go:202 | a string starting with the prefix is the prefix followed by the result; any other string is returned unchanged |
| Text.TrimSpace | app/main.go:64 | the result has no white space at either end, and it is the input with only white space cut from the two ends |
| Text.TrimSpaceLeadingBlank | app/main.go:235 | a trimmed value behind one leading blank, as response header values are stored, trims back to itself |
| Text.Atoi | app/main.go:73 | a number is returned only for an optionally signed numeral whose value fits the 64-bit range, and its sign follows the leading '-' |
| Text.AtoiReads | app/main.go:73 | Atoi reads v from s exactly when v is in the 64-bit range and s spells v: an optional '+' or '-' (a '-' only before a value that is not positive), any number of leading zeros, then the Itoa digits of |v| |
| Text.AtoiOfSpelling | app/main.go:73 | a sign, leading zeros and the Itoa digits of n are read as n, negated after a '-', whenever that value fits the range |
| Text.AtoiSpelling | app/main.go:73 | whatever Atoi accepts is its sign, some leading zeros and the Itoa digits of the magnitude of the value it returns |
| Text.LeadingZeros | app/main.go:73 | leading zeros leave the value of a digit string unchanged |
| Text.AtoiCanonical | app/main.go:73 | an unsigned numeral without leading zeros that fits the range reads as its value, and Itoa writes that same numeral back |
| Text.Itoa | app/main.go:120 | the result is a decimal numeral with no leading zero whose value is the number |
| Text.ItoaRoundTrip | app/main.go:120 | converting a number in the 64-bit range to text and back gives the number |
| HttpRequest.HeaderLinesOk | app/main.go:55-57 | the header block can be cut out exactly when some blank line begins after the first CRLF |
| HttpRequest.HeaderLines | app/main.go:55-57 | on success the lines, joined by CRLF, are exactly the text from just after the first CRLF up to the last blank line, and no line holds a CRLF; the only failure is the header-slice panic |
| HttpRequest.AddField | app/main.go:59-65 | a line without ':' leaves the map unchanged; otherwise the name before the first ':' maps to the trimmed rest of the line and every other name keeps its entry |
| HttpRequest.AddFields | app/main.go:58-66 | the header loop only adds or overwrites names, never removes one, and lines without ':' change nothing |
| HttpRequest.NoHeaderLinesPanic | app/main.go:54-57 | a start line directly followed by the blank line, then padding with no CR, makes parsing panic at the header slice |
| HttpRequest.AddFieldsLookup | app/main.go:58-66 | after the header loop, a name maps to the trimmed value of the last line naming it; a name no line names keeps its earlier state |
| HttpRequest.AddFieldsKeys | app/main.go:58-66 | a name is in the map after the loop exactly when it was before or some line with a ':' names it |
| HttpRequest.StartLineShape | app/main.go:43-51 | a parsed start line is what the buffer begins with: method, space, target, space, protocol, then a space or the first CRLF; none of the three holds a space |
| HttpRequest.StartLine | app/main.go:43-46 | the start-line slice panics exactly when the buffer holds no CRLF; otherwise it panics at the index or yields method, target and protocol, none of which holds a space |
| HttpRequest.StartLineAccepts | app/main.go:43-46 | the start line is parsed exactly when the buffer holds a CRLF and the text before the first CRLF holds two spaces |
| HttpRequest.ParsedHeaders | app/main.go:54-66 | in a parsed request, each name holds the trimmed value of the last header line naming it, and a name no line names is absent |
| HttpRequest.ParsedBody | app/main.go:70-79 | when Content-Length reads as n, the body is the n bytes right after the last blank line; otherwise the body is empty |
| HttpRequest.ParseOntoOk | app/main.go:37-41 | a parse that does not panic holds the parsed start line, the header map built from the header lines, and the body that did not panic |
| HttpRequest.BodyOk | app/main.go:70-79 | a body that does not panic is the prior body when Content-Length does not read as a number, and otherwise the n bytes after the last blank line, which lie inside the buffer |
| HttpRequest.BodyPanics | app/main.go:72-78 | taking the body panics exactly when Content-Length reads as a number that is negative or runs past the end of the buffer |
| HttpRequest.Body | app/main.go:72-78 | a Content-Length that does not read as a number leaves the prior body; one that does gives a body of exactly that many bytes; the only failure is the body-slice panic |
| HttpRequest.ParseOnto | app/main.go:37-41 | the header-slice panic comes first, then a start-line panic; on success the start line is the parsed one and no earlier header is lost |
| HttpRequest.ParseRequest | app/main.go:37-41 | a parsed request carries the parsed start line, and a non-empty body only when Content-Length reads as a number |
| HttpRequest.ParseRequestText | app/main.go:37-79 | the text of a request parses back to its start line, header fields and body, when method, target and protocol hold no space, CR or LF, there is at least one header line and none holds a CRLF, the body matches its Content-Length (or is empty when none reads as a number), and no blank line follows the one ending the header block, in the body or in the padding after it |
| HttpRequest.Request.constructor | app/main.go:190-192 | a fresh request has an empty header map, an empty body and a zero start line |
| HttpRequest.Request.ParseHeaders | app/main.go:54-68 | panics exactly when the header block cannot be cut out, leaving the map unchanged; otherwise the map is the old one updated line by line by the header loop |
| HttpRequest.Request.ParseStartLine | app/main.go:43-52 | the start line becomes the first three space-separated segments of the first line, or the call panics as the slice or the index does |
| HttpRequest.Request.ParseBody | app/main.go:70-79 | the body becomes the bytes announced by Content-Length after the last blank line; it is left as it was when the length does not parse; it panics when the slice is out of range |
| HttpRequest.Request.Build | app/main.go:37-41 | headers, then start line, then body, as ParseRequest specifies: the same outcome, and on success the same request |
| HttpResponse.ResponseHeaders | app/main.go:90-104 | the map always holds Content-Type and Content-Length; it holds Content-Encoding exactly when the request accepts gzip and Connection exactly when the request has a Connection field; each value carries one leading blank |
| HttpResponse.BuildResponse | app/main.go:106-132 | HTTP/1.1 status line; body compressed exactly when the request accepts gzip; Content-Length is the length of the body actually carried; the header names are as ResponseHeaders says |
| HttpResponse.LengthAnnounced | app/main.go:120-130 | trimming and converting the announced Content-Length gives exactly the number of body bytes, compressed or not |
| HttpResponse.StatusText | app/main.go:136 | the status line starts with the protocol and a space and ends with CRLF |
| HttpResponse.FieldLine | app/main.go:138 | a header line is the name, a colon and a space, then the value, ended by CRLF: four bytes longer than name and value together |
| HttpResponse.Lines | app/main.go:137-139 | one header line per visited name |
| HttpResponse.LinesAt | app/main.go:137-139 | the line at each position is the header line for the name at that position and its value |
| HttpResponse.Serialize | app/main.go:134-144 | the byte count is the status line, the header lines, the two bytes of the blank line and the body |
| HttpResponse.LinesPermuted | app/main.go:137-139 | two visiting orders of the same header names give the same header lines, only rearranged |
| HttpResponse.SerializeShape | app/main.go:134-144 | the bytes start with the status line, hold exactly one line per header (each name and its value), then a blank line and the body unchanged; their length is the sum of those parts |
| HttpResponse.SerializationsAgree | app/main.go:137-139 | whatever order the map is visited in, two serializations carry the same header lines and the same number of bytes |
| HttpResponse.Bytes | app/main.go:134-144 | the bytes are the serialization of the response in some order that visits every header name exactly once; they begin with the status line and end with the blank line and the body |
| HttpResponse.HeaderBlock | app/main.go:136-139 | the status line followed by one header line for each name of the map, each name visited exactly once in some order |
| HttpResponse.SerializeEnds | app/main.go:136-143 | every serialization begins with the status line and ends with the blank line and the body |
| HttpResponse.Response.constructor | app/main.go:196-198 | a fresh response is empty |
| HttpResponse.Response.ParseStartLine | app/main.go:81-88 | sets an HTTP/1.1 status line with the given code and reason; nothing else changes |
| HttpResponse.Response.ParseHeaders | app/main.go:90-104 | replaces the header map with the headers the request asks for |
| HttpResponse.Response.ParseBody | app/main.go:106-126 | with Content-Encoding set, the body is the compressed content and only Content-Length changes, to its length; otherwise the body is the content and the headers stay |
| HttpResponse.Response.Build | app/main.go:128-132 | the response built in place equals BuildResponse |
| Server.WriteFile | app/main.go:210 | the write succeeds exactly when the path is writable; the file then reads back as written and every other file is unchanged |
| Server.ReadFile | app/main.go:217 | the read succeeds exactly when the file exists, and returns its contents |
| Server.Segments | app/main.go:202 | the target always has at least one path segment, so the first-segment test cannot panic |
| Server.SelectRoute | app/main.go:200-266 | the file routes come from a "/files" prefix with a second segment as the name, storing exactly for POST; user-agent and root from those exact targets; echo from a first segment "echo" with the second as its text; NotFound only when none of these holds; a panic only for a "/files" prefix or a first segment "echo" without a second segment |
| Server.UnmatchedNotFound | app/main.go:264-266 | a target that matches none of the rules routes to the bare 404, whatever the method |
| Server.NonexistentNotFound | app/main.go:264-266 | "/nonexistent" routes to the bare 404 |
| Server.FilesFirst | app/main.go:204-216 | every target starting with "/files" is a file route, a store for POST and a load otherwise, or it panics |
| Server.MissingSegmentPanics | app/main.go:206 | "/files" and "/echo" have no second segment and make the handler panic |
| Server.EchoReflects | app/main.go:241-243 | "/echo/" followed by a text without '/' is routed to echo that text |
| Server.FixedTargets | app/main.go:227-254 | "/user-agent" and "/" reach their own routes, whatever the method |
| Server.CloseIffConnectionField | app/main.go:101-102 | a 200 response closes the connection exactly when the request has a Connection field, whatever its value |
| Server.Closes | app/main.go:231-235 | a response closes the connection only if it carries a Connection header |
| Server.Respond | app/main.go:204-266 | only the user-agent, echo and root routes can close; echo closes without writing; an unknown target gets one bare 404 and stays open; only a POST under /files changes the disk |
| Server.CloseDecision | app/main.go:227-262 | for user-agent, echo and root, the connection closes exactly when the request has a Connection field; the file routes and the 404 never close it |
| Server.EchoReply | app/main.go:241-252 | an echo that does not close writes one 200 OK text/plain response whose body is the text, compressed when gzip is accepted, and whose Content-Length is the body's length |
| Server.UserAgentReply | app/main.go:227-233 | the user-agent route writes one 200 text/plain response whose body is the request's User-Agent value (empty when missing), compressed when gzip is accepted, with Content-Length the body's length |
| Server.RootReply | app/main.go:254-257 | the root writes one 200 response with empty content, compressed when gzip is accepted, with Content-Length the body's length |
| Server.FileReplies | app/main.go:204-225 | a POST answers 201 and stores the body, or after a failed write answers a bare 404 then 201 and leaves the disk alone; a read answers one 200 octet-stream response carrying the file (compressed under gzip) with its length, or after a failed read a bare 404 then that 200 with empty content; neither closes |
| Server.ReadAfterWrite | app/main.go:208-224 | a file stored by a successful POST (answered 201) is what a later load of the same name answers with a 200 |
| Server.DiskChanges | app/main.go:208-214 | the disk changes only through a POST whose write succeeds, and then only in the file it names |
| Server.Zeros | app/main.go:175 | n bytes, every one of them zero |
| Server.Buffer | app/main.go:175-188 | the parsed buffer is always 1024 bytes: the bytes read, then zeros |
| Server.ReceiveStep | app/main.go:177-188 | a zero-byte read closes with nothing written; a read with an error writes the bare 404 line and closes; otherwise the padded buffer is dispatched; the disk is untouched |
| Server.DispatchStep | app/main.go:188-266 | dispatching never writes by itself, and it ends either with writes pending or crashed |
| Server.DeliverStep | app/main.go:212-265 | the pending writes go out in order; the loop then stops exactly when the reply closes |
| Server.Cycle | app/main.go:173-267 | one turn of the loop only appends to the output and ends reading, closed or crashed |
| Server.Session | app/main.go:173-268 | over any sequence of reads, the loop only appends to what was written |
| Server.SessionEnds | app/main.go:171-270 | over any reads, output only grows; the handler ends reading, closed or crashed; once closed or crashed it does nothing more |
| Server.ZeroByteReadEnds | app/main.go:177-181 | a zero-byte read ends the loop at once with nothing written, whatever reads follow |
| Server.FailedReadEnds | app/main.go:183-186 | a read with bytes and an error writes the bare 404 line and ends the loop, whatever reads follow |
| Server.NoBlankLineInPadding | app/main.go:175 | zero padding after a body adds no blank line past the one that ends the headers |
| Server.BufferParses | app/main.go:175-194 | a request meeting the round-trip conditions of ParseRequestText whose text fits the buffer parses back from the zero-padded buffer |
| Server.CycleServes | app/main.go:188-267 | a turn on a read whose buffer parses and routes writes exactly the route's reply and then reads again unless the reply closes |
| Server.ServeRequest | app/main.go:175-267 | end to end, for a non-empty request that fits the buffer, meets the round-trip conditions of ParseRequestText and routes without panic: one turn writes the reply of its route and closes exactly as that reply says |
| Server.Handler.constructor | app/main.go:171-173 | a new connection is reading, has written nothing and sees the given disk |
| Server.Handler.Write | app/main.go:212-265 | appends exactly one string to what was written, leaving the earlier strings unchanged: the fixed text as is, or the response serialized by Bytes |
| Server.Handler.Receive | app/main.go:175-188 | the read step done in place equals ReceiveStep, and what was already written stays as a prefix |
| Server.Handler.Dispatch | app/main.go:188-266 | parsing into a fresh Request and running the routing branches in place equals DispatchStep |
| Server.Handler.FileRoute | app/main.go:204-225 | the "/files" branch produces exactly the writes and disk of Respond for the route the method selects |
| Server.Handler.TextRoute | app/main.go:227-262 | the user-agent, echo and root branches produce exactly the writes and the close decision of Respond |
| Server.Handler.Deliver | app/main.go:212-265 | the pending writes go out one by one, each a rendering of its chunk, after what was already written; the state afterwards equals DeliverStep |
| Server.Handler.Turn | app/main.go:175-267 | one turn of the loop in place equals Cycle, and what was already written stays as a prefix |
| Server.Handler.Serve | app/main.go:171-270 | the handler's loop over a sequence of reads ends in the state Session specifies; every string written renders a modelled chunk, and what was written before stays as a prefix |

## Left out

- Listening, accepting and the goroutine per connection (`main`, lines 150-169) are not modelled. Each connection is one `Handler`. Connections run concurrently in the source; their shared file system is not modelled.
- A panic ends the whole process in the source. Here it ends only the connection (`Crashed`), and the model says nothing about other connections.
- `SendResp` is empty in the source and is not modelled.
- The console logging (`fmt.Println`) and `conn.Close` are not modelled. Closing is the `Closed` phase.
- The socket's own write errors are not modelled. The source ignores them.
- Gzip is the parameter `compress`. Its output format is not modelled. Its write error, which panics in the source, is not modelled either: writing to an in-memory buffer does not fail.
- `os.Args[2]` is the parameter `dir`. A missing command-line argument, which panics in the source, is not modelled.
- The file system is a `Disk` map from path to contents, plus the set of paths a write fails on. Directories, permissions and file modes are not modelled. Path syntax such as `..` in a name is not modelled either: the path is `dir + "/" + name` as a plain string.
- Server.WriteFile: a failed write changes nothing in the model. In Go, `os.WriteFile` opens the file with create and truncate before it writes, so a write that fails later can leave the file created or emptied. `Server.DiskChanges` and `Server.FileReplies` say the disk is unchanged after a failed write only under this simplification.
- Server.ReadFile: a failed read returns no data in the model. `os.ReadFile` can return partial data together with an error, and the handler then serves that partial data in its 200 response; the model serves "" instead.
- Bytes are modelled as `char`. Go's `TrimSpace` also trims Unicode white space; the model trims only ASCII white space (space, tab, LF, VT, FF, CR).
- HttpRequest.Request.Build: after a panic it states no field values, because the process would end there.
- Server.Handler.Dispatch: the writes of one route are collected and sent by `Deliver` after the branch has run. In the source they are interleaved with the branch's remaining computation. The order and contents of the writes are the same; only their timing relative to that computation differs.
- HttpResponse.Bytes: the order Go visits a map in is unspecified. The model returns the chosen order as a ghost value and proves that every order yields the same header lines and the same length. It does not fix one order.
- HttpRequest.ParsedBody: `start + n` is an unbounded sum here. In Go an overflowing sum still panics at the slice, so the outcome is the same.
