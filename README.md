# Per-connection request handling of a small HTTP file server

The server comes in two variants that each handle one connection from one
`recv`:

- The thread variant, `handle_client_request` in `serverthread.cpp`:
  - accepts `GET ` and `HEAD `;
  - answers a found file with a 200 header;
  - for GET, follows the header with a second payload holding the file.
- The fork variant, `handle_client` in `serverfork.cpp`:
  - accepts only `GET `;
  - answers with a single payload, made of a 200 header that carries a
    `Date` field followed by the file.

Both variants work the same way:
1. Zero the receive buffer.
2. Copy the received bytes into it.
3. Write a NUL two bytes before the end of what arrived.
4. Classify the method.
5. Scan a file name out of the target. The scan drops every `/` and stops
   at NUL, `\n` or space.
6. Reply with one of: a fixed 400 text, a fixed 404 text, or a 200 header
   whose `Content-Length` is the file size.

The model is written in the source's own imperative style:
- The buffers are arrays.
- The name loop is a `while` loop with the source's `i`/`j` counters,
  including the `--j` on a slash.
- The socket is a class, `Connection.ClientSocket`. It records the payloads
  sent and whether it is still open.

Each handler method is proved equal to a pure function of its inputs:
- `ServerThread.ThreadResponse` for the thread variant;
- `ServerFork.ForkResponse` for the fork variant.

The lemmas then state what the source promises about those functions.

The environment the code talks to is made into parameters:
- **File system:** a map from name to contents. `fopen` fails on the empty
  name and on a missing name. The file size is the length of the contents.
- **recv:** its result is an integer, plus the bytes when that integer is not
  negative.
- **malloc:** its success is a boolean `allocOk`.
- **fread:** the count it returns is `readCount`.
- **Stale memory:** what the fork variant's uninitialised response buffer
  held before is a function `stale`.
- **Date:** the string `strftime` produces is a parameter.

Two defects of the source are made explicit results:
- **`Fault(IndexBeforeBuffer)`:** the cut writes at `recv_len - 2`, which
  lies before the buffer when fewer than two bytes arrive.
- **`Fault(FileNameOverflow)`:** the name loop, or the NUL written after it,
  reaches `file_name[100]` or beyond, with no bound check in the source.

Nothing is sent before either point. The methods promise that on a fault
the socket is untouched.

Modules:
- `HttpText`: options, `%d` rendering and its parser, a line splitter.
- `Request`: the receive buffer, classification, `strlen`, the target, slash
  removal, and the name loop as the function `ScanName` and the method
  `CopyFileName`.
- `Response`: the file system, a header datatype with a renderer and a
  parser, and the fixed replies and 200 headers.
- `Connection`: the socket class and the outcome type.
- `ServerThread` and `ServerFork`: the two handlers.

Behaviours of the code that the model keeps as written:
- The fork variant ignores the count `fread` returns. A short read is not
  an error there: the payload still has strlen(header) + N chars, and the
  positions `fread` did not fill keep whatever the buffer held. The thread
  variant does check the count. After a short read it closes the socket
  with only the header sent.
- The thread variant sends the 200 header before it allocates and reads
  the body. An allocation failure or a short read therefore leaves a reply
  that consists of the header alone.
- The fork variant formats the date with "%a, %d %b %Y %X %Z" into
  `time_string[30]`. The model takes the resulting string as a parameter.
- The cut at `recv_len - 2` is kept. Fewer than two received bytes are the
  fault `IndexBeforeBuffer`.

## Model

| member | source | states |
|---|---|---|
| HttpText.Decimal | serverthread.cpp:111-116 | `%d` of a non-negative size: at least one digit, only digits, a single digit exactly below ten, a leading zero only for zero |
| HttpText.DecimalRoundTrip | serverthread.cpp:111-116 | the digits printed for a size parse back as that size |
| HttpText.DecimalInjective | serverthread.cpp:111-116 | two sizes print the same digits exactly when they are equal |
| HttpText.DecimalValue | serverthread.cpp:111-116 | the value of the printed digits is the size |
| HttpText.SplitAfterLine | serverthread.cpp:111-116 | splitting text that starts with a line without breaks yields that line first, then the lines of the rest |
| HttpText.JoinSplit | serverthread.cpp:111-116 | splitting at line breaks and joining with line breaks gives back the text |
| Request.RecvBuffer | serverthread.cpp:49-60 | the buffer after zeroing, copying what arrived and the cut: full size, NUL at `recv_len - 2`, the other received bytes unchanged, zero after them |
| Request.ClassifyGetHead | serverthread.cpp:63-64 | the method is GET exactly when the buffer starts with "GET ", HEAD exactly when it starts with "HEAD " |
| Request.GetHeadExclusive | serverthread.cpp:63-64 | no buffer starts with both "GET " and "HEAD " |
| Request.StrLen | serverfork.cpp:53 | `strlen`: the index of a NUL with no NUL before it |
| Request.Target | serverthread.cpp:77-82 | the target is the longest prefix free of NUL, `\n` and space; the next character, if any, is one of them |
| Request.StripSlashes | serverthread.cpp:83-90 | the name loop's slash removal as a reference definition: never longer than its input; StripSlashesNoSlash, StripSlashesLength, StripSlashesAppend and StripSlashesIdentity characterise it |
| Request.StripSlashesNoSlash | serverthread.cpp:83-86 | the stripped name holds no '/' |
| Request.StripSlashesLength | serverthread.cpp:83-90 | exactly one character is dropped per '/' |
| Request.StripSlashesAppend | serverthread.cpp:83-90 | stripping distributes over concatenation, so the other characters keep their order |
| Request.StripSlashesIdentity | serverthread.cpp:83-90 | a name without '/' is kept as it is |
| Request.StripSlashesExample | serverthread.cpp:77-92 | target "/a/b.html" gives the name "ab.html" |
| Request.TwoSegments | serverthread.cpp:77-92 | a target "/x/y" with slash-free x and y gives x followed by y |
| Request.TargetNoTerminator | serverthread.cpp:77-82 | a target with no NUL, `\n` or space is kept whole |
| Request.PlainName | serverthread.cpp:60-92 | the bytes "/" + name + CR LF after the token name the file `name` when it holds no '/' and no terminator |
| Request.CutSlice | serverthread.cpp:49-60 | between the token and the cut, the buffer holds the received bytes unchanged, and the cut position holds NUL |
| Request.ScanName | serverthread.cpp:77-91 | the name loop as a function of the buffer, start and limit; ScanIsStrippedTarget, ScanStopsAtNul and CopyFileName characterise it |
| Request.ScanIsStrippedTarget | serverthread.cpp:77-91 | the loop's result from index i below the limit is the target of that slice with its slashes removed |
| Request.ScannedNameHasNoSlash | serverthread.cpp:77-92 | a name the loop yields never holds a '/' |
| Request.ScanStopsAtNul | serverthread.cpp:60-82 | a NUL at p ends the scan there, whatever limit lies beyond it |
| Request.TargetStopsAtNul | serverthread.cpp:60-82 | a NUL at p cuts the target at p |
| Request.RequestedName | serverthread.cpp:60-92 | the name for the bytes after the token holds no '/' and is at most two shorter than them |
| Request.ScanOfRequest | serverthread.cpp:60-92 | for token plus rest, the scan from just after the token up to the received length is the target of rest without its last two bytes, stripped of slashes |
| Request.AcceptedStartsInside | serverthread.cpp:60-75 | a token found in the cut buffer ends before the cut, so the scan starts inside the received bytes |
| Request.StartsWithAfterCut | serverthread.cpp:60-64 | the cut buffer starts with a token exactly when the received bytes less the last two do |
| Request.CopyFileName | serverthread.cpp:76-92 | the `i`/`j` loop into `file_name[100]` overflows exactly when the scanned name has at least 100 characters; otherwise it yields that name |
| Response.FieldRoundTrip | serverthread.cpp:110-116 | one rendered header field parses back to itself |
| Response.FieldsRoundTrip | serverthread.cpp:110-116 | rendered field lines parse back to the fields |
| Response.SplitRenderedFields | serverthread.cpp:110-116 | rendered fields split into one line per field |
| Response.HeaderRoundTrip | serverthread.cpp:110-116 | a well-formed header renders to text that parses back to it |
| Response.OkHeader | serverthread.cpp:110-116 | the thread variant's 200 header text; OkHeaderRendered, OkHeaderReadBack and OkHeaderNoNul characterise it |
| Response.OkHeaderDated | serverfork.cpp:79-82 | the fork variant's dated 200 header text; OkHeaderDatedRendered, OkHeaderDatedReadBack and OkHeaderDatedNoNul characterise it |
| Response.OkHeaderNoNul | serverthread.cpp:119 | the thread header holds no NUL, so `strlen` of it, the length sent, is its length |
| Response.OkHeaderRendered | serverthread.cpp:110-116 | the thread variant's 200 header is the rendering of the status line and its three fields in source order |
| Response.OkHeaderDatedRendered | serverfork.cpp:79-82 | the fork variant's 200 header is the rendering of the status line and its four fields, Date first |
| Response.OkFieldsWellFormed | serverthread.cpp:110-116 | the fields of both 200 headers are well formed when the date holds no line break |
| Response.OkFieldsContentLength | serverthread.cpp:110-116 | the Content-Length of either field list is the size |
| Response.OkHeaderReadBack | serverthread.cpp:110-116 | the 200 header parses to the status line and the fields Content-Length, Connection: close and Content-Type: text/html; its Content-Length is the file size |
| Response.OkHeaderDatedReadBack | serverfork.cpp:79-82 | the dated header parses to the status line, Date, Content-Length, Connection, Content-Type in that order; Date reads back as the date and Content-Length as the size |
| Response.ErrorReplies | serverthread.cpp:69 | the 404 text is a bare 404 header; each 400 text is a bare 400 header followed by its usage line |
| Response.OkHeaderDatedNoNul | serverfork.cpp:84-95 | the dated header holds no NUL, so `strlen` of it is its length |
| Response.RepliesDiffer | serverthread.cpp:66-116 | the 400, 404 and 200 replies are pairwise different |
| Connection.ClientSocket.Send | serverthread.cpp:70 | `send` appends one payload and leaves the socket open |
| Connection.ClientSocket.Close | serverthread.cpp:153 | `close` closes the socket and sends nothing |
| ServerThread.ThreadResponse | serverthread.cpp:38-155 | everything the handler does for one recv result; RecvFailures, BadRequestIff, GetRequest, HeadRequest, HeadIsGetWithoutBody and LastTwoBytesIgnored characterise it |
| ServerThread.Serve | serverthread.cpp:95-146 | the reply to an accepted request; ServeReplies and ServeIsNotBadRequest characterise it |
| ServerThread.HandleClientRequest | serverthread.cpp:38-155 | the handler's result is `ThreadResponse`; on a reply the socket is closed and received exactly its payloads; on a fault nothing was sent and nothing closed |
| ServerThread.ServeFile | serverthread.cpp:95-149 | from `fopen` on, the result is `Serve`; the socket ends closed, having received exactly its payloads |
| ServerThread.RecvFailures | serverthread.cpp:52-60 | a negative recv result sends nothing and closes; 0 or 1 bytes are the write before the buffer |
| ServerThread.ServeReplies | serverthread.cpp:95-146 | fault exactly when the name does not fit; only the 404 text when the file does not open; otherwise first exactly the 200 header `OkHeader(N)`, whose Content-Length reads back as N, the file size, then the file as a second payload exactly for GET with allocation and read complete |
| ServerThread.ServeIsNotBadRequest | serverthread.cpp:95-146 | a served request never gets the 400 reply |
| ServerThread.BadRequestIff | serverthread.cpp:60-71 | the 400 reply is sent exactly when the received bytes less the last two start with neither "GET " nor "HEAD " |
| ServerThread.GetRequest | serverthread.cpp:60-92 | "GET " plus rest serves, with the body, the name rest yields, scanned from offset 4 |
| ServerThread.HeadRequest | serverthread.cpp:60-92 | "HEAD " plus rest serves, without the body, the same name, scanned from offset 5 |
| ServerThread.HeadIsGetWithoutBody | serverthread.cpp:119-146 | HEAD faults exactly when GET does; otherwise it sends exactly the first payload of GET's reply |
| ServerThread.LastTwoBytesIgnored | serverthread.cpp:60-92 | requests that differ only in their last two bytes get the same outcome |
| ServerThread.GetIndexScenario | serverthread.cpp:38-155 | "GET /index.html" CR LF for the two-byte file "hi" gets the 200 header with Content-Length 2, then exactly "hi" |
| ServerThread.HeadIndexScenario | serverthread.cpp:38-155 | "HEAD /index.html" CR LF for the same file gets the same header alone |
| ServerThread.MissingScenario | serverthread.cpp:95-101 | "GET /missing.html" CR LF when only index.html exists gets only the 404 text |
| ServerThread.PostScenario | serverthread.cpp:63-71 | "POST /index.html" CR LF gets the 400 reply |
| ServerFork.ForkResponse | serverfork.cpp:23-103 | everything the handler does for one recv result; RecvFailures, BadRequestIff, HeadRejected and GetRequest characterise it |
| ServerFork.ForkServe | serverfork.cpp:66-98 | the reply to an accepted GET; ForkServeReplies and ForkServeIsNotBadRequest characterise it |
| ServerFork.ForkPayload | serverfork.cpp:84-95 | the sent buffer has length strlen(header) + N, starts with the header, and holds the file at every position `fread` filled |
| ServerFork.ForkPayloadComplete | serverfork.cpp:92-95 | when `fread` fills the whole file, the payload is the header followed by the file |
| ServerFork.BuildResponse | serverfork.cpp:84-95 | the buffer built by `strcpy` and `fread` at offset strlen(header) yields `ForkPayload` |
| ServerFork.HandleClient | serverfork.cpp:23-103 | the handler's result is `ForkResponse`; on a reply the socket is closed and received exactly its payloads; on a fault nothing was sent and nothing closed |
| ServerFork.ServeFile | serverfork.cpp:66-98 | from `fopen` on, the result is `ForkServe`; the socket ends closed, having received exactly its payloads |
| ServerFork.RecvFailures | serverfork.cpp:37-47 | a negative recv result sends nothing and closes; 0 or 1 bytes are the write before the buffer |
| ServerFork.ForkServeReplies | serverfork.cpp:66-95 | fault exactly when the name does not fit; only the 404 text when the file does not open; nothing when allocation fails; otherwise one payload of strlen(header) + N chars whose header reads back the date and N, equal to header and file when the read is complete |
| ServerFork.ForkServeIsNotBadRequest | serverfork.cpp:66-95 | a served request never gets the 400 reply |
| ServerFork.BadRequestIff | serverfork.cpp:47-51 | the 400 reply is sent exactly when the received bytes less the last two do not start with "GET " |
| ServerFork.HeadRejected | serverfork.cpp:49-51 | a HEAD request gets the 400 reply |
| ServerFork.StrLenBound | serverfork.cpp:53-55 | `strlen` of the cut buffer lies between the token and the cut, and the scan up to it equals the scan up to any limit past the cut |
| ServerFork.GetRequest | serverfork.cpp:46-64 | "GET " plus rest serves the name rest yields |
| ServerFork.SameNameAsThread | serverfork.cpp:53-64 | the scan bounded by `strlen` names the same file as a scan bounded by the received length |
| ServerFork.GetIndexScenario | serverfork.cpp:23-103 | "GET /index.html" CR LF for the two-byte file "hi", read completely, gets one payload: the dated header with Content-Length 2 followed by "hi" |
| ServerFork.MissingScenario | serverfork.cpp:66-69 | "GET /missing.html" CR LF when only index.html exists gets only the 404 text |
| ServerFork.HeadScenario | serverfork.cpp:49-51 | "HEAD /index.html" CR LF gets the 400 reply |

## Left out

- Listener setup (`create_server_socket`, `setup_server_socket`), the accept loops, thread creation, `fork`, `SIGCHLD` handling and the log mutex: these are process and thread management.
- The `host:port` split in `main`: it is argument handling outside the handlers.
- Logging (`display_error`, `log_message`, `print_error`, `perror`): its output is not part of the reply.
- `time`, `localtime` and `strftime`: the date string is a parameter. `ServerFork.ValidTimeString` requires it to fit `time_string[30]` and to hold no NUL and no line break. A date that would not fit is not modelled.
- `fopen`, `fseek`, `ftell` and `fread` are a map lookup and the `readCount` parameter. Directories, permissions and files that change while they are read are not modelled.
- `ftell`'s result is stored in an `int`. Files of 2 GiB or more, and the negative size an error would give, are not modelled; sizes are unbounded naturals.
- `snprintf` into `header[1024]` is modelled without truncation. No `int`-sized Content-Length can make the header that long.
- `send` is assumed to deliver each payload whole. Partial sends and errors of `send` are not modelled.
- `fclose` and `free`: they release resources and do not change what is sent.
- `pthread_exit` and `exit`: they end the handler, and the model returns. The process or thread ending is not modelled.
