/** The fork-per-connection server's request handler (handle_client): GET
    only, a dated 200 header, and header and file sent as one buffer. */
module ServerFork {
  import opened HttpText
  import opened Request
  import opened Response
  import opened Connection

  /** What recv can report: an error (negative), or up to a full buffer. */
  predicate ValidRecv(recvLen: int, data: seq<char>) {
    recvLen <= BufferSize && (recvLen >= 0 ==> |data| == recvLen)
  }

  /** What strftime leaves in time_string[30]: it fits with its NUL, and the
      "%a, %d %b %Y %X %Z" format writes no NUL and no line break. */
  predicate ValidTimeString(date: string) {
    |date| < 30 && NUL !in date && '\n' !in date
  }

  /** The bytes sent for a file: the buffer of strlen(header) + N + 1 chars,
      with the header copied in by strcpy (its NUL landing at |header|) and
      fread's readCount bytes after it; whatever fread does not fill keeps
      the allocator's prior content stale. The first |header| + N are sent. */
  function ForkPayload(header: string, contents: seq<char>, readCount: nat, stale: nat -> char): (p: seq<char>)
    ensures |p| == |header| + |contents|
    ensures p[..|header|] == header
    ensures forall k :: 0 <= k < |contents| && k < readCount ==> p[|header| + k] == contents[k]
  {
    seq(|header| + |contents|, k requires 0 <= k < |header| + |contents| =>
      if k < |header| then header[k]
      else if k - |header| < readCount then contents[k - |header|]
      else if k == |header| then NUL
      else stale(k))
  }

  /** A complete read makes the reply exactly the header followed by the file. */
  lemma ForkPayloadComplete(header: string, contents: seq<char>, readCount: nat, stale: nat -> char)
    requires readCount >= |contents|
    ensures ForkPayload(header, contents, readCount, stale) == header + contents
  {
    var p := ForkPayload(header, contents, readCount, stale);
    forall k | 0 <= k < |p|
      ensures p[k] == (header + contents)[k]
    {
      if k < |header| {
        assert p[..|header|][k] == p[k];
      } else {
        assert p[|header| + (k - |header|)] == contents[k - |header|];
      }
    }
  }

  /** The reply once GET is accepted: the name must fit file_name, then 404
      for a file that does not open, nothing at all when the response buffer
      cannot be allocated, else the one dated payload. */
  function ForkServe(name: string, fs: FileSystem, date: string, allocOk: bool, readCount: nat,
                     stale: nat -> char): Outcome
  {
    if |name| >= FileNameSize then Fault(FileNameOverflow)
    else match Open(fs, name)
      case None => Closed([NotFound])
      case Some(contents) =>
        if !allocOk then Closed([])
        else Closed([ForkPayload(OkHeaderDated(date, |contents|), contents, readCount, stale)])
  }

  /** Everything handle_client does for one recv result. */
  function ForkResponse(recvLen: int, data: seq<char>, fs: FileSystem, date: string, allocOk: bool,
                        readCount: nat, stale: nat -> char): Outcome
    requires ValidRecv(recvLen, data)
  {
    if recvLen < 0 then Closed([])
    else if recvLen < 2 then Fault(IndexBeforeBuffer)
    else
      var b := RecvBuffer(data);
      if !StartsWith(b, "GET ") then Closed([BadRequestGetOnly])
      else
        assert b[recvLen - 2] == NUL;
        ForkServe(ScanName(b, 4, StrLen(b)), fs, date, allocOk, readCount, stale)
  }

  /** handle_client on a socket: the received bytes are copied into a zeroed
      buffer and cut, GET is checked, the name is scanned up to the strlen of
      the cut buffer, and the reply is sent before the socket is closed. */
  method HandleClient(client: ClientSocket, recvLen: int, data: seq<char>, fs: FileSystem, date: string,
                      allocOk: bool, readCount: nat, stale: nat -> char) returns (outcome: Outcome)
    requires client.isOpen
    requires ValidRecv(recvLen, data)
    requires ValidTimeString(date)
    modifies client
    ensures outcome == ForkResponse(recvLen, data, fs, date, allocOk, readCount, stale)
    ensures outcome.Closed? ==> !client.isOpen && client.sent == old(client.sent) + outcome.sends
    ensures outcome.Fault? ==> client.isOpen && client.sent == old(client.sent)
  {
    var requestBuffer := new char[BufferSize](_ => NUL);
    if recvLen < 0 {
      client.Close();
      return Closed([]);
    }
    forall k | 0 <= k < recvLen {
      requestBuffer[k] := data[k];
    }
    var requestLength := recvLen;
    if requestLength < 2 {
      return Fault(IndexBeforeBuffer);
    }
    requestBuffer[requestLength - 2] := NUL;
    assert requestBuffer[..] == RecvBuffer(data);

    if !StartsWith(requestBuffer[..], "GET ") {
      client.Send(BadRequestGetOnly);
      client.Close();
      return Closed([BadRequestGetOnly]);
    }
    assert requestBuffer[recvLen - 2] == NUL;
    requestLength := StrLen(requestBuffer[..]);
    var name, overflow := CopyFileName(requestBuffer, 4, requestLength);
    if overflow {
      return Fault(FileNameOverflow);
    }
    outcome := ServeFile(client, name, fs, date, allocOk, readCount, stale);
  }

  /** The part of handle_client after file_name is terminated: open the file,
      send 404, or build the response buffer from the dated header and the
      file and send it in one payload; every path ends with the socket closed. */
  method ServeFile(client: ClientSocket, name: string, fs: FileSystem, date: string, allocOk: bool,
                   readCount: nat, stale: nat -> char) returns (outcome: Outcome)
    requires client.isOpen
    requires |name| < FileNameSize
    requires ValidTimeString(date)
    modifies client
    ensures outcome == ForkServe(name, fs, date, allocOk, readCount, stale)
    ensures outcome.Closed? && !client.isOpen && client.sent == old(client.sent) + outcome.sends
  {
    match Open(fs, name) {
      case None =>
        client.Send(NotFound);
        outcome := Closed([NotFound]);
      case Some(contents) =>
        var fileSize := |contents|;
        var header := OkHeaderDated(date, fileSize);
        // strlen(header) is its length: the header holds no NUL.
        OkHeaderDatedNoNul(date, fileSize);
        if !allocOk {
          client.Close();
          return Closed([]);
        }
        var payload := BuildResponse(header, contents, readCount, stale);
        client.Send(payload);
        outcome := Closed([payload]);
    }
    client.Close();
  }

  /** The response buffer of handle_client: malloc'd with room for the
      header, the file and a NUL, filled by strcpy and then by fread at
      offset strlen(header); the first |header| + |contents| chars are sent. */
  method BuildResponse(header: string, contents: seq<char>, readCount: nat, stale: nat -> char)
    returns (payload: seq<char>)
    ensures payload == ForkPayload(header, contents, readCount, stale)
  {
    var headerLength, fileSize := |header|, |contents|;
    var responseBuffer := new char[headerLength + fileSize + 1](k => stale(k));
    forall k | 0 <= k < headerLength {
      responseBuffer[k] := header[k];
    }
    responseBuffer[headerLength] := NUL;
    var readSize := if readCount < fileSize then readCount else fileSize;
    forall k | headerLength <= k < headerLength + readSize {
      responseBuffer[k] := contents[k - headerLength];
    }
    payload := responseBuffer[..headerLength + fileSize];
    ghost var expected := ForkPayload(header, contents, readCount, stale);
    forall k | 0 <= k < headerLength + fileSize
      ensures payload[k] == expected[k]
    {
      if k < headerLength {
        assert expected[..headerLength][k] == expected[k];
      }
    }
  }

  /** A failed recv sends nothing; fewer than two bytes make the cut write
      before the buffer. */
  lemma RecvFailures(recvLen: int, data: seq<char>, fs: FileSystem, date: string, allocOk: bool,
                     readCount: nat, stale: nat -> char)
    requires ValidRecv(recvLen, data)
    ensures recvLen < 0 ==> ForkResponse(recvLen, data, fs, date, allocOk, readCount, stale) == Closed([])
    ensures 0 <= recvLen < 2 ==>
              ForkResponse(recvLen, data, fs, date, allocOk, readCount, stale) == Fault(IndexBeforeBuffer)
  {
  }

  /** The reply to an accepted GET: a fault exactly when the name does not fit
      file_name; only the 404 text for a name that does not open; nothing when
      allocation fails; else one payload of |header| + N chars that starts
      with a header reading back the Date and N, the file size, as
      Content-Length, and is header and file exactly when the read is complete. */
  lemma ForkServeReplies(name: string, fs: FileSystem, date: string, allocOk: bool, readCount: nat,
                         stale: nat -> char)
    requires ValidTimeString(date)
    ensures ForkServe(name, fs, date, allocOk, readCount, stale).Fault? <==> |name| >= FileNameSize
    ensures |name| < FileNameSize && (name == "" || name !in fs) ==>
              ForkServe(name, fs, date, allocOk, readCount, stale) == Closed([NotFound])
    ensures |name| < FileNameSize && name != "" && name in fs && !allocOk ==>
              ForkServe(name, fs, date, allocOk, readCount, stale) == Closed([])
    ensures |name| < FileNameSize && name != "" && name in fs && allocOk ==>
              var o := ForkServe(name, fs, date, allocOk, readCount, stale);
              var header := OkHeaderDated(date, |fs[name]|);
              && |o.sends| == 1
              && |o.sends[0]| == |header| + |fs[name]|
              && o.sends[0][..|header|] == header
              && ParseHeader(header).Some?
              && FieldValue(ParseHeader(header).value.fields, "Date") == Some(date)
              && ContentLength(ParseHeader(header).value) == Some(|fs[name]|)
              && (readCount >= |fs[name]| ==> o.sends[0] == header + fs[name])
  {
    if |name| < FileNameSize && name != "" && name in fs && allocOk {
      var contents := fs[name];
      OkHeaderDatedReadBack(date, |contents|);
      if readCount >= |contents| {
        ForkPayloadComplete(OkHeaderDated(date, |contents|), contents, readCount, stale);
      }
    }
  }

  /** ForkServe never produces the 400 reply. */
  lemma ForkServeIsNotBadRequest(name: string, fs: FileSystem, date: string, allocOk: bool, readCount: nat,
                                 stale: nat -> char)
    ensures ForkServe(name, fs, date, allocOk, readCount, stale) != Closed([BadRequestGetOnly])
  {
    if |name| < FileNameSize && name != "" && name in fs && allocOk {
      var contents := fs[name];
      var header := OkHeaderDated(date, |contents|);
      RepliesDiffer(|contents|, date);
      var p := ForkPayload(header, contents, readCount, stale);
      assert p[..|header|] == header;
      assert p[9] == header[9];
    } else {
      RepliesDiffer(0, date);
    }
  }

  /** The 400 reply is sent exactly when the received bytes, less the last
      two, do not start with "GET ". */
  lemma BadRequestIff(data: seq<char>, fs: FileSystem, date: string, allocOk: bool, readCount: nat,
                      stale: nat -> char)
    requires 2 <= |data| <= BufferSize
    ensures ForkResponse(|data|, data, fs, date, allocOk, readCount, stale) == Closed([BadRequestGetOnly])
            <==> !StartsWith(data[..|data| - 2], "GET ")
  {
    StartsWithAfterCut(data, "GET ");
    var b := RecvBuffer(data);
    if StartsWith(b, "GET ") {
      assert b[|data| - 2] == NUL;
      ForkServeIsNotBadRequest(ScanName(b, 4, StrLen(b)), fs, date, allocOk, readCount, stale);
    }
  }

  /** HEAD is not served: it gets the 400 reply like any other method. */
  lemma HeadRejected(data: seq<char>, fs: FileSystem, date: string, allocOk: bool, readCount: nat,
                     stale: nat -> char)
    requires 2 <= |data| <= BufferSize
    requires StartsWith(data, "HEAD ")
    ensures ForkResponse(|data|, data, fs, date, allocOk, readCount, stale) == Closed([BadRequestGetOnly])
  {
    BadRequestIff(data, fs, date, allocOk, readCount, stale);
    assert data[0] == 'H';
    if |data| - 2 >= 4 {
      assert data[..|data| - 2][0] == 'H';
    }
  }

  /** In a buffer that starts with "GET " and holds a NUL at p, strlen lies
      between the token and p, and the scan bounded by strlen names the same
      file as one bounded by any limit past p. */
  lemma StrLenBound(b: seq<char>, p: nat, limit: nat)
    requires StartsWith(b, "GET ")
    requires p < limit <= |b| && b[p] == NUL
    ensures 4 <= StrLen(b) <= p
    ensures ScanName(b, 4, StrLen(b)) == ScanName(b, 4, limit)
  {
    ScanStopsAtNul(b, 4, StrLen(b), limit);
  }

  /** "GET " followed by rest serves the name rest yields. */
  lemma GetRequest(rest: seq<char>, fs: FileSystem, date: string, allocOk: bool, readCount: nat,
                   stale: nat -> char)
    requires 2 <= |rest| <= BufferSize - 4
    ensures ForkResponse(4 + |rest|, "GET " + rest, fs, date, allocOk, readCount, stale)
            == ForkServe(RequestedName(rest), fs, date, allocOk, readCount, stale)
  {
    var data := "GET " + rest;
    assert data[..|data| - 2][..4] == "GET ";
    StartsWithAfterCut(data, "GET ");
    var b := RecvBuffer(data);
    StrLenBound(b, |data| - 2, |data|);
    ScanOfRequest("GET ", rest);
  }

  /** The fork variant's strlen-bounded scan names the same file as the
      thread variant's scan bounded by the received length. */
  lemma SameNameAsThread(data: seq<char>)
    requires 2 <= |data| <= BufferSize
    requires StartsWith(data[..|data| - 2], "GET ")
    ensures var b := RecvBuffer(data);
            assert b[|data| - 2] == NUL;
            ScanName(b, 4, StrLen(b)) == ScanName(b, 4, |data|)
  {
    StartsWithAfterCut(data, "GET ");
    StrLenBound(RecvBuffer(data), |data| - 2, |data|);
  }

  /** GET /index.html for a two-byte file "hi", with the read complete: one
      payload, the dated header with Content-Length 2 followed by "hi". */
  lemma GetIndexScenario(fs: FileSystem, date: string, stale: nat -> char)
    requires fs == map["index.html" := "hi"]
    ensures ForkResponse(17, "GET /index.html\r\n", fs, date, true, 2, stale)
            == Closed([OkHeaderDated(date, 2) + "hi"])
  {
    var rest := "/index.html\r\n";
    assert rest == ['/'] + "index.html" + ['\r', '\n'];
    assert "GET /index.html\r\n" == "GET " + rest;
    GetRequest(rest, fs, date, true, 2, stale);
    PlainName("index.html", rest);
    ForkPayloadComplete(OkHeaderDated(date, 2), "hi", 2, stale);
  }

  /** GET /missing.html when only index.html exists: only the 404 text. */
  lemma MissingScenario(fs: FileSystem, date: string, allocOk: bool, readCount: nat, stale: nat -> char)
    requires fs == map["index.html" := "hi"]
    ensures ForkResponse(19, "GET /missing.html\r\n", fs, date, allocOk, readCount, stale) == Closed([NotFound])
  {
    var rest := "/missing.html\r\n";
    assert rest == ['/'] + "missing.html" + ['\r', '\n'];
    assert "GET /missing.html\r\n" == "GET " + rest;
    GetRequest(rest, fs, date, allocOk, readCount, stale);
    PlainName("missing.html", rest);
  }

  /** HEAD /index.html: the 400 reply, since this variant serves only GET. */
  lemma HeadScenario(fs: FileSystem, date: string, allocOk: bool, readCount: nat, stale: nat -> char)
    ensures ForkResponse(18, "HEAD /index.html\r\n", fs, date, allocOk, readCount, stale)
            == Closed([BadRequestGetOnly])
  {
    var data := "HEAD /index.html\r\n";
    assert data[..5] == "HEAD ";
    HeadRejected(data, fs, date, allocOk, readCount, stale);
  }
}
