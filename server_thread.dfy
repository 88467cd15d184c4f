/** The thread-per-connection server's request handler
    (handle_client_request): GET and HEAD, the 200 header and the file body
    sent as two payloads. */
module ServerThread {
  import opened HttpText
  import opened Request
  import opened Response
  import opened Connection

  /** recv is handed one byte less than the buffer. */
  const RecvCapacity: nat := BufferSize - 1

  /** What recv can report: an error (negative), or that many bytes. */
  predicate ValidRecv(recvLen: int, data: seq<char>) {
    recvLen <= RecvCapacity && (recvLen >= 0 ==> |data| == recvLen)
  }

  /** The reply once the method is known to be GET (withBody) or HEAD: the
      name must fit file_name, then 404 for a file that does not open, else
      the 200 header and, for GET, the body. allocOk is whether malloc
      succeeds; readCount is what fread returns. */
  function Serve(withBody: bool, name: string, fs: FileSystem, allocOk: bool, readCount: nat): Outcome {
    if |name| >= FileNameSize then Fault(FileNameOverflow)
    else match Open(fs, name)
      case None => Closed([NotFound])
      case Some(contents) =>
        var header := OkHeader(|contents|);
        if !withBody || !allocOk || readCount < |contents| then Closed([header])
        else Closed([header, contents])
  }

  /** Everything handle_client_request does for one recv result. */
  function ThreadResponse(recvLen: int, data: seq<char>, fs: FileSystem, allocOk: bool, readCount: nat): Outcome
    requires ValidRecv(recvLen, data)
  {
    if recvLen < 0 then Closed([])
    else if recvLen < 2 then Fault(IndexBeforeBuffer)
    else
      var b := RecvBuffer(data);
      match ClassifyGetHead(b)
      case Unsupported => Closed([BadRequestGetHead])
      case Get => Serve(true, ScanName(b, 4, recvLen), fs, allocOk, readCount)
      case Head => Serve(false, ScanName(b, 5, recvLen), fs, allocOk, readCount)
  }

  /** handle_client_request on a socket: the received bytes are copied into a
      zeroed buffer, cut, classified, the name is scanned into file_name, and
      the replies are sent before the socket is closed. */
  method HandleClientRequest(client: ClientSocket, recvLen: int, data: seq<char>, fs: FileSystem,
                             allocOk: bool, readCount: nat) returns (outcome: Outcome)
    requires client.isOpen
    requires ValidRecv(recvLen, data)
    modifies client
    ensures outcome == ThreadResponse(recvLen, data, fs, allocOk, readCount)
    ensures outcome.Closed? ==> !client.isOpen && client.sent == old(client.sent) + outcome.sends
    ensures outcome.Fault? ==> client.isOpen && client.sent == old(client.sent)
  {
    var recvBuffer := new char[BufferSize](_ => NUL);
    if recvLen < 0 {
      client.Close();
      return Closed([]);
    }
    forall k | 0 <= k < recvLen {
      recvBuffer[k] := data[k];
    }
    if recvLen < 2 {
      return Fault(IndexBeforeBuffer);
    }
    recvBuffer[recvLen - 2] := NUL;
    assert recvBuffer[..] == RecvBuffer(data);

    var isGet := StartsWith(recvBuffer[..], "GET ");
    var isHead := StartsWith(recvBuffer[..], "HEAD ");
    if !isGet && !isHead {
      client.Send(BadRequestGetHead);
      client.Close();
      return Closed([BadRequestGetHead]);
    }
    var start := if isGet then 4 else 5;
    var name, overflow := CopyFileName(recvBuffer, start, recvLen);
    if overflow {
      return Fault(FileNameOverflow);
    }
    outcome := ServeFile(client, isGet, name, fs, allocOk, readCount);
  }

  /** The part of handle_client_request after file_name is terminated: open
      the file, send 404 or the header, and for GET read the file into a
      buffer of its size and send it; every path ends with the socket closed. */
  method ServeFile(client: ClientSocket, withBody: bool, name: string, fs: FileSystem,
                   allocOk: bool, readCount: nat) returns (outcome: Outcome)
    requires client.isOpen
    requires |name| < FileNameSize
    modifies client
    ensures outcome == Serve(withBody, name, fs, allocOk, readCount)
    ensures outcome.Closed? && !client.isOpen && client.sent == old(client.sent) + outcome.sends
  {
    match Open(fs, name) {
      case None =>
        client.Send(NotFound);
        outcome := Closed([NotFound]);
      case Some(contents) =>
        var fileSize := |contents|;
        var header := OkHeader(fileSize);
        // strlen(header) is its length: the header holds no NUL.
        OkHeaderNoNul(fileSize);
        client.Send(header);
        outcome := Closed([header]);
        if withBody {
          if !allocOk {
            client.Close();
            return;
          }
          var responseBuffer := new char[fileSize];
          var readSize := if readCount < fileSize then readCount else fileSize;
          forall k | 0 <= k < readSize {
            responseBuffer[k] := contents[k];
          }
          if readSize < fileSize {
            client.Close();
            return;
          }
          assert responseBuffer[..] == contents;
          client.Send(responseBuffer[..]);
          outcome := Closed([header, contents]);
        }
    }
    client.Close();
  }

  /** A failed recv sends nothing; fewer than two bytes make the cut write
      before the buffer. */
  lemma RecvFailures(recvLen: int, data: seq<char>, fs: FileSystem, allocOk: bool, readCount: nat)
    requires ValidRecv(recvLen, data)
    ensures recvLen < 0 ==> ThreadResponse(recvLen, data, fs, allocOk, readCount) == Closed([])
    ensures 0 <= recvLen < 2 ==> ThreadResponse(recvLen, data, fs, allocOk, readCount) == Fault(IndexBeforeBuffer)
  {
  }

  /** The reply to an accepted request: a fault exactly when the name does not
      fit file_name; only the 404 text for a name that does not open; else
      first the 200 header, whose Content-Length reads back as the file's size,
      then the file contents when the body is wanted and fully read. */
  lemma ServeReplies(withBody: bool, name: string, fs: FileSystem, allocOk: bool, readCount: nat)
    ensures Serve(withBody, name, fs, allocOk, readCount).Fault? <==> |name| >= FileNameSize
    ensures |name| < FileNameSize && (name == "" || name !in fs) ==>
              Serve(withBody, name, fs, allocOk, readCount) == Closed([NotFound])
    ensures |name| < FileNameSize && name != "" && name in fs ==>
              var o := Serve(withBody, name, fs, allocOk, readCount);
              && 1 <= |o.sends| <= 2
              && o.sends[0] == OkHeader(|fs[name]|)
              && ParseHeader(o.sends[0]).Some?
              && ContentLength(ParseHeader(o.sends[0]).value) == Some(|fs[name]|)
              && (|o.sends| == 2 <==> withBody && allocOk && readCount >= |fs[name]|)
              && (|o.sends| == 2 ==> o.sends[1] == fs[name])
  {
    if name in fs {
      OkHeaderReadBack(|fs[name]|);
    }
  }

  /** Serve never produces the 400 reply. */
  lemma ServeIsNotBadRequest(withBody: bool, name: string, fs: FileSystem, allocOk: bool, readCount: nat)
    ensures Serve(withBody, name, fs, allocOk, readCount) != Closed([BadRequestGetHead])
  {
    if |name| < FileNameSize && name != "" && name in fs {
      RepliesDiffer(|fs[name]|, "");
    } else {
      RepliesDiffer(0, "");
    }
  }

  /** The 400 reply is sent exactly when the received bytes, less the last
      two, start with neither "GET " nor "HEAD ". */
  lemma BadRequestIff(data: seq<char>, fs: FileSystem, allocOk: bool, readCount: nat)
    requires 2 <= |data| <= RecvCapacity
    ensures ThreadResponse(|data|, data, fs, allocOk, readCount) == Closed([BadRequestGetHead])
            <==> !StartsWith(data[..|data| - 2], "GET ") && !StartsWith(data[..|data| - 2], "HEAD ")
  {
    StartsWithAfterCut(data, "GET ");
    StartsWithAfterCut(data, "HEAD ");
    var b := RecvBuffer(data);
    var n := |data|;
    ServeIsNotBadRequest(true, ScanName(b, 4, n), fs, allocOk, readCount);
    ServeIsNotBadRequest(false, ScanName(b, 5, n), fs, allocOk, readCount);
  }

  lemma CutStartsWith(token: seq<char>, rest: seq<char>)
    requires |rest| >= 2
    ensures StartsWith((token + rest)[..|token| + |rest| - 2], token)
  {
    assert (token + rest)[..|token| + |rest| - 2][..|token|] == token;
  }

  /** "GET " followed by rest serves, with the body, the name rest yields. */
  lemma GetRequest(rest: seq<char>, fs: FileSystem, allocOk: bool, readCount: nat)
    requires 2 <= |rest| <= RecvCapacity - 4
    ensures ThreadResponse(4 + |rest|, "GET " + rest, fs, allocOk, readCount)
            == Serve(true, RequestedName(rest), fs, allocOk, readCount)
  {
    CutStartsWith("GET ", rest);
    StartsWithAfterCut("GET " + rest, "GET ");
    ScanOfRequest("GET ", rest);
  }

  /** "HEAD " followed by rest serves, without the body, the same name. */
  lemma HeadRequest(rest: seq<char>, fs: FileSystem, allocOk: bool, readCount: nat)
    requires 2 <= |rest| <= RecvCapacity - 5
    ensures ThreadResponse(5 + |rest|, "HEAD " + rest, fs, allocOk, readCount)
            == Serve(false, RequestedName(rest), fs, allocOk, readCount)
  {
    CutStartsWith("HEAD ", rest);
    StartsWithAfterCut("HEAD " + rest, "HEAD ");
    GetHeadExclusive(RecvBuffer("HEAD " + rest));
    ScanOfRequest("HEAD ", rest);
  }

  /** HEAD is GET without the body: the same fault, or the first payload of
      GET's reply and nothing more. */
  lemma HeadIsGetWithoutBody(rest: seq<char>, fs: FileSystem, allocOk: bool, readCount: nat)
    requires 2 <= |rest| <= RecvCapacity - 5
    ensures var g := ThreadResponse(4 + |rest|, "GET " + rest, fs, allocOk, readCount);
            var h := ThreadResponse(5 + |rest|, "HEAD " + rest, fs, allocOk, readCount);
            && (h.Fault? <==> g.Fault?)
            && (h.Closed? ==> |h.sends| == 1 && h.sends == g.sends[..1])
  {
    GetRequest(rest, fs, allocOk, readCount);
    HeadRequest(rest, fs, allocOk, readCount);
  }

  /** Requests that differ only in their last two bytes get the same reply:
      the NUL written at recvLen - 2 hides them from the scan. */
  lemma LastTwoBytesIgnored(d1: seq<char>, d2: seq<char>, fs: FileSystem, allocOk: bool, readCount: nat)
    requires 2 <= |d1| == |d2| <= RecvCapacity
    requires d1[..|d1| - 2] == d2[..|d2| - 2]
    ensures ThreadResponse(|d1|, d1, fs, allocOk, readCount) == ThreadResponse(|d2|, d2, fs, allocOk, readCount)
  {
    var n := |d1|;
    var b1, b2 := RecvBuffer(d1), RecvBuffer(d2);
    StartsWithAfterCut(d1, "GET ");
    StartsWithAfterCut(d2, "GET ");
    StartsWithAfterCut(d1, "HEAD ");
    StartsWithAfterCut(d2, "HEAD ");
    var m := ClassifyGetHead(b1);
    if m != Unsupported {
      var start := TokenLength(m);
      AcceptedStartsInside(d1, if m == Get then "GET " else "HEAD ");
      ScanStopsAtNul(b1, start, n - 2, n);
      ScanStopsAtNul(b2, start, n - 2, n);
      ScanIsStrippedTarget(b1, start, n - 2);
      ScanIsStrippedTarget(b2, start, n - 2);
      assert b1[start..n - 2] == b2[start..n - 2] by {
        forall k | start <= k < n - 2
          ensures b1[k] == b2[k]
        {
          assert b1[k] == d1[..n - 2][k];
        }
      }
    }
  }

  /** GET /index.html for a two-byte file "hi": the 200 header with
      Content-Length 2, then exactly "hi". */
  lemma GetIndexScenario(fs: FileSystem)
    requires fs == map["index.html" := "hi"]
    ensures ThreadResponse(17, "GET /index.html\r\n", fs, true, 2) == Closed([OkHeader(2), "hi"])
  {
    var rest := "/index.html\r\n";
    assert rest == ['/'] + "index.html" + ['\r', '\n'];
    assert "GET /index.html\r\n" == "GET " + rest;
    GetRequest(rest, fs, true, 2);
    PlainName("index.html", rest);
  }

  /** HEAD /index.html for the same file: the same header and no body. */
  lemma HeadIndexScenario(fs: FileSystem)
    requires fs == map["index.html" := "hi"]
    ensures ThreadResponse(18, "HEAD /index.html\r\n", fs, true, 2) == Closed([OkHeader(2)])
  {
    var rest := "/index.html\r\n";
    assert rest == ['/'] + "index.html" + ['\r', '\n'];
    assert "HEAD /index.html\r\n" == "HEAD " + rest;
    HeadRequest(rest, fs, true, 2);
    PlainName("index.html", rest);
  }

  /** GET /missing.html when only index.html exists: only the 404 text. */
  lemma MissingScenario(fs: FileSystem, allocOk: bool, readCount: nat)
    requires fs == map["index.html" := "hi"]
    ensures ThreadResponse(19, "GET /missing.html\r\n", fs, allocOk, readCount) == Closed([NotFound])
  {
    var rest := "/missing.html\r\n";
    assert rest == ['/'] + "missing.html" + ['\r', '\n'];
    assert "GET /missing.html\r\n" == "GET " + rest;
    GetRequest(rest, fs, allocOk, readCount);
    PlainName("missing.html", rest);
  }

  /** POST /index.html: the 400 reply. */
  lemma PostScenario(fs: FileSystem, allocOk: bool, readCount: nat)
    ensures ThreadResponse(18, "POST /index.html\r\n", fs, allocOk, readCount) == Closed([BadRequestGetHead])
  {
    var data := "POST /index.html\r\n";
    BadRequestIff(data, fs, allocOk, readCount);
    assert data[..16][0] == 'P';
  }
}
