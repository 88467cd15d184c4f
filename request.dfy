/** Parsing one received request: the receive buffer as the handlers leave it,
    the method token, and the file name scanned out of the target. */
module Request {
  import opened HttpText

  /** Size of the receive buffer in both variants (BUFFER_SIZE). */
  const BufferSize: nat := 1024
  /** Size of the file_name buffer in both variants. */
  const FileNameSize: nat := 100

  datatype Method = Get | Head | Unsupported

  /** A character at which the file-name scan stops. */
  predicate IsTerminator(c: char) {
    c == NUL || c == '\n' || c == ' '
  }

  /** The receive buffer after it is zeroed, filled with the received bytes,
      and cut by the NUL written two bytes before the end of what arrived. */
  function RecvBuffer(data: seq<char>): (b: seq<char>)
    requires 2 <= |data| <= BufferSize
    ensures |b| == BufferSize
    ensures b[|data| - 2] == NUL
    ensures forall k :: 0 <= k < |data| && k != |data| - 2 ==> b[k] == data[k]
    ensures forall k :: |data| <= k < BufferSize ==> b[k] == NUL
  {
    (data + seq(BufferSize - |data|, _ => NUL))[|data| - 2 := NUL]
  }

  /** The thread variant's classification: "GET " or "HEAD " at the front. */
  function ClassifyGetHead(b: seq<char>): (m: Method)
    ensures m == Get <==> StartsWith(b, "GET ")
    ensures m == Head <==> StartsWith(b, "HEAD ")
  {
    GetHeadExclusive(b);
    if StartsWith(b, "GET ") then Get
    else if StartsWith(b, "HEAD ") then Head
    else Unsupported
  }

  /** No buffer starts with both tokens. */
  lemma GetHeadExclusive(b: seq<char>)
    ensures !(StartsWith(b, "GET ") && StartsWith(b, "HEAD "))
  {
    if StartsWith(b, "GET ") && |b| >= 5 {
      assert b[..4][0] == b[0] == b[..5][0];
    }
  }

  /** Length of the method token with its space, where the target begins. */
  function TokenLength(m: Method): nat {
    match m
    case Get => 4
    case Head => 5
    case Unsupported => 0
  }

  /** strlen: the index of the first NUL. */
  function StrLen(s: seq<char>): (n: nat)
    requires NUL in s
    ensures n < |s| && s[n] == NUL
    ensures forall k :: 0 <= k < n ==> s[k] != NUL
  {
    if s[0] == NUL then 0 else 1 + StrLen(s[1..])
  }

  /** The target: everything up to the first NUL, '\n' or space. */
  function Target(s: seq<char>): (t: seq<char>)
    ensures |t| <= |s| && t == s[..|t|]
    ensures forall k :: 0 <= k < |t| ==> !IsTerminator(t[k])
    ensures |t| < |s| ==> IsTerminator(s[|t|])
  {
    if s == [] || IsTerminator(s[0]) then [] else [s[0]] + Target(s[1..])
  }

  /** The target with every '/' removed and every other character kept in order. */
  function StripSlashes(s: seq<char>): (r: seq<char>)
    ensures |r| <= |s|
  {
    if s == [] then [] else (if s[0] == '/' then [] else [s[0]]) + StripSlashes(s[1..])
  }

  /** No '/' survives, so a name can never reach into a subdirectory. */
  lemma {:induction false} StripSlashesNoSlash(s: seq<char>)
    ensures '/' !in StripSlashes(s)
  {
    if s != [] {
      StripSlashesNoSlash(s[1..]);
    }
  }

  /** How many times c occurs in s. */
  function Count(s: seq<char>, c: char): nat {
    if s == [] then 0 else (if s[0] == c then 1 else 0) + Count(s[1..], c)
  }

  /** Exactly the slashes are removed: one character fewer per '/'. */
  lemma {:induction false} StripSlashesLength(s: seq<char>)
    ensures |StripSlashes(s)| == |s| - Count(s, '/')
  {
    if s != [] {
      StripSlashesLength(s[1..]);
    }
  }

  /** Removing slashes distributes over concatenation. */
  lemma {:induction false} StripSlashesAppend(a: seq<char>, b: seq<char>)
    ensures StripSlashes(a + b) == StripSlashes(a) + StripSlashes(b)
  {
    if a != [] {
      var head: seq<char> := if a[0] == '/' then [] else [a[0]];
      assert (a + b)[0] == a[0];
      assert (a + b)[1..] == a[1..] + b;
      assert StripSlashes(a + b) == head + StripSlashes(a[1..] + b);
      StripSlashesAppend(a[1..], b);
      assert StripSlashes(a) == head + StripSlashes(a[1..]);
    } else {
      assert a + b == b;
    }
  }

  /** A name with no slash is left as it is, so stripping twice changes nothing. */
  lemma {:induction false} StripSlashesIdentity(s: seq<char>)
    requires '/' !in s
    ensures StripSlashes(s) == s
  {
    if s != [] {
      StripSlashesIdentity(s[1..]);
      assert [s[0]] + s[1..] == s;
    }
  }

  lemma StripSlashesCons(c: char, s: seq<char>)
    ensures StripSlashes([c] + s) == (if c == '/' then [] else [c]) + StripSlashes(s)
  {
    assert ([c] + s)[1..] == s;
  }

  /** Target "/a/b.html" names the file "ab.html". */
  lemma StripSlashesExample(target: seq<char>)
    requires target == "/a/b.html"
    ensures StripSlashes(target) == "ab.html"
  {
    assert target == (['/'] + "a") + (['/'] + "b.html");
    TwoSegments("a", "b.html");
  }

  /** "/x/y" with slash-free x and y gives x followed by y. */
  lemma TwoSegments(x: seq<char>, y: seq<char>)
    requires '/' !in x && '/' !in y
    ensures StripSlashes((['/'] + x) + (['/'] + y)) == x + y
  {
    var a, b := ['/'] + x, ['/'] + y;
    StripSlashesAppend(a, b);
    StripSlashesCons('/', x);
    StripSlashesIdentity(x);
    assert StripSlashes(a) == x;
    StripSlashesCons('/', y);
    StripSlashesIdentity(y);
    assert StripSlashes(b) == y;
  }

  /** The handlers' name loop, as a function: scan b from i while i < limit,
      stop at a terminator, skip '/', copy every other character. */
  function ScanName(b: seq<char>, i: nat, limit: nat): seq<char>
    requires limit <= |b|
    decreases limit - i
  {
    if i >= limit || IsTerminator(b[i]) then []
    else if b[i] == '/' then ScanName(b, i + 1, limit)
    else [b[i]] + ScanName(b, i + 1, limit)
  }

  /** The loop yields the target between i and limit with its slashes removed. */
  lemma {:induction false} ScanIsStrippedTarget(b: seq<char>, i: nat, limit: nat)
    requires i <= limit <= |b|
    ensures ScanName(b, i, limit) == StripSlashes(Target(b[i..limit]))
    decreases limit - i
  {
    if i < limit && !IsTerminator(b[i]) {
      var s := b[i..limit];
      assert s[0] == b[i] && s[1..] == b[i + 1..limit];
      ScanIsStrippedTarget(b, i + 1, limit);
      var t := Target(s[1..]);
      assert Target(s) == [b[i]] + t;
      assert ([b[i]] + t)[1..] == t;
    }
  }

  /** A file name that reaches the file system never holds a '/'. */
  lemma ScannedNameHasNoSlash(b: seq<char>, start: nat, limit: nat)
    requires start <= limit <= |b|
    ensures '/' !in ScanName(b, start, limit)
  {
    ScanIsStrippedTarget(b, start, limit);
    StripSlashesNoSlash(Target(b[start..limit]));
  }

  /** A NUL at p ends the scan there, whatever the limit beyond it. */
  lemma {:induction false} ScanStopsAtNul(b: seq<char>, i: nat, p: nat, limit: nat)
    requires i <= p < limit <= |b| && b[p] == NUL
    ensures ScanName(b, i, limit) == ScanName(b, i, p)
    decreases p - i
  {
    if i < p && !IsTerminator(b[i]) {
      ScanStopsAtNul(b, i + 1, p, limit);
    }
  }

  /** A NUL at p cuts the target there. */
  lemma {:induction false} TargetStopsAtNul(s: seq<char>, p: nat)
    requires p < |s| && s[p] == NUL
    ensures Target(s) == Target(s[..p])
  {
    if p > 0 && !IsTerminator(s[0]) {
      assert s[1..][..p - 1] == s[..p][1..];
      TargetStopsAtNul(s[1..], p - 1);
    }
  }

  /** The file name a request yields from the bytes after its method token:
      all but the last two of them, cut at the first terminator, with the
      slashes removed. */
  function RequestedName(rest: seq<char>): (name: seq<char>)
    requires |rest| >= 2
    ensures '/' !in name
    ensures |name| <= |rest| - 2
  {
    StripSlashesNoSlash(Target(rest[..|rest| - 2]));
    StripSlashes(Target(rest[..|rest| - 2]))
  }

  /** A target free of terminators is kept whole. */
  lemma {:induction false} TargetNoTerminator(s: seq<char>)
    requires forall k :: 0 <= k < |s| ==> !IsTerminator(s[k])
    ensures Target(s) == s
  {
    if s != [] {
      TargetNoTerminator(s[1..]);
      assert [s[0]] + s[1..] == s;
    }
  }

  /** The bytes "/" + name + "\r\n" after the token name the file name. */
  lemma PlainName(name: seq<char>, rest: seq<char>)
    requires '/' !in name
    requires forall k :: 0 <= k < |name| ==> !IsTerminator(name[k])
    requires rest == ['/'] + name + ['\r', '\n']
    ensures RequestedName(rest) == name
  {
    var t := ['/'] + name;
    assert rest[..|rest| - 2] == t;
    forall k | 0 <= k < |t|
      ensures !IsTerminator(t[k])
    {
      if k > 0 {
        assert t[k] == name[k - 1];
      }
    }
    TargetNoTerminator(t);
    StripSlashesCons('/', name);
    StripSlashesIdentity(name);
  }

  /** For bytes `token + rest`, the scan from just after the token up to the
      received length yields RequestedName(rest). */
  lemma ScanOfRequest(token: seq<char>, rest: seq<char>)
    requires |rest| >= 2 && |token| + |rest| <= BufferSize
    ensures ScanName(RecvBuffer(token + rest), |token|, |token| + |rest|) == RequestedName(rest)
  {
    var b := RecvBuffer(token + rest);
    var cut := |token| + |rest| - 2;
    CutSlice(token, rest);
    ScanStopsAtNul(b, |token|, cut, |token| + |rest|);
    ScanIsStrippedTarget(b, |token|, cut);
  }

  /** Between the token and the cut, the buffer holds the rest unchanged. */
  lemma CutSlice(token: seq<char>, rest: seq<char>)
    requires |rest| >= 2 && |token| + |rest| <= BufferSize
    ensures var b := RecvBuffer(token + rest);
            && b[|token| + |rest| - 2] == NUL
            && b[|token|..|token| + |rest| - 2] == rest[..|rest| - 2]
  {
    var data := token + rest;
    var b := RecvBuffer(data);
    var cut := |rest| - 2;
    forall k | 0 <= k < cut
      ensures b[|token|..|token| + cut][k] == rest[k]
    {
      assert b[|token| + k] == data[|token| + k];
    }
  }

  /** A request is accepted only when the NUL written at recvLen - 2 lies past
      the token, so the scan starts inside the received bytes. */
  lemma AcceptedStartsInside(data: seq<char>, token: seq<char>)
    requires 2 <= |data| <= BufferSize
    requires NUL !in token
    requires StartsWith(RecvBuffer(data), token)
    ensures |token| <= |data| - 2
  {
  }

  /** The cut buffer starts with a token exactly when the received bytes
      that survive the cut (all but the last two) start with it. */
  lemma StartsWithAfterCut(data: seq<char>, token: seq<char>)
    requires 2 <= |data| <= BufferSize
    requires NUL !in token
    ensures StartsWith(RecvBuffer(data), token) <==> StartsWith(data[..|data| - 2], token)
  {
    var b := RecvBuffer(data);
    if StartsWith(b, token) {
      AcceptedStartsInside(data, token);
      assert b[..|token|] == data[..|data| - 2][..|token|];
    }
  }

  /** The name loop of both handlers, run over the receive buffer from start
      while below limit, copying into a fresh file_name[100]. overflow reports
      that the loop or the terminating NUL would write at or past its end. */
  method CopyFileName(buffer: array<char>, start: nat, limit: nat) returns (name: seq<char>, overflow: bool)
    requires limit <= buffer.Length
    ensures overflow <==> |ScanName(buffer[..], start, limit)| >= FileNameSize
    ensures !overflow ==> name == ScanName(buffer[..], start, limit)
  {
    var fileName := new char[FileNameSize];
    var i, j := start, 0;
    while i < limit
      invariant start <= i && (i <= limit || i == start)
      invariant 0 <= j <= FileNameSize
      invariant fileName[..j] + ScanName(buffer[..], i, limit) == ScanName(buffer[..], start, limit)
    {
      if buffer[i] == NUL || buffer[i] == '\n' || buffer[i] == ' ' {
        break;
      } else if buffer[i] == '/' {
        j := j - 1;
      } else {
        if j >= FileNameSize {
          return [], true;
        }
        fileName[j] := buffer[i];
      }
      i, j := i + 1, j + 1;
    }
    if j >= FileNameSize {
      return [], true;
    }
    name := fileName[..j];
    fileName[j] := NUL;
    overflow := false;
  }
}
