/** The replies both handlers send and the files they serve. A 200 header is
    also given as a value (status line and fields) with a renderer and its
    inverse, a parser, so that what a client reads from the header can be
    stated field by field. */
module Response {
  import opened HttpText

  /** The serving directory: a regular file's name and its bytes. */
  type FileSystem = map<string, seq<char>>

  /** fopen(name, "r"): the contents when the file exists; the empty name
      never opens. */
  function Open(fs: FileSystem, name: string): Option<seq<char>> {
    if name != "" && name in fs then Some(fs[name]) else None
  }

  datatype Field = Field(name: string, value: string)
  datatype Header = Header(status: string, fields: seq<Field>)

  function FieldLine(f: Field): string {
    f.name + ": " + f.value
  }

  function RenderFields(fields: seq<Field>): string {
    if fields == [] then "" else FieldLine(fields[0]) + "\n" + RenderFields(fields[1..])
  }

  /** A header as sent: the status line, one line per field, a blank line. */
  function Render(h: Header): string {
    h.status + "\n" + RenderFields(h.fields) + "\n"
  }

  /** Index of the first c in s, or |s| when there is none. */
  function IndexOf(s: string, c: char): (k: nat)
    ensures k <= |s|
    ensures k < |s| ==> s[k] == c
    ensures forall j :: 0 <= j < k ==> s[j] != c
  {
    if s == [] || s[0] == c then 0 else 1 + IndexOf(s[1..], c)
  }

  /** Reads "<name>: <value>"; the name ends at the first ':'. */
  function ParseField(line: string): Option<Field> {
    var k := IndexOf(line, ':');
    if k + 1 < |line| && line[k + 1] == ' ' then Some(Field(line[..k], line[k + 2..])) else None
  }

  function ParseFields(lines: seq<string>): Option<seq<Field>> {
    if lines == [] then Some([])
    else match (ParseField(lines[0]), ParseFields(lines[1..]))
      case (Some(f), Some(rest)) => Some([f] + rest)
      case _ => None
  }

  /** Reads a header: a status line, field lines, and a blank line that ends
      the text. */
  function ParseHeader(text: string): Option<Header> {
    var lines := SplitLines(text);
    if |lines| >= 3 && lines[|lines| - 2] == "" && lines[|lines| - 1] == "" then
      match ParseFields(lines[1..|lines| - 2])
      case Some(fields) => Some(Header(lines[0], fields))
      case None => None
    else None
  }

  predicate WellFormedField(f: Field) {
    f.name != "" && ':' !in f.name && '\n' !in f.name && '\n' !in f.value
  }

  /** A header the renderer can write unambiguously. */
  predicate WellFormed(h: Header) {
    '\n' !in h.status && forall k :: 0 <= k < |h.fields| ==> WellFormedField(h.fields[k])
  }

  function FieldLines(fields: seq<Field>): (lines: seq<string>)
    ensures |lines| == |fields|
  {
    if fields == [] then [] else [FieldLine(fields[0])] + FieldLines(fields[1..])
  }

  /** The value of the first field with the given name. */
  function FieldValue(fields: seq<Field>, name: string): Option<string> {
    if fields == [] then None
    else if fields[0].name == name then Some(fields[0].value)
    else FieldValue(fields[1..], name)
  }

  /** The Content-Length a client reads from a header. */
  function ContentLength(h: Header): Option<nat> {
    match FieldValue(h.fields, "Content-Length")
    case Some(v) => ParseDecimal(v)
    case None => None
  }

  lemma {:induction false} IndexOfAppend(a: string, b: string, c: char)
    requires c !in a
    ensures IndexOf(a + b, c) == |a| + IndexOf(b, c)
  {
    if a != [] {
      assert (a + b)[0] == a[0];
      assert (a + b)[1..] == a[1..] + b;
      IndexOfAppend(a[1..], b, c);
    } else {
      assert a + b == b;
    }
  }

  lemma FieldRoundTrip(f: Field)
    requires WellFormedField(f)
    ensures ParseField(FieldLine(f)) == Some(f)
  {
    var line := FieldLine(f);
    assert line == f.name + (": " + f.value);
    IndexOfAppend(f.name, ": " + f.value, ':');
    assert line[..|f.name|] == f.name;
    assert line[|f.name| + 2..] == f.value;
  }

  lemma {:induction false} FieldsRoundTrip(fields: seq<Field>)
    requires forall k :: 0 <= k < |fields| ==> WellFormedField(fields[k])
    ensures ParseFields(FieldLines(fields)) == Some(fields)
  {
    if fields != [] {
      var lines := FieldLines(fields);
      assert lines[0] == FieldLine(fields[0]);
      assert lines[1..] == FieldLines(fields[1..]);
      FieldRoundTrip(fields[0]);
      FieldsRoundTrip(fields[1..]);
      assert [fields[0]] + fields[1..] == fields;
    }
  }

  lemma NoNewlineInFieldLine(f: Field)
    requires WellFormedField(f)
    ensures '\n' !in FieldLine(f)
  {
  }

  lemma {:induction false} SplitRenderedFields(fields: seq<Field>)
    requires forall k :: 0 <= k < |fields| ==> WellFormedField(fields[k])
    ensures SplitLines(RenderFields(fields) + "\n") == FieldLines(fields) + ["", ""]
  {
    if fields == [] {
      SplitAfterLine("", "");
      assert RenderFields(fields) + "\n" == "" + "\n" + "";
    } else {
      var line := FieldLine(fields[0]);
      NoNewlineInFieldLine(fields[0]);
      var rest := RenderFields(fields[1..]) + "\n";
      assert RenderFields(fields) + "\n" == line + "\n" + rest;
      SplitAfterLine(line, rest);
      SplitRenderedFields(fields[1..]);
      assert FieldLines(fields) == [line] + FieldLines(fields[1..]);
    }
  }

  /** Parsing a rendered header gives the header back. */
  lemma HeaderRoundTrip(h: Header)
    requires WellFormed(h)
    ensures ParseHeader(Render(h)) == Some(h)
  {
    var tail := RenderFields(h.fields) + "\n";
    assert Render(h) == h.status + "\n" + tail;
    SplitAfterLine(h.status, tail);
    SplitRenderedFields(h.fields);
    var lines := SplitLines(Render(h));
    assert lines == [h.status] + (FieldLines(h.fields) + ["", ""]);
    assert lines[1..|lines| - 2] == FieldLines(h.fields);
    FieldsRoundTrip(h.fields);
  }

  const StatusOk: string := "HTTP/1.1 200 OK"
  const StatusNotFound: string := "HTTP/1.1 404 Not Found"
  const StatusBadRequest: string := "HTTP/1.1 400 Bad Request"

  const NotFound: string := "HTTP/1.1 404 Not Found\n\n"
  const BadRequestGetHead: string := "HTTP/1.1 400 Bad Request\n\n" + "Invalid Command. Please use GET or HEAD.\n"
  const BadRequestGetOnly: string := "HTTP/1.1 400 Bad Request\n\n" + "Invalid Command. Use: GET <filename>\n"

  /** The part both 200 headers share, after their first lines: the
      Content-Length line with %d filled by the size, then Connection and
      Content-Type and the blank line. */
  function OkFieldsText(size: nat): string {
    "Content-Length: " + Decimal(size) + "\n" + "Connection: close\n" + "Content-Type: text/html\n\n"
  }

  /** The thread variant's 200 header, as its snprintf writes it. */
  function OkHeader(size: nat): string {
    "HTTP/1.1 200 OK\n" + OkFieldsText(size)
  }

  /** The fork variant's 200 header, with the date as strftime wrote it. */
  function OkHeaderDated(date: string, size: nat): string {
    "HTTP/1.1 200 OK\n" + "Date: " + date + "\n" + OkFieldsText(size)
  }

  function OkFields(size: nat): seq<Field> {
    [Field("Content-Length", Decimal(size)), Field("Connection", "close"), Field("Content-Type", "text/html")]
  }

  lemma RenderFieldsCons(f: Field, rest: seq<Field>)
    ensures RenderFields([f] + rest) == FieldLine(f) + "\n" + RenderFields(rest)
  {
    assert ([f] + rest)[1..] == rest;
  }

  lemma OkFieldsRendered(size: nat)
    ensures RenderFields(OkFields(size)) + "\n" == OkFieldsText(size)
  {
    var a, b, c := Field("Content-Length", Decimal(size)), Field("Connection", "close"), Field("Content-Type", "text/html");
    assert OkFields(size) == [a] + ([b] + ([c] + []));
    RenderFieldsCons(c, []);
    RenderFieldsCons(b, [c] + []);
    RenderFieldsCons(a, [b] + ([c] + []));
    assert FieldLine(b) + "\n" == "Connection: close\n";
    assert FieldLine(c) + "\n" + "" + "\n" == "Content-Type: text/html\n\n";
  }

  lemma OkHeaderRendered(size: nat)
    ensures OkHeader(size) == Render(Header(StatusOk, OkFields(size)))
  {
    OkFieldsRendered(size);
    assert "HTTP/1.1 200 OK\n" == StatusOk + "\n";
  }

  lemma OkHeaderDatedRendered(date: string, size: nat)
    ensures OkHeaderDated(date, size) == Render(Header(StatusOk, [Field("Date", date)] + OkFields(size)))
  {
    OkFieldsRendered(size);
    RenderFieldsCons(Field("Date", date), OkFields(size));
    assert "HTTP/1.1 200 OK\n" == StatusOk + "\n";
  }

  lemma DecimalHasNoNewline(n: nat)
    ensures '\n' !in Decimal(n) && NUL !in Decimal(n)
  {
  }

  lemma ContentLengthFieldWellFormed(size: nat)
    ensures WellFormedField(Field("Content-Length", Decimal(size)))
  {
    DecimalHasNoNewline(size);
  }

  lemma FixedFieldsWellFormed()
    ensures WellFormedField(Field("Connection", "close"))
    ensures WellFormedField(Field("Content-Type", "text/html"))
  {
  }

  lemma DateFieldWellFormed(date: string)
    requires '\n' !in date
    ensures WellFormedField(Field("Date", date))
  {
  }

  lemma StatusOkWellFormed()
    ensures '\n' !in StatusOk
  {
  }

  lemma OkFieldsWellFormed(date: string, size: nat)
    requires '\n' !in date
    ensures WellFormed(Header(StatusOk, OkFields(size)))
    ensures WellFormed(Header(StatusOk, [Field("Date", date)] + OkFields(size)))
  {
    StatusOkWellFormed();
    ContentLengthFieldWellFormed(size);
    FixedFieldsWellFormed();
    DateFieldWellFormed(date);
    var f := OkFields(size);
    var g := [Field("Date", date)] + f;
    forall k | 0 <= k < |f|
      ensures WellFormedField(f[k]) && WellFormedField(g[k + 1])
    {
      assert g[k + 1] == f[k];
    }
    forall k | 0 <= k < |g|
      ensures WellFormedField(g[k])
    {
      if k > 0 {
        assert g[k] == f[k - 1];
      }
    }
  }

  lemma OkFieldsContentLength(date: string, size: nat)
    ensures ContentLength(Header(StatusOk, OkFields(size))) == Some(size)
    ensures ContentLength(Header(StatusOk, [Field("Date", date)] + OkFields(size))) == Some(size)
    ensures FieldValue([Field("Date", date)] + OkFields(size), "Date") == Some(date)
  {
    DecimalRoundTrip(size);
    var fields := [Field("Date", date)] + OkFields(size);
    assert fields[1..] == OkFields(size);
    assert "Date" != "Content-Length";
  }

  /** The thread variant's 200 header reads back as the 200 status line and
      the fields Content-Length, Connection and Content-Type, in that order,
      with the size as the Content-Length. */
  lemma OkHeaderReadBack(size: nat)
    ensures ParseHeader(OkHeader(size)) == Some(Header(StatusOk,
              [Field("Content-Length", Decimal(size)), Field("Connection", "close"), Field("Content-Type", "text/html")]))
    ensures ContentLength(ParseHeader(OkHeader(size)).value) == Some(size)
  {
    OkHeaderRendered(size);
    OkFieldsWellFormed("", size);
    HeaderRoundTrip(Header(StatusOk, OkFields(size)));
    OkFieldsContentLength("", size);
  }

  /** The fork variant's 200 header reads back as the 200 status line and
      the fields Date, Content-Length, Connection and Content-Type, in that
      order, with the date given and the size as the Content-Length. */
  lemma OkHeaderDatedReadBack(date: string, size: nat)
    requires '\n' !in date
    ensures ParseHeader(OkHeaderDated(date, size)) == Some(Header(StatusOk,
              [Field("Date", date), Field("Content-Length", Decimal(size)), Field("Connection", "close"),
               Field("Content-Type", "text/html")]))
    ensures FieldValue(ParseHeader(OkHeaderDated(date, size)).value.fields, "Date") == Some(date)
    ensures ContentLength(ParseHeader(OkHeaderDated(date, size)).value) == Some(size)
  {
    var fields := [Field("Date", date)] + OkFields(size);
    OkHeaderDatedRendered(date, size);
    OkFieldsWellFormed(date, size);
    HeaderRoundTrip(Header(StatusOk, fields));
    OkFieldsContentLength(date, size);
    assert fields == [Field("Date", date), Field("Content-Length", Decimal(size)), Field("Connection", "close"),
                      Field("Content-Type", "text/html")];
  }

  /** The error replies are bare headers: 404 with no body, 400 followed by
      the usage text. */
  lemma ErrorReplies()
    ensures NotFound == Render(Header(StatusNotFound, []))
    ensures BadRequestGetHead == Render(Header(StatusBadRequest, [])) + "Invalid Command. Please use GET or HEAD.\n"
    ensures BadRequestGetOnly == Render(Header(StatusBadRequest, [])) + "Invalid Command. Use: GET <filename>\n"
  {
  }

  /** strlen of the thread variant's header is its length: it holds no NUL. */
  lemma OkHeaderNoNul(size: nat)
    ensures NUL !in OkHeader(size)
  {
    DecimalHasNoNewline(size);
  }

  /** strlen of the dated header is its length: it holds no NUL. */
  lemma OkHeaderDatedNoNul(date: string, size: nat)
    requires NUL !in date
    ensures NUL !in OkHeaderDated(date, size)
  {
    DecimalHasNoNewline(size);
  }

  /** The three kinds of reply differ already in their status code. */
  lemma RepliesDiffer(size: nat, date: string)
    ensures BadRequestGetHead != NotFound && BadRequestGetHead != OkHeader(size)
    ensures BadRequestGetOnly != NotFound && BadRequestGetOnly != OkHeaderDated(date, size)
    ensures NotFound != OkHeader(size) && NotFound != OkHeaderDated(date, size)
  {
    assert BadRequestGetHead[11] == '0' && NotFound[11] == '4';
    assert BadRequestGetOnly[11] == '0';
    assert OkHeader(size)[9] == '2' && OkHeaderDated(date, size)[9] == '2';
    assert BadRequestGetHead[9] == '4' && BadRequestGetOnly[9] == '4' && NotFound[9] == '4';
  }
}
