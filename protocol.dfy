/** The per-connection request handler as a function: given the served tree,
    the lines the client sends and whether the file system lets a delete
    succeed, what the handler leaves in the tree, what it writes, what it
    leaves unread, and whether it ends normally or by an uncaught exception. */
module Protocol {

  import opened Wrappers
  import opened Text
  import opened Wire
  import opened Mime
  import opened Request

  /** `Directory_Path`, the directory request paths are appended to. */
  const Base: string := "/Users/phyll/Documents/info314-assignments/HTTPServer"

  /** The file a request path addresses: the base directory and the path,
      concatenated as they are. */
  function FullPath(path: string): (r: string)
    ensures |r| == |Base| + |path| && r[..|Base|] == Base && r[|Base|..] == path
  {
    Base + path
  }

  /** Two request paths address the same file exactly when they are the same
      string. */
  lemma FullPathInjective(p: string, q: string)
    ensures FullPath(p) == FullPath(q) <==> p == q
  {
    if FullPath(p) == FullPath(q) {
      assert p == FullPath(p)[|Base|..];
    }
  }

  /** The served tree: the regular files with their contents, and the
      directories, both by full path. */
  datatype Store = Store(files: map<string, string>, dirs: set<string>) {

    /** No name is both a regular file and a directory. */
    predicate Valid()
    {
      files.Keys !! dirs
    }

    /** `File.exists` */
    predicate Exists(p: string)
    {
      p in files || p in dirs
    }

    /** `File.isDirectory` */
    predicate IsDirectory(p: string)
    {
      p in dirs
    }
  }

  /** The exceptions that escape the handler: reading past the end of a split
      result, and `sendErrorResponse` refusing a status code. */
  datatype Fault = IndexOutOfBounds | IllegalStatus(code: int)

  datatype Outcome = Completed | Crashed(fault: Fault)

  /** One connection's effect: the tree afterwards, the characters written, the
      input lines not read, and how the handler ended. */
  datatype Exchange = Exchange(store: Store, written: string, unread: seq<string>, outcome: Outcome)

  /** The two trees have the same directories and differ at most in the
      regular file `p`. */
  predicate SameExcept(a: Store, b: Store, p: string)
  {
    a.dirs == b.dirs && a.files - {p} == b.files - {p}
  }

  /** `sendErrorResponse`: the error response, or an `IllegalArgumentException`
      before anything is written when the code has no case. */
  function SendError(st: Store, code: int, message: Option<string>, unread: seq<string>): (x: Exchange)
    ensures x.store == st && x.unread == unread
    ensures x.outcome.Completed? <==> code in {400, 404, 405, 500, 505}
    ensures x.outcome.Crashed? ==> x.written == ""
  {
    match ErrorResponse(code, message)
    case None => Exchange(st, "", unread, Crashed(IllegalStatus(code)))
    case Some(r) => Exchange(st, Render(r), unread, Completed)
  }

  /** `handleGet` (with the content) and `handleHead` (without): 200 with type
      and length for a regular file, 404 otherwise; never changes the tree and
      reads nothing further. */
  function Retrieve(st: Store, path: string, withBody: bool, lines: seq<string>): (x: Exchange)
    ensures x.store == st && x.unread == lines
    ensures x.outcome.Crashed? ==> x.written == ""
  {
    var p := FullPath(path);
    if st.Exists(p) && !st.IsDirectory(p) then
      match ContentType(FileName(p))
      case None => Exchange(st, "", lines, Crashed(IndexOutOfBounds))
      case Some(mimeType) => Exchange(st, Render(FileResponse(mimeType, st.files[p], withBody)), lines, Completed)
    else SendError(st, 404, Some("Not Found"), lines)
  }

  /** `if (!file.exists()) file.createNewFile()`: an empty regular file where
      nothing was. */
  function CreateIfMissing(st: Store, p: string): (r: Store)
    ensures SameExcept(st, r, p) && r.Exists(p)
    ensures r.IsDirectory(p) == st.IsDirectory(p)
    ensures st.Valid() ==> r.Valid()
    ensures p in st.files ==> p in r.files && r.files[p] == st.files[p]
    ensures !st.Exists(p) ==> p in r.files && r.files[p] == ""
  {
    if st.Exists(p) then st else st.(files := st.files[p := ""])
  }

  /** `Files.write`: the regular file `p` holds `data` afterwards. */
  function WriteFile(st: Store, p: string, data: string): (r: Store)
    ensures SameExcept(st, r, p) && p in r.files && r.files[p] == data
    ensures st.Valid() && !st.IsDirectory(p) ==> r.Valid()
  {
    st.(files := st.files[p := data])
  }

  /** `handlePost`: nothing at all unless the path ends in ".txt"; otherwise
      read the body, create the file if nothing is there, and append the body
      to a regular file (200) or answer 404 for a directory. */
  function Post(st: Store, path: string, lines: seq<string>): (x: Exchange)
    ensures SameExcept(st, x.store, FullPath(path))
    ensures st.Valid() ==> x.store.Valid()
    ensures x.unread == lines || x.unread == AfterBody(lines)
    ensures x.outcome == Completed
  {
    if !EndsWith(path, ".txt") then Exchange(st, "", lines, Completed)
    else
      var body := BodyText(lines);
      var p := FullPath(path);
      var created := CreateIfMissing(st, p);
      if created.Exists(p) && !created.IsDirectory(p) then
        Exchange(WriteFile(created, p, created.files[p] + body), Render(OkResponse()), AfterBody(lines), Completed)
      else SendError(created, 404, Some("Not Found"), AfterBody(lines))
  }

  /** `handlePut`: like POST but the body replaces the content, and a path not
      ending in ".txt" goes to `sendErrorResponse(output, 415)`. */
  function Put(st: Store, path: string, lines: seq<string>): (x: Exchange)
    ensures SameExcept(st, x.store, FullPath(path))
    ensures st.Valid() ==> x.store.Valid()
    ensures x.unread == lines || x.unread == AfterBody(lines)
    ensures x.outcome.Crashed? ==> x.written == "" && x.store == st
  {
    if !EndsWith(path, ".txt") then SendError(st, 415, None, lines)
    else
      var body := BodyText(lines);
      var p := FullPath(path);
      var created := CreateIfMissing(st, p);
      if created.Exists(p) && !created.IsDirectory(p) then
        Exchange(WriteFile(created, p, body), Render(OkResponse()), AfterBody(lines), Completed)
      else SendError(created, 404, Some("Not Found"), AfterBody(lines))
  }

  /** `handleDelete`: for a regular file, 200 and the file gone when the file
      system's delete succeeds, 500 and the file kept when it does not; 404
      for anything else. */
  function Delete(st: Store, path: string, lines: seq<string>, deleteSucceeds: bool): (x: Exchange)
    ensures x.store.dirs == st.dirs
    ensures x.store.files == st.files || x.store.files == st.files - {FullPath(path)}
    ensures SameExcept(st, x.store, FullPath(path))
    ensures st.Valid() ==> x.store.Valid()
    ensures x.outcome == Completed && x.unread == lines
  {
    var p := FullPath(path);
    if st.Exists(p) && !st.IsDirectory(p) then
      if deleteSucceeds then
        Exchange(st.(files := st.files - {p}), Render(OkResponse()), lines, Completed)
      else SendError(st, 500, Some("Internal Server Error"), lines)
    else SendError(st, 404, Some("Not Found"), lines)
  }

  /** `handleOptions` */
  function Options(st: Store, lines: seq<string>): (x: Exchange)
    ensures x.store == st && x.unread == lines && x.outcome == Completed
  {
    Exchange(st, Render(OptionsResponse()), lines, Completed)
  }

  /** What `handleOptions` writes: the status line, the Allow header and the
      blank line. */
  lemma OptionsWrites(st: Store, lines: seq<string>)
    ensures Options(st, lines)
         == Exchange(st, "HTTP/1.1 200 OK\r\n" + ("Allow: " + AllowedMethods + "\r\n") + "\r\n", lines, Completed)
  {
    OptionsText();
  }

  /** The `switch` on the method token. */
  function Dispatch(st: Store, m: Method, path: string, lines: seq<string>, deleteSucceeds: bool): (x: Exchange)
    ensures x.unread == lines || x.unread == AfterBody(lines)
    ensures SameExcept(st, x.store, FullPath(path))
    ensures st.Valid() ==> x.store.Valid()
    ensures x.outcome.Crashed? ==> x.written == "" && x.store == st
  {
    match m
    case Get => Retrieve(st, path, true, lines)
    case Post => Post(st, path, lines)
    case Put => Put(st, path, lines)
    case Delete => Delete(st, path, lines, deleteSucceeds)
    case Options => Options(st, lines)
    case Head => Retrieve(st, path, false, lines)
    case Unsupported(_) => SendError(st, 405, Some("Method Not Allowed"), lines)
  }

  /** `HttpRequestHandler.run`: 400 when the client sends nothing, a fault when
      the request line has fewer than three tokens, 505 for any version but
      HTTP/1.1, and otherwise the handler of the method. */
  function Serve(st: Store, lines: seq<string>, deleteSucceeds: bool): (x: Exchange)
    ensures st.Valid() ==> x.store.Valid()
    ensures x.outcome.Crashed? ==> x.written == "" && x.store == st
    ensures |x.unread| <= |lines|
    ensures lines != [] ==> |x.unread| < |lines|
    ensures match (if lines == [] then None else ParseRequestLine(lines[0]))
              case None => x.store == st
              case Some(r) => SameExcept(st, x.store, FullPath(r.path))
  {
    if |lines| == 0 then SendError(st, 400, Some("Bad Request"), [])
    else match ParseRequestLine(lines[0])
      case None => Exchange(st, "", lines[1..], Crashed(IndexOutOfBounds))
      case Some(r) =>
        if r.version != Version then SendError(st, 505, Some("HTTP Version Not Supported"), lines[1..])
        else Dispatch(st, MethodOf(r.verb), r.path, lines[1..], deleteSucceeds)
  }

  /** The handler reads its input in order: what it leaves unread is the tail
      of what the client sent. */
  lemma ServeReadsInOrder(st: Store, lines: seq<string>, deleteSucceeds: bool)
    ensures var x := Serve(st, lines, deleteSucceeds);
      x.unread == lines[|lines| - |x.unread|..]
  {
    if |lines| > 0 {
      var rest := lines[1..];
      var x := Serve(st, lines, deleteSucceeds);
      AfterBodySuffix(rest);
      assert x.unread == rest || x.unread == AfterBody(rest) || x.unread == [];
      var k := |rest| - |x.unread|;
      assert rest[k..] == lines[k + 1..];
    }
  }

  /** A request line as a client sends it for HTTP/1.1. */
  function RequestText(verb: string, path: string): string
  {
    verb + " " + path + " " + Version
  }

  /** The client's first line reads as `verb path HTTP/1.1`. */
  predicate Asks(lines: seq<string>, verb: string, path: string)
  {
    |lines| > 0 && ParseRequestLine(lines[0]) == Some(RequestLine(verb, path, Version))
  }

  /** The line a client writes for a method and a path without spaces reads
      back as that method and path. */
  lemma RequestTextAsks(verb: string, path: string, rest: seq<string>)
    requires ' ' !in verb && ' ' !in path
    ensures Asks([RequestText(verb, path)] + rest, verb, path)
    ensures ([RequestText(verb, path)] + rest)[1..] == rest
  {
    ParseThreeTokens(verb, path, Version);
    assert ([RequestText(verb, path)] + rest)[1..] == rest;
  }

  /** A request line naming one of the six methods hands the lines after it to
      that method's handler. */
  lemma ServeMethod(st: Store, m: Method, path: string, lines: seq<string>, deleteSucceeds: bool)
    requires !m.Unsupported? && Asks(lines, Token(m), path)
    ensures Serve(st, lines, deleteSucceeds) == Dispatch(st, m, path, lines[1..], deleteSucceeds)
  {
    MethodOfToken(m);
  }

  /** End of stream before a request line: exactly the 400 response. */
  lemma NoRequestLine(st: Store, deleteSucceeds: bool)
    ensures Serve(st, [], deleteSucceeds)
         == Exchange(st, "HTTP/1.1 400 Bad Request\r\n\r\nBad Request\r\n", [], Completed)
  {
    BadRequestText();
  }

  /** A request line with fewer than three space-separated tokens (an empty line,
      a line of spaces, a line with two tokens) ends the handler with an index
      fault before anything is written or changed. */
  lemma ShortRequestLine(st: Store, lines: seq<string>, deleteSucceeds: bool)
    requires |lines| > 0 && |Split(lines[0], ' ')| < 3
    ensures Serve(st, lines, deleteSucceeds) == Exchange(st, "", lines[1..], Crashed(IndexOutOfBounds))
  {
  }

  /** In particular an empty request line faults; it does not get 400. */
  lemma EmptyRequestLine(st: Store, lines: seq<string>, deleteSucceeds: bool)
    requires |lines| > 0 && lines[0] == ""
    ensures Serve(st, lines, deleteSucceeds) == Exchange(st, "", lines[1..], Crashed(IndexOutOfBounds))
  {
    BlankRequestLine("");
  }

  /** Any version token other than exactly HTTP/1.1: the 505 response, before
      any method handler runs, with the tree unchanged. */
  lemma WrongVersion(st: Store, lines: seq<string>, deleteSucceeds: bool)
    requires |lines| > 0 && ParseRequestLine(lines[0]).Some? && ParseRequestLine(lines[0]).value.version != Version
    ensures var x := Serve(st, lines, deleteSucceeds);
      && x.store == st && x.unread == lines[1..] && x.outcome == Completed
      && x.written == Render(ErrorResponse(505, Some("HTTP Version Not Supported")).value)
      && ParseResponse(x.written)
         == Some(Response(505, "HTTP Version Not Supported", [], "HTTP Version Not Supported" + CRLF))
  {
    assert Serve(st, lines, deleteSucceeds) == SendError(st, 505, Some("HTTP Version Not Supported"), lines[1..]);
    ErrorResponseReads(505, Some("HTTP Version Not Supported"));
  }

  /** A method token other than the six exact, case-sensitive names: the 405
      response and no change. */
  lemma UnknownMethod(st: Store, lines: seq<string>, verb: string, path: string, deleteSucceeds: bool)
    requires Asks(lines, verb, path)
    requires verb !in {"GET", "POST", "PUT", "DELETE", "OPTIONS", "HEAD"}
    ensures var x := Serve(st, lines, deleteSucceeds);
      && x.store == st && x.unread == lines[1..] && x.outcome == Completed
      && x.written == Render(ErrorResponse(405, Some("Method Not Allowed")).value)
      && ParseResponse(x.written) == Some(Response(405, "Method Not Allowed", [], "Method Not Allowed" + CRLF))
  {
    ErrorResponseReads(405, Some("Method Not Allowed"));
  }

  /** OPTIONS answers the same on every path and every tree. */
  lemma OptionsAnyPath(st: Store, lines: seq<string>, path: string, deleteSucceeds: bool)
    requires Asks(lines, "OPTIONS", path)
    ensures Serve(st, lines, deleteSucceeds)
         == Exchange(st, "HTTP/1.1 200 OK\r\n" + ("Allow: " + AllowedMethods + "\r\n") + "\r\n",
                     lines[1..], Completed)
  {
    ServeMethod(st, Method.Options, path, lines, deleteSucceeds);
    OptionsText();
  }

  /** The content a path holds, empty when it holds none. */
  function ContentOr(st: Store, p: string): string
  {
    if p in st.files then st.files[p] else ""
  }

  /** POST to a ".txt" path that is not a directory appends the body to what
      the file held (nothing if it was absent), answers 200 and touches no
      other file. */
  lemma PostAppends(st: Store, lines: seq<string>, path: string, deleteSucceeds: bool)
    requires Asks(lines, "POST", path) && EndsWith(path, ".txt") && !st.IsDirectory(FullPath(path))
    ensures var p := FullPath(path);
      var x := Serve(st, lines, deleteSucceeds);
      && x.store == Store(st.files[p := ContentOr(st, p) + BodyText(lines[1..])], st.dirs)
      && x.written == Render(OkResponse())
      && x.unread == AfterBody(lines[1..]) && x.outcome == Completed
  {
    ServeMethod(st, Method.Post, path, lines, deleteSucceeds);
    PostText(st, path, lines[1..]);
  }

  /** `handlePost` on a ".txt" path that is not a directory. */
  lemma PostText(st: Store, path: string, lines: seq<string>)
    requires EndsWith(path, ".txt") && !st.IsDirectory(FullPath(path))
    ensures var p := FullPath(path);
      Post(st, path, lines)
      == Exchange(Store(st.files[p := ContentOr(st, p) + BodyText(lines)], st.dirs), Render(OkResponse()),
                  AfterBody(lines), Completed)
  {
    var p := FullPath(path);
    var created := CreateIfMissing(st, p);
    assert created.files[p] == ContentOr(st, p);
    assert created.files[p := ContentOr(st, p) + BodyText(lines)] == st.files[p := ContentOr(st, p) + BodyText(lines)];
  }

  /** Two POSTs, each body ended by an empty line, leave the file holding the
      old content, then each line of the first body, then each line of the
      second, every line ended by "\n". */
  lemma PostTwice(st: Store, path: string, first: seq<string>, second: seq<string>,
                  body1: seq<string>, more1: seq<string>, body2: seq<string>, more2: seq<string>,
                  delete1: bool, delete2: bool)
    requires Asks(first, "POST", path) && Asks(second, "POST", path)
    requires EndsWith(path, ".txt") && !st.IsDirectory(FullPath(path))
    requires NoEmptyLine(body1) && NoEmptyLine(body2)
    requires first[1..] == body1 + [""] + more1 && second[1..] == body2 + [""] + more2
    ensures var p := FullPath(path);
      var x1 := Serve(st, first, delete1);
      var x2 := Serve(x1.store, second, delete2);
      && p in x2.store.files
      && x2.store.files[p] == ContentOr(st, p) + Terminated(body1) + Terminated(body2)
  {
    PostAppends(st, first, path, delete1);
    var x1 := Serve(st, first, delete1);
    PostAppends(x1.store, second, path, delete2);
    BodyStopsAtEmptyLine(body1, more1);
    BodyStopsAtEmptyLine(body2, more2);
  }

  /** POST to a path not ending in ".txt" reads nothing further, writes nothing
      and changes nothing. */
  lemma PostOtherSuffix(st: Store, lines: seq<string>, path: string, deleteSucceeds: bool)
    requires Asks(lines, "POST", path) && !EndsWith(path, ".txt")
    ensures Serve(st, lines, deleteSucceeds) == Exchange(st, "", lines[1..], Completed)
  {
    ServeMethod(st, Method.Post, path, lines, deleteSucceeds);
  }

  /** PUT to a ".txt" path that is not a directory makes the body the whole
      content, answers 200 and touches no other file. */
  lemma PutOverwrites(st: Store, lines: seq<string>, path: string, deleteSucceeds: bool)
    requires Asks(lines, "PUT", path) && EndsWith(path, ".txt") && !st.IsDirectory(FullPath(path))
    ensures var x := Serve(st, lines, deleteSucceeds);
      && x.store == Store(st.files[FullPath(path) := BodyText(lines[1..])], st.dirs)
      && x.written == Render(OkResponse())
      && x.unread == AfterBody(lines[1..]) && x.outcome == Completed
  {
    ServeMethod(st, Method.Put, path, lines, deleteSucceeds);
    PutText(st, path, lines[1..]);
  }

  /** `handlePut` on a ".txt" path that is not a directory. */
  lemma PutText(st: Store, path: string, lines: seq<string>)
    requires EndsWith(path, ".txt") && !st.IsDirectory(FullPath(path))
    ensures Put(st, path, lines)
         == Exchange(Store(st.files[FullPath(path) := BodyText(lines)], st.dirs), Render(OkResponse()),
                     AfterBody(lines), Completed)
  {
    var p := FullPath(path);
    var created := CreateIfMissing(st, p);
    assert created.Exists(p) && !created.IsDirectory(p);
    assert created.files[p := BodyText(lines)] == st.files[p := BodyText(lines)];
  }

  /** PUT to a directory whose name ends in ".txt" reads the body, then answers
      404 and changes nothing. */
  lemma PutOnDirectory(st: Store, lines: seq<string>, path: string, deleteSucceeds: bool)
    requires Asks(lines, "PUT", path) && EndsWith(path, ".txt") && st.IsDirectory(FullPath(path))
    ensures var x := Serve(st, lines, deleteSucceeds);
      && x.store == st && x.unread == AfterBody(lines[1..]) && x.outcome == Completed
      && x.written == Render(ErrorResponse(404, Some("Not Found")).value)
  {
    ServeMethod(st, Method.Put, path, lines, deleteSucceeds);
  }

  /** PUT to a path not ending in ".txt" asks for a 415 response that
      `sendErrorResponse` has no case for: it throws before writing anything,
      reads nothing further and changes nothing. */
  lemma PutOtherSuffix(st: Store, lines: seq<string>, path: string, deleteSucceeds: bool)
    requires Asks(lines, "PUT", path) && !EndsWith(path, ".txt")
    ensures Serve(st, lines, deleteSucceeds) == Exchange(st, "", lines[1..], Crashed(IllegalStatus(415)))
  {
    ServeMethod(st, Method.Put, path, lines, deleteSucceeds);
  }

  /** A ".txt" request path gives a file name ending in ".txt", served as plain
      text. */
  lemma TextPathType(path: string)
    requires EndsWith(path, ".txt")
    ensures ContentType(FileName(FullPath(path))) == Some("text/plain")
  {
    var p := FullPath(path);
    assert p[|p| - 4..] == path[|path| - 4..];
    FileNameKeepsSuffix(p, ".txt");
    TextFileType(FileName(p));
  }

  /** PUT then GET of the same ".txt" path: the client reads back exactly the
      body, as plain text, with a Content-Length that is its length. */
  lemma PutThenGet(st: Store, put: seq<string>, get: seq<string>, path: string, delete1: bool, delete2: bool)
    requires Asks(put, "PUT", path) && Asks(get, "GET", path)
    requires EndsWith(path, ".txt") && !st.IsDirectory(FullPath(path))
    ensures var x1 := Serve(st, put, delete1);
      var x2 := Serve(x1.store, get, delete2);
      var b := BodyText(put[1..]);
      && x2.store == x1.store && x2.outcome == Completed
      && ParseResponse(x2.written)
         == Some(Response(200, "OK", [Header("Content-Type", "text/plain"), Header("Content-Length", Decimal(|b|))], b))
      && DecimalValue(Decimal(|b|)) == |b|
  {
    var b := BodyText(put[1..]);
    PutOverwrites(st, put, path, delete1);
    var x1 := Serve(st, put, delete1);
    ServeMethod(x1.store, Get, path, get, delete2);
    TextPathType(path);
    RetrieveFile(x1.store, path, true, get[1..]);
    RenderRoundTrip(FileResponse("text/plain", b, true));
    DecimalRoundTrip(|b|);
  }

  /** GET of a regular file: 200, its content type and its length, then the
      whole content; nothing changes. */
  lemma GetRegularFile(st: Store, lines: seq<string>, path: string, deleteSucceeds: bool)
    requires Asks(lines, "GET", path)
    requires FullPath(path) in st.files && !st.IsDirectory(FullPath(path))
    requires ContentType(FileName(FullPath(path))).Some?
    ensures var p := FullPath(path);
      var x := Serve(st, lines, deleteSucceeds);
      && x.store == st && x.unread == lines[1..] && x.outcome == Completed
      && ParseResponse(x.written)
         == Some(Response(200, "OK", [Header("Content-Type", ContentType(FileName(p)).value),
                                      Header("Content-Length", Decimal(|st.files[p]|))], st.files[p]))
  {
    var p := FullPath(path);
    ServeRetrieve(st, lines, "GET", path, deleteSucceeds);
    RetrieveFile(st, path, true, lines[1..]);
    RenderRoundTrip(FileResponse(ContentType(FileName(p)).value, st.files[p], true));
  }

  /** `handleGet` and `handleHead` on a regular file whose type is known. */
  lemma RetrieveFile(st: Store, path: string, withBody: bool, lines: seq<string>)
    requires FullPath(path) in st.files && !st.IsDirectory(FullPath(path))
    requires ContentType(FileName(FullPath(path))).Some?
    ensures var p := FullPath(path);
      Retrieve(st, path, withBody, lines)
      == Exchange(st, Render(FileResponse(ContentType(FileName(p)).value, st.files[p], withBody)), lines, Completed)
  {
  }

  /** `handleGet` and `handleHead` on a regular file whose name gives no
      extension to read: the index fault, before anything is written. */
  lemma RetrieveNoType(st: Store, path: string, withBody: bool, lines: seq<string>)
    requires FullPath(path) in st.files && !st.IsDirectory(FullPath(path))
    requires ContentType(FileName(FullPath(path))).None?
    ensures Retrieve(st, path, withBody, lines) == Exchange(st, "", lines, Crashed(IndexOutOfBounds))
  {
  }

  /** `handleGet` and `handleHead` on a missing path or a directory: 404. */
  lemma RetrieveMissing(st: Store, path: string, withBody: bool, lines: seq<string>)
    requires !st.Exists(FullPath(path)) || st.IsDirectory(FullPath(path))
    ensures Retrieve(st, path, withBody, lines) == SendError(st, 404, Some("Not Found"), lines)
  {
  }

  /** A GET or HEAD request line hands the following lines to `handleGet`
      (with the content) or `handleHead` (without). */
  lemma ServeRetrieve(st: Store, lines: seq<string>, verb: string, path: string, deleteSucceeds: bool)
    requires (verb == "GET" || verb == "HEAD") && Asks(lines, verb, path)
    ensures Serve(st, lines, deleteSucceeds) == Retrieve(st, path, verb == "GET", lines[1..])
  {
    if verb == "GET" {
      ServeMethod(st, Get, path, lines, deleteSucceeds);
    } else {
      ServeMethod(st, Head, path, lines, deleteSucceeds);
    }
  }

  /** GET or HEAD of a regular file whose name is only dots: splitting the name
      at dots yields nothing, and reading its last element throws before
      anything is written. */
  lemma RetrieveDotsOnlyName(st: Store, lines: seq<string>, verb: string, name: string, deleteSucceeds: bool)
    requires verb == "GET" || verb == "HEAD"
    requires Asks(lines, verb, "/" + name)
    requires |name| >= 1 && forall i :: 0 <= i < |name| ==> name[i] == '.'
    requires FullPath("/" + name) in st.files && !st.IsDirectory(FullPath("/" + name))
    ensures Serve(st, lines, deleteSucceeds) == Exchange(st, "", lines[1..], Crashed(IndexOutOfBounds))
  {
    ServeRetrieve(st, lines, verb, "/" + name, deleteSucceeds);
    DotsOnlyNameType(name);
    RetrieveNoType(st, "/" + name, verb == "GET", lines[1..]);
  }

  /** A file name made only of dots has no content type. */
  lemma DotsOnlyNameType(name: string)
    requires |name| >= 1 && forall i :: 0 <= i < |name| ==> name[i] == '.'
    ensures ContentType(FileName(FullPath("/" + name))).None?
  {
    assert '/' !in name by {
      forall i | 0 <= i < |name| ensures name[i] != '/' { }
    }
    assert FullPath("/" + name) == Base + "/" + name;
    FileNameAfterSlash(Base, name);
    ExtensionOnlyDots(name);
  }

  /** GET or HEAD of a missing path or a directory: the 404 response with its
      message as body, and no change. */
  lemma RetrieveNotFound(st: Store, lines: seq<string>, verb: string, path: string, deleteSucceeds: bool)
    requires verb == "GET" || verb == "HEAD"
    requires Asks(lines, verb, path)
    requires !st.Exists(FullPath(path)) || st.IsDirectory(FullPath(path))
    ensures var x := Serve(st, lines, deleteSucceeds);
      && x.store == st && x.unread == lines[1..] && x.outcome == Completed
      && x.written == Render(ErrorResponse(404, Some("Not Found")).value)
  {
    ServeRetrieve(st, lines, verb, path, deleteSucceeds);
    RetrieveMissing(st, path, verb == "GET", lines[1..]);
  }

  /** HEAD writes exactly what GET writes, minus the content of the file. */
  lemma HeadIsGetWithoutBody(st: Store, get: seq<string>, head: seq<string>, path: string, deleteSucceeds: bool)
    requires Asks(get, "GET", path) && Asks(head, "HEAD", path) && get[1..] == head[1..]
    ensures var p := FullPath(path);
      var g := Serve(st, get, deleteSucceeds);
      var h := Serve(st, head, deleteSucceeds);
      && g.store == h.store == st && g.unread == h.unread && g.outcome == h.outcome
      && g.written == h.written + (if g.outcome.Completed? && p in st.files && !st.IsDirectory(p) then st.files[p] else "")
  {
    ServeRetrieve(st, get, "GET", path, deleteSucceeds);
    ServeRetrieve(st, head, "HEAD", path, deleteSucceeds);
    RetrieveHeadGet(st, path, get[1..]);
  }

  /** `handleHead` writes what `handleGet` writes, minus the content. */
  lemma RetrieveHeadGet(st: Store, path: string, lines: seq<string>)
    ensures var p := FullPath(path);
      var g := Retrieve(st, path, true, lines);
      var h := Retrieve(st, path, false, lines);
      && g.store == h.store && g.unread == h.unread && g.outcome == h.outcome
      && g.written == h.written + (if g.outcome.Completed? && p in st.files && !st.IsDirectory(p) then st.files[p] else "")
  {
    var p := FullPath(path);
    if p in st.files && !st.IsDirectory(p) && ContentType(FileName(p)).Some? {
      var m := ContentType(FileName(p)).value;
      RetrieveFile(st, path, true, lines);
      RetrieveFile(st, path, false, lines);
      FileAnswer(m, st.files[p]);
    }
  }

  /** DELETE of a regular file that the file system lets go: 200 and only that
      file removed; a second DELETE of the same path then answers 404. */
  lemma DeleteTwice(st: Store, first: seq<string>, second: seq<string>, path: string, delete2: bool)
    requires Asks(first, "DELETE", path) && Asks(second, "DELETE", path)
    requires st.Valid() && FullPath(path) in st.files
    ensures var x1 := Serve(st, first, true);
      var x2 := Serve(x1.store, second, delete2);
      && x1.store == Store(st.files - {FullPath(path)}, st.dirs)
      && x1.written == Render(OkResponse())
      && x2.store == x1.store
      && x2.written == Render(ErrorResponse(404, Some("Not Found")).value)
  {
    var p := FullPath(path);
    assert p !in st.dirs;
    DeletePermitted(st, first, path);
    var after := Store(st.files - {p}, st.dirs);
    assert !after.Exists(p) || after.IsDirectory(p);
    DeleteNotFound(after, second, path, delete2);
  }

  /** A delete the file system permits: the file is gone and 200 is written. */
  lemma DeletePermitted(st: Store, lines: seq<string>, path: string)
    requires Asks(lines, "DELETE", path) && FullPath(path) in st.files && !st.IsDirectory(FullPath(path))
    ensures Serve(st, lines, true)
         == Exchange(Store(st.files - {FullPath(path)}, st.dirs), Render(OkResponse()), lines[1..], Completed)
  {
    ServeMethod(st, Method.Delete, path, lines, true);
    DeleteFile(st, path, lines[1..], true);
  }

  /** A delete the file system refuses: 500 and the file kept. */
  lemma DeleteRefused(st: Store, lines: seq<string>, path: string)
    requires Asks(lines, "DELETE", path) && FullPath(path) in st.files && !st.IsDirectory(FullPath(path))
    ensures Serve(st, lines, false)
         == Exchange(st, Render(ErrorResponse(500, Some("Internal Server Error")).value), lines[1..], Completed)
  {
    ServeMethod(st, Method.Delete, path, lines, false);
    DeleteFile(st, path, lines[1..], false);
  }

  /** DELETE of a missing path or a directory: 404 and no change. */
  lemma DeleteNotFound(st: Store, lines: seq<string>, path: string, deleteSucceeds: bool)
    requires Asks(lines, "DELETE", path) && (!st.Exists(FullPath(path)) || st.IsDirectory(FullPath(path)))
    ensures Serve(st, lines, deleteSucceeds)
         == Exchange(st, Render(ErrorResponse(404, Some("Not Found")).value), lines[1..], Completed)
  {
    ServeMethod(st, Method.Delete, path, lines, deleteSucceeds);
    DeleteMissing(st, path, lines[1..], deleteSucceeds);
  }

  /** `handleDelete` on a regular file: removed with 200 when the file system
      lets it go, kept with 500 when it does not. */
  lemma DeleteFile(st: Store, path: string, lines: seq<string>, deleteSucceeds: bool)
    requires FullPath(path) in st.files && !st.IsDirectory(FullPath(path))
    ensures Delete(st, path, lines, deleteSucceeds)
         == if deleteSucceeds then Exchange(Store(st.files - {FullPath(path)}, st.dirs), Render(OkResponse()), lines, Completed)
            else Exchange(st, Render(ErrorResponse(500, Some("Internal Server Error")).value), lines, Completed)
  {
  }

  /** `handleDelete` on a missing path or a directory: 404. */
  lemma DeleteMissing(st: Store, path: string, lines: seq<string>, deleteSucceeds: bool)
    requires !st.Exists(FullPath(path)) || st.IsDirectory(FullPath(path))
    ensures Delete(st, path, lines, deleteSucceeds)
         == Exchange(st, Render(ErrorResponse(404, Some("Not Found")).value), lines, Completed)
  {
  }
}
