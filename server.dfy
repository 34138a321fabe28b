/** The handler as the source runs it: a thread object that reads request
    lines one at a time, writes to its output stream piece by piece, copies a
    file through a fixed buffer, and creates, rewrites, appends to and deletes
    files in place. Each method is proved to do exactly what the function of
    the same handler in `Protocol` says. */
module Server {

  import opened Wrappers
  import opened Text
  import opened Wire
  import opened Mime
  import opened Request
  import opened Protocol

  /** The served tree as `java.io.File` and `java.nio.file.Files` see it. */
  class FileSystem {
    var files: map<string, string>
    var dirs: set<string>

    constructor (files: map<string, string>, dirs: set<string>)
      ensures State() == Store(files, dirs)
    {
      this.files := files;
      this.dirs := dirs;
    }

    function State(): Store
      reads this
    {
      Store(files, dirs)
    }

    /** `File.exists` */
    predicate Exists(p: string)
      reads this
    {
      State().Exists(p)
    }

    /** `File.isDirectory` */
    predicate IsDirectory(p: string)
      reads this
    {
      State().IsDirectory(p)
    }

    /** `File.createNewFile`: an empty regular file, when nothing is there. */
    method CreateNewFile(p: string) returns (created: bool)
      modifies this
      ensures created == !old(State()).Exists(p)
      ensures State() == CreateIfMissing(old(State()), p)
    {
      created := !Exists(p);
      if created {
        files := files[p := ""];
      }
    }

    /** `Files.write` without options: the file holds `data` and nothing else. */
    method Write(p: string, data: string)
      modifies this
      ensures State() == WriteFile(old(State()), p, data)
    {
      files := files[p := data];
    }

    /** `Files.write` with `StandardOpenOption.APPEND`, which needs the file to
        be there already. */
    method Append(p: string, data: string)
      requires p in files
      modifies this
      ensures State() == WriteFile(old(State()), p, old(files[p]) + data)
    {
      files := files[p := files[p] + data];
    }

    /** `File.delete` on a regular file; `permitted` says whether the
        underlying file system lets it go. */
    method Delete(p: string, permitted: bool) returns (deleted: bool)
      modifies this
      ensures deleted == (permitted && p in old(files))
      ensures State() == if deleted then old(State()).(files := old(files) - {p}) else old(State())
    {
      deleted := permitted && p in files;
      if deleted {
        files := files - {p};
      }
    }
  }

  /** `FileInputStream`: the content of one file and how far it has been read. */
  class FileInputStream {
    const content: string
    var position: nat

    constructor (content: string)
      ensures this.content == content && position == 0
    {
      this.content := content;
      position := 0;
    }

    /** `read(buffer)`: -1 at the end of the file, otherwise the number of
        characters copied to the front of `buffer`, at least one and at most
        as many as fit. */
    method Read(buffer: array<char>) returns (bytesRead: int)
      requires position <= |content| && buffer.Length > 0
      modifies this, buffer
      ensures position <= |content|
      ensures bytesRead == -1 <==> old(position) == |content|
      ensures bytesRead == -1 ==> position == old(position)
      ensures bytesRead != -1 ==>
        && 0 < bytesRead <= buffer.Length
        && position == old(position) + bytesRead
        && buffer[..bytesRead] == content[old(position)..position]
    {
      if position == |content| {
        return -1;
      }
      var n := if |content| - position < buffer.Length then |content| - position else buffer.Length;
      var i := 0;
      while i < n
        invariant 0 <= i <= n && position == old(position)
        invariant forall k :: 0 <= k < i ==> buffer[k] == content[position + k]
      {
        buffer[i] := content[position + i];
        i := i + 1;
      }
      assert buffer[..n] == content[position..position + n];
      position := position + n;
      bytesRead := n;
    }
  }

  /** `HttpRequestHandler`: one connection, with the lines the client sends
      still to be read and the characters written back so far. */
  class HttpRequestHandler {
    const fs: FileSystem
    var input: seq<string>
    var output: string

    constructor (fs: FileSystem, input: seq<string>)
      ensures this.fs == fs && this.input == input && output == ""
    {
      this.fs := fs;
      this.input := input;
      output := "";
    }

    /** The handler has done what the exchange `x` describes, starting from
        the output `before`, and ended as `outcome`. */
    predicate Performed(x: Exchange, before: string, outcome: Outcome)
      reads this, fs
    {
      && fs.State() == x.store
      && output == before + x.written
      && input == x.unread
      && outcome == x.outcome
    }

    /** `BufferedReader.readLine`: the next line, or `None` at the end of the
        stream. */
    method ReadLine() returns (line: Option<string>)
      modifies this
      ensures output == old(output)
      ensures old(input) == [] ==> line == None && input == []
      ensures old(input) != [] ==> line == Some(old(input)[0]) && input == old(input)[1..]
    {
      if input == [] {
        line := None;
      } else {
        line := Some(input[0]);
        input := input[1..];
      }
    }

    /** `DataOutputStream.writeBytes` */
    method WriteBytes(s: string)
      modifies this
      ensures input == old(input) && output == old(output) + s
    {
      output := output + s;
    }

    /** The read loop of POST and PUT: lines up to the first empty line or the
        end of the stream, each with "\n" after it. */
    method ReadBody() returns (body: string)
      modifies this
      ensures body == BodyText(old(input)) && input == AfterBody(old(input))
      ensures output == old(output)
    {
      body := "";
      while true
        invariant BodyText(old(input)) == body + BodyText(input)
        invariant AfterBody(old(input)) == AfterBody(input)
        invariant output == old(output)
        decreases |input|
      {
        var line := ReadLine();
        if line.None? || line.value == "" {
          break;
        }
        body := body + line.value + "\n";
      }
    }

    /** The copy loop of GET: the file's content goes out through a buffer of
        4096 characters, one read at a time. */
    method SendFile(content: string)
      modifies this
      ensures input == old(input) && output == old(output) + content
    {
      var fileIS := new FileInputStream(content);
      var buffer := new char[4096];
      while true
        invariant fileIS.content == content && fileIS.position <= |content|
        invariant buffer.Length == 4096
        invariant input == old(input) && output == old(output) + content[..fileIS.position]
        decreases |content| - fileIS.position
      {
        var bytesRead := fileIS.Read(buffer);
        if bytesRead == -1 {
          break;
        }
        WriteBytes(buffer[..bytesRead]);
        assert content[..fileIS.position] == content[..fileIS.position - bytesRead] + buffer[..bytesRead];
      }
      assert content[..fileIS.position] == content;
    }

    /** `sendErrorResponse(output, statusCode, message)`, with `None` for a
        null message. */
    method SendErrorResponse(statusCode: int, message: Option<string>) returns (outcome: Outcome)
      modifies this
      ensures Performed(SendError(fs.State(), statusCode, message, old(input)), old(output), outcome)
    {
      var reason := Reason(statusCode);
      if reason.None? {
        return Crashed(IllegalStatus(statusCode));
      }
      ghost var before := output;
      var status := "HTTP/1.1 " + Decimal(statusCode) + " " + reason.value + "\r\n";
      WriteBytes(status);
      WriteBytes("\r\n");
      ghost var head := output;
      if message.Some? {
        WriteBytes(message.value + "\r\n");
      }
      ghost var r := ErrorResponse(statusCode, message).value;
      assert output == head + r.body;
      RenderHead(statusCode, reason.value, []);
      RenderBody(r);
      assert Render(r) == (status + "\r\n") + r.body;
      outcome := Completed;
    }

    /** `sendErrorResponse(output, statusCode)`: no message. */
    method SendStatus(statusCode: int) returns (outcome: Outcome)
      modifies this
      ensures Performed(SendError(fs.State(), statusCode, None, old(input)), old(output), outcome)
    {
      outcome := SendErrorResponse(statusCode, None);
    }

    /** The four writes before the content of a GET answer, and all that a HEAD
        answer writes. */
    method SendFileHead(mimeType: string, content: string)
      requires '\r' !in mimeType
      modifies this
      ensures input == old(input) && output == old(output) + Render(FileResponse(mimeType, content, false))
    {
      ghost var before := output;
      var status := "HTTP/1.1 200 OK\r\n";
      var typeLine := "Content-Type: " + mimeType + "\r\n";
      var lengthLine := "Content-Length: " + Decimal(|content|) + "\r\n";
      var blank := "\r\n";
      WriteBytes(status);
      WriteBytes(typeLine);
      WriteBytes(lengthLine);
      WriteBytes(blank);
      assert output == before + (status + typeLine + lengthLine + blank);
      FileHeadText(mimeType, content);
    }

    /** All that a GET answer writes: the head, then the content through the
        buffer. */
    method SendFileAnswer(mimeType: string, content: string)
      requires '\r' !in mimeType
      modifies this
      ensures input == old(input) && output == old(output) + Render(FileResponse(mimeType, content, true))
    {
      SendFileHead(mimeType, content);
      SendFile(content);
      FileAnswer(mimeType, content);
    }

    /** The two writes of a bare success. */
    method SendOk()
      modifies this
      ensures input == old(input) && output == old(output) + Render(OkResponse())
    {
      WriteBytes("HTTP/1.1 200 OK\r\n");
      WriteBytes("\r\n");
      OkText();
    }

    /** `handleGet` */
    method HandleGet(path: string) returns (outcome: Outcome)
      modifies this
      ensures Performed(Retrieve(old(fs.State()), path, true, old(input)), old(output), outcome)
    {
      var p := FullPath(path);
      if fs.Exists(p) && !fs.IsDirectory(p) {
        var mimeType := ContentType(FileName(p));
        if mimeType.None? {
          RetrieveNoType(fs.State(), path, true, input);
          return Crashed(IndexOutOfBounds);
        }
        RetrieveFile(fs.State(), path, true, input);
        SendFileAnswer(mimeType.value, fs.files[p]);
        outcome := Completed;
      } else {
        RetrieveMissing(fs.State(), path, true, input);
        outcome := SendErrorResponse(404, Some("Not Found"));
      }
    }

    /** `handleHead` */
    method HandleHead(path: string) returns (outcome: Outcome)
      modifies this
      ensures Performed(Retrieve(old(fs.State()), path, false, old(input)), old(output), outcome)
    {
      var p := FullPath(path);
      if fs.Exists(p) && !fs.IsDirectory(p) {
        var mimeType := ContentType(FileName(p));
        if mimeType.None? {
          RetrieveNoType(fs.State(), path, false, input);
          return Crashed(IndexOutOfBounds);
        }
        RetrieveFile(fs.State(), path, false, input);
        SendFileHead(mimeType.value, fs.files[p]);
        outcome := Completed;
      } else {
        RetrieveMissing(fs.State(), path, false, input);
        outcome := SendErrorResponse(404, Some("Not Found"));
      }
    }

    /** `handlePost` */
    method HandlePost(path: string) returns (outcome: Outcome)
      modifies this, fs
      ensures Performed(Protocol.Post(old(fs.State()), path, old(input)), old(output), outcome)
    {
      outcome := Completed;
      if EndsWith(path, ".txt") {
        var requestBody := ReadBody();
        var p := FullPath(path);
        if !fs.Exists(p) {
          var _ := fs.CreateNewFile(p);
        }
        if fs.Exists(p) && !fs.IsDirectory(p) {
          fs.Append(p, requestBody);
          SendOk();
        } else {
          outcome := SendErrorResponse(404, Some("Not Found"));
        }
      }
    }

    /** `handlePut` */
    method HandlePut(path: string) returns (outcome: Outcome)
      modifies this, fs
      ensures Performed(Protocol.Put(old(fs.State()), path, old(input)), old(output), outcome)
    {
      if EndsWith(path, ".txt") {
        var requestBody := ReadBody();
        var p := FullPath(path);
        if !fs.Exists(p) {
          var _ := fs.CreateNewFile(p);
        }
        if fs.Exists(p) && !fs.IsDirectory(p) {
          fs.Write(p, requestBody);
          SendOk();
          outcome := Completed;
        } else {
          outcome := SendErrorResponse(404, Some("Not Found"));
        }
      } else {
        outcome := SendStatus(415);
      }
    }

    /** `handleDelete`; `deleteSucceeds` stands for whether `File.delete`
        manages to remove the file. */
    method HandleDelete(path: string, deleteSucceeds: bool) returns (outcome: Outcome)
      modifies this, fs
      ensures Performed(Protocol.Delete(old(fs.State()), path, old(input), deleteSucceeds), old(output), outcome)
    {
      var p := FullPath(path);
      if fs.Exists(p) && !fs.IsDirectory(p) {
        var deleted := fs.Delete(p, deleteSucceeds);
        if deleted {
          SendOk();
          outcome := Completed;
        } else {
          outcome := SendErrorResponse(500, Some("Internal Server Error"));
        }
      } else {
        outcome := SendErrorResponse(404, Some("Not Found"));
      }
    }

    /** `handleOptions` */
    method HandleOptions() returns (outcome: Outcome)
      modifies this
      ensures Performed(Protocol.Options(fs.State(), old(input)), old(output), outcome)
    {
      ghost var before := output;
      var status, allow, blank := "HTTP/1.1 200 OK\r\n", "Allow: " + AllowedMethods + "\r\n", "\r\n";
      WriteBytes(status);
      WriteBytes(allow);
      WriteBytes(blank);
      assert output == before + (status + allow + blank);
      OptionsWrites(fs.State(), input);
      outcome := Completed;
    }

    /** `run`: read the request line, split it on spaces, check the version and
        hand over to the handler of the method. */
    method Run(deleteSucceeds: bool) returns (outcome: Outcome)
      modifies this, fs
      ensures Performed(Serve(old(fs.State()), old(input), deleteSucceeds), old(output), outcome)
      ensures old(fs.State()).Valid() ==> fs.State().Valid()
    {
      var requestLine := ReadLine();
      if requestLine.None? {
        outcome := SendErrorResponse(400, Some("Bad Request"));
        return;
      }
      var requestLineParts := Split(requestLine.value, ' ');
      if |requestLineParts| < 3 {
        return Crashed(IndexOutOfBounds);
      }
      var verb, path, httpVersion := requestLineParts[0], requestLineParts[1], requestLineParts[2];
      if httpVersion != Version {
        outcome := SendErrorResponse(505, Some("HTTP Version Not Supported"));
        return;
      }
      match MethodOf(verb)
      case Get => outcome := HandleGet(path);
      case Post => outcome := HandlePost(path);
      case Put => outcome := HandlePut(path);
      case Delete => outcome := HandleDelete(path, deleteSucceeds);
      case Options => outcome := HandleOptions();
      case Head => outcome := HandleHead(path);
      case Unsupported(_) => outcome := SendErrorResponse(405, Some("Method Not Allowed"));
    }
  }
}
