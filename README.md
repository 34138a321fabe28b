# HTTPServer request handler, modelled in Dafny

`HTTPServer.java` is a small HTTP/1.1 file server. It serves one fixed
directory and gives each connection to an `HttpRequestHandler` thread. That
thread does the following:

- reads one request line;
- splits it on spaces;
- rejects any version other than `HTTP/1.1`;
- dispatches on the method token.

The six method handlers work as follows:

- GET and HEAD serve a file with its MIME type and length.
- POST appends the following lines to a `.txt` file.
- PUT replaces a `.txt` file with those lines.
- DELETE removes a file.
- OPTIONS lists the methods.

Errors go through `sendErrorResponse`. It knows five status codes and writes
a status line, a blank line and the message.

This project models that handler. It is split into these modules:

- `Text` (`text.dfy`): what the handler uses from `java.lang.String` and
  `java.io.File`.
  - `Split` is `String.split` with a one-character pattern. Consecutive
    separators give empty pieces, trailing empty pieces are dropped, and a
    string without the separator is one piece.
  - `FileName` is `File.getName`.
  - `Decimal` is how Java prints a non-negative `int` or `long` when it is
    concatenated to a string.
- `Wire` (`wire.dfy`): the response layout that every handler writes.
  - It holds the status line, header lines, blank line and body.
  - It holds the reason-phrase switch of `sendErrorResponse` and the fixed
    responses.
  - It includes a reader for that layout (`ParseResponse`). The reader is a
    partner that proves no information is lost when a response is written.
- `Mime` (`mime.dfy`): the `MIME_TYPES` table and the extension lookup of
  GET and HEAD.
- `Request` (`request.dfy`): the request line, the method switch and the
  body-reading loop of POST and PUT, as functions of the lines the client
  sends.
- `Protocol` (`protocol.dfy`): the whole handler as a function.
  - `Serve` takes three inputs: the served tree (a map from full path to
    content, plus a set of directories), the lines the client sends, and
    whether the file system lets a delete succeed.
  - It gives back an `Exchange`: the tree afterwards, the characters
    written, the lines left unread, and whether the handler completed or was
    ended by an uncaught exception.
  - The properties of the server are lemmas about `Serve`. Most of them
    hold for any input whose first line asks for a verb and a path
    (`Asks`). That means the line splits into that verb, that path and
    `HTTP/1.1`, possibly followed by more tokens.
  - Lemmas about the single handlers (`PostText`, `RetrieveFile`,
    `DeleteFile` and others) state what each Java method does on its own.
- `Server` (`server.dfy`): the handler as the Java code runs it.
  - A `FileSystem` object is changed in place by `createNewFile`,
    `Files.write` and `delete`.
  - A `FileInputStream` is read through a 4096-character array.
  - An `HttpRequestHandler` object reads lines and grows its output with
    `writeBytes`.
  - Every handler method is proved to leave the objects exactly as the
    matching `Protocol` function says.

Uncaught exceptions end the handler as `Crashed`. There are two kinds:

- `IndexOutOfBounds`: a request line with fewer than three tokens, or a file
  name made only of dots.
- `IllegalStatus`: `sendErrorResponse` given a code it has no case for.

In every such case nothing has been written yet. This is proved as a
postcondition of `Serve`.

Where the code and a plain description of the server disagree, the model
follows the code:

- A PUT to a path not ending in `.txt` calls `sendErrorResponse(output, 415)`.
  There is no 415 case, so it throws before writing anything. It does not
  answer 415 (`Protocol.PutOtherSuffix`).
- An empty request line, or one with fewer than three tokens, throws. It
  does not answer 400. Only the end of the stream gets 400
  (`Protocol.EmptyRequestLine`, `Protocol.NoRequestLine`).
- Error responses such as 404 and 405 carry their message and a line end as
  body. The body is not empty.
- The extension is the last element of `name.split("\\.")`, not the text
  after the last dot:
  - a name without a dot is its own extension;
  - a trailing dot is ignored;
  - a name made only of dots throws.
- A POST to a path not ending in `.txt` writes nothing at all.

## Model

| member | source | states |
|---|---|---|
| Text.Split | HTTPServer.java:57 | every piece is free of the separator; a string without the separator is one piece; otherwise the last piece is not empty (trailing empty pieces are dropped) |
| Text.JoinPieces | HTTPServer.java:57 | gluing the pieces of a string back together with the separator gives the string, so splitting loses only the separators |
| Text.SplitJoin | HTTPServer.java:57 | splitting the join of separator-free pieces whose last piece is not empty gives back those pieces |
| Text.SplitOnlySeparators | HTTPServer.java:57 | a non-empty string of separators splits into no pieces at all |
| Text.SplitTrailingSeparator | HTTPServer.java:57 | a separator added at the end of a non-empty string does not change its split |
| Text.EndsWith | HTTPServer.java:100 | `String.endsWith`: the last characters of the string are the suffix |
| Text.EndsWithMeans | HTTPServer.java:100 | a string ends with the suffix exactly when it is some stem followed by the suffix |
| Text.FileName | HTTPServer.java:147 | the name has no '/', is a suffix of the path, and follows a '/' when shorter than the path |
| Text.FileNameAfterSlash | HTTPServer.java:147 | the name of `dir/name` is `name` when `name` has no '/' |
| Text.Decimal | HTTPServer.java:152 | the numeral is non-empty, all digits, and has no leading zero |
| Text.DecimalRoundTrip | HTTPServer.java:152 | reading the numeral back gives the number |
| Text.DecimalInjective | HTTPServer.java:152 | two numbers with the same numeral are equal |
| Wire.StatusLine | HTTPServer.java:150 | a status line is `HTTP/1.1`, the decimal code, the reason phrase and a line end |
| Wire.StatusLineRoundTrip | HTTPServer.java:150 | a status line whose reason has no line end is read back as that code and reason, with what follows left over |
| Wire.HeaderLine | HTTPServer.java:151 | a header line is the name, `: `, the value and a line end |
| Wire.HeadersRoundTrip | HTTPServer.java:151-153 | header lines without a colon in the name or a line end, then the blank line, are read back as those headers in order, with the body left over |
| Wire.Render | HTTPServer.java:150-160 | a response is written as its status line, its header lines in order, a blank line and its body |
| Wire.RenderRoundTrip | HTTPServer.java:150-153 | a response whose reason and headers hold no line end is read back whole from what is written |
| Wire.RenderBody | HTTPServer.java:150-160 | what is written is the head and then the body |
| Wire.Reason | HTTPServer.java:210-229 | a reason phrase exists exactly for 400, 404, 405, 500 and 505, and holds no line end |
| Wire.ErrorResponse | HTTPServer.java:209-236 | there is an error response exactly for the five known codes; it has that code, no headers, and can be read back |
| Wire.ErrorResponseReads | HTTPServer.java:231-235 | a client reads the code, the fixed reason, no header, and the message with a line end as body (or no body when there is no message) |
| Wire.OkResponse | HTTPServer.java:112-113 | the bare success is code 200 with no header and no body, and can be read back |
| Wire.OptionsResponse | HTTPServer.java:182-186 | the OPTIONS answer is code 200 with the one Allow header listing the six methods and no body, and can be read back |
| Wire.FileResponse | HTTPServer.java:150-160 | a file answer is code 200 with Content-Type and then Content-Length holding the decimal length; the content is the body for GET, and HEAD has no body |
| Wire.ErrorText | HTTPServer.java:231-235 | an error response with a message is `HTTP/1.1 <code> <reason>`, a blank line, then the message and a line end |
| Wire.OkText | HTTPServer.java:112-113 | the bare success is the two writes `HTTP/1.1 200 OK\r\n` and `\r\n` |
| Wire.FileHeadText | HTTPServer.java:196-199 | the head of a file answer is the four writes: status, Content-Type, Content-Length with the decimal length, blank line |
| Wire.AllowLine | HTTPServer.java:184 | the Allow header is written as `Allow: ` and the six method names, then a line end |
| Wire.OptionsText | HTTPServer.java:182-186 | the OPTIONS answer is the three writes of the handler, with the Allow line |
| Wire.BadRequestText | HTTPServer.java:52-54 | the 400 answer is exactly `HTTP/1.1 400 Bad Request\r\n\r\nBad Request\r\n` |
| Wire.NotFoundText | HTTPServer.java:163 | the 404 answer is its status line, a blank line and `Not Found\r\n` |
| Wire.ServerErrorText | HTTPServer.java:175 | the 500 answer is its status line, a blank line and `Internal Server Error\r\n` |
| Mime.Extension | HTTPServer.java:147-148 | no extension only when the name has a dot; an extension has no dot, and is non-empty when the name has a dot |
| Mime.ExtensionWithoutDot | HTTPServer.java:147-148 | a name without a dot is its own extension |
| Mime.ExtensionAfterLastDot | HTTPServer.java:147-148 | `stem.ext` has extension `ext` for a non-empty, dot-free `ext`, whatever the stem |
| Mime.ExtensionTrailingDot | HTTPServer.java:147-148 | a trailing dot does not change the extension |
| Mime.ExtensionOnlyDots | HTTPServer.java:147-148 | a name made only of dots has no last element to read |
| Mime.ContentType | HTTPServer.java:147-149 | a type exists exactly when an extension does, is one of the three table types or the default, and holds no line end |
| Mime.ContentTypeOf | HTTPServer.java:16-20 | `stem.ext` gets the table's type for `ext`, and `application/octet-stream` for any other extension |
| Mime.TextFileType | HTTPServer.java:17 | a name ending in `.txt` is served as `text/plain` |
| Request.MethodOf | HTTPServer.java:67-88 | the method is unsupported exactly when the token is not one of the six case-sensitive names, and the token is kept |
| Request.MethodOfToken | HTTPServer.java:67-85 | each of the six names selects its own handler, and none of them holds a space |
| Request.ParseRequestLine | HTTPServer.java:57-60 | the three tokens are read exactly when the split has at least three elements; none of them holds a space |
| Request.ParseFormat | HTTPServer.java:57-60 | a line of three space-free tokens and extra tokens, joined by single spaces, parses back to those three tokens |
| Request.ParseThreeTokens | HTTPServer.java:57-60 | `verb path version` parses to exactly those three tokens |
| Request.BlankRequestLine | HTTPServer.java:57-60 | an empty line, or one of only spaces, has too few tokens |
| Request.TwoTokenRequestLine | HTTPServer.java:57-60 | `verb path` has too few tokens |
| Request.BodyText | HTTPServer.java:101-105 | the StringBuilder after the read loop (the loop of PUT at 122-126 is the same): each line before the first empty line or the end of the stream, with "\n" after it |
| Request.BodyTextShape | HTTPServer.java:101-105 | the body is empty exactly when the first read gives the end of the stream or an empty line, and a body that is not empty ends with "\n" |
| Request.AfterBody | HTTPServer.java:103 | the loop never leaves more lines than it was given |
| Request.AfterBodySuffix | HTTPServer.java:101-105 | what the loop leaves unread is a tail of the lines it was given |
| Request.BodyStopsAtEmptyLine | HTTPServer.java:101-105 | lines before the first empty line form the body, each ended by "\n"; the empty line is consumed and the rest is left unread |
| Request.BodyRunsToEnd | HTTPServer.java:101-105 | without an empty line the body is every line ended by "\n", and nothing is left unread |
| Protocol.FullPath | HTTPServer.java:107 | the addressed file is the base directory followed by the request path, unchanged |
| Protocol.FullPathInjective | HTTPServer.java:107 | two request paths address the same file exactly when they are the same string |
| Protocol.Store.Exists | HTTPServer.java:146 | `File.exists`: a regular file or a directory is at the path |
| Protocol.Store.IsDirectory | HTTPServer.java:146 | `File.isDirectory`: a directory is at the path |
| Protocol.SendError | HTTPServer.java:209-236 | completes exactly for the five known codes; otherwise throws with nothing written; never changes the tree or reads input |
| Protocol.Retrieve | HTTPServer.java:143-165 | GET and HEAD change no file and read no further input; a throw writes nothing |
| Protocol.CreateIfMissing | HTTPServer.java:108 | afterwards the path exists; a new file is empty, an existing file keeps its content, directories are unchanged, nothing else changes |
| Protocol.WriteFile | HTTPServer.java:111 | the file holds exactly the data and nothing else changes |
| Protocol.Post | HTTPServer.java:99-118 | only the addressed file may change, no directory changes, the tree stays consistent, and POST always completes |
| Protocol.Put | HTTPServer.java:120-141 | only the addressed file may change; a throw writes nothing and changes nothing |
| Protocol.Delete | HTTPServer.java:167-180 | directories unchanged; the files are as before or without the addressed file; always completes and reads nothing further |
| Protocol.Options | HTTPServer.java:182-186 | changes nothing and reads nothing further |
| Protocol.Dispatch | HTTPServer.java:67-89 | each handler leaves unread either all remaining lines or what follows the body, changes at most the addressed file, and writes nothing before a throw |
| Protocol.Serve | HTTPServer.java:46-96 | keeps the tree consistent; a throw writes and changes nothing; the request line is always consumed and no line is read that was not sent; an unparsable line changes nothing; otherwise at most the addressed file changes |
| Protocol.ServeReadsInOrder | HTTPServer.java:50-105 | the lines left unread are a tail of the input: lines are read in order and none is skipped |
| Protocol.RequestTextAsks | HTTPServer.java:57-60 | `verb path HTTP/1.1` followed by any lines asks for that verb and path, and the lines after it are the rest |
| Protocol.ServeMethod | HTTPServer.java:57-85 | a request line that asks for one of the six methods hands the following lines to the handler that method selects |
| Protocol.ServeRetrieve | HTTPServer.java:67-85 | a GET request line hands the following lines to `handleGet`, and a HEAD request line to `handleHead` |
| Protocol.NoRequestLine | HTTPServer.java:50-55 | the end of the stream gives exactly `HTTP/1.1 400 Bad Request\r\n\r\nBad Request\r\n` and no change |
| Protocol.ShortRequestLine | HTTPServer.java:57-60 | a line with fewer than three tokens throws an index fault with nothing written or changed |
| Protocol.EmptyRequestLine | HTTPServer.java:57-60 | an empty request line throws; it does not get 400 |
| Protocol.WrongVersion | HTTPServer.java:62-65 | any version other than `HTTP/1.1` gets the 505 answer, with its message as body, and no change |
| Protocol.UnknownMethod | HTTPServer.java:86-88 | a token other than the six names gets the 405 answer and no change |
| Protocol.OptionsWrites | HTTPServer.java:182-186 | `handleOptions` writes the status line, the Allow line listing the six methods and a blank line; it changes and reads nothing |
| Protocol.OptionsAnyPath | HTTPServer.java:80-82 | OPTIONS writes the same three lines for every path and tree, and changes nothing |
| Protocol.PostAppends | HTTPServer.java:99-118 | POST to a `.txt` non-directory makes the file its old content (empty if absent) followed by the body, answers 200, and leaves every other file alone |
| Protocol.PostText | HTTPServer.java:99-113 | `handlePost` on a `.txt` non-directory makes the file its old content (empty if absent) followed by the body, answers 200, and leaves the lines after the blank line unread |
| Protocol.PostTwice | HTTPServer.java:111 | two POSTs leave the old content, then each line of the first body, then each line of the second, each ended by "\n" |
| Protocol.PostOtherSuffix | HTTPServer.java:100 | POST to a path not ending in `.txt` reads, writes and changes nothing |
| Protocol.PutOverwrites | HTTPServer.java:120-137 | PUT to a `.txt` non-directory makes the body the whole content, answers 200, and leaves every other file alone |
| Protocol.PutText | HTTPServer.java:120-134 | `handlePut` on a `.txt` non-directory makes the body the whole content, answers 200, and leaves the lines after the blank line unread |
| Protocol.PutOnDirectory | HTTPServer.java:131-137 | PUT to a directory reads the body, answers 404, and changes nothing |
| Protocol.PutOtherSuffix | HTTPServer.java:138-140 | PUT to a path not ending in `.txt` throws for status 415 with nothing written, read or changed |
| Protocol.TextPathType | HTTPServer.java:147-149 | a `.txt` request path is served as `text/plain` |
| Protocol.PutThenGet | HTTPServer.java:120-165 | after PUT, a GET of the same path returns exactly the body as `text/plain`, with a Content-Length that reads back as its length |
| Protocol.GetRegularFile | HTTPServer.java:143-165 | GET of a regular file returns 200, its type, its length and its whole content, and changes nothing |
| Protocol.RetrieveFile | HTTPServer.java:143-161 | a regular file with a type is answered with 200, its type, its length and (for GET) its content; nothing changes |
| Protocol.RetrieveNoType | HTTPServer.java:147-148 | a regular file whose name has no last element throws an index fault before writing |
| Protocol.RetrieveMissing | HTTPServer.java:162-164 | a missing path or a directory is answered by `sendErrorResponse(404, "Not Found")` |
| Protocol.RetrieveDotsOnlyName | HTTPServer.java:147-148 | GET or HEAD of a file named only with dots throws before writing |
| Protocol.DotsOnlyNameType | HTTPServer.java:147-148 | a request path that names a file made only of dots gives no extension and so no type |
| Protocol.RetrieveNotFound | HTTPServer.java:162-164 | GET or HEAD of a missing path or a directory gets the 404 answer and no change |
| Protocol.HeadIsGetWithoutBody | HTTPServer.java:189-203 | HEAD writes exactly what GET writes, minus the file's content, with the same outcome |
| Protocol.RetrieveHeadGet | HTTPServer.java:189-203 | `handleHead` writes what `handleGet` writes without the content, with the same outcome and no change |
| Protocol.DeleteTwice | HTTPServer.java:167-180 | a permitted DELETE removes only that file and answers 200; a second DELETE of the path answers 404 and changes nothing |
| Protocol.DeletePermitted | HTTPServer.java:167-173 | a delete the file system permits removes only that file and answers 200 |
| Protocol.DeleteRefused | HTTPServer.java:174-176 | a refused delete answers 500 and keeps the file |
| Protocol.DeleteNotFound | HTTPServer.java:177-179 | DELETE of a missing path or a directory answers 404 and changes nothing |
| Protocol.DeleteFile | HTTPServer.java:170-176 | `handleDelete` on a regular file removes it with 200 when the file system lets it go, and keeps it with 500 otherwise |
| Protocol.DeleteMissing | HTTPServer.java:177-179 | `handleDelete` on a missing path or a directory answers 404 and changes nothing |
| Server.FileSystem.CreateNewFile | HTTPServer.java:108 | creates exactly when nothing was there, leaving the tree as `CreateIfMissing` says |
| Server.FileSystem.Write | HTTPServer.java:132 | the file holds exactly the data afterwards |
| Server.FileSystem.Append | HTTPServer.java:111 | the existing file holds its old content followed by the data |
| Server.FileSystem.Delete | HTTPServer.java:171 | deletes exactly when permitted and the file is there; nothing else changes |
| Server.FileInputStream.Read | HTTPServer.java:158 | -1 exactly at the end of the file; otherwise the next 1 to 4096 characters of the file are at the front of the buffer and the position moves past them |
| Server.HttpRequestHandler.WriteBytes | HTTPServer.java:112 | `writeBytes` puts the characters after what was written before and reads nothing |
| Server.HttpRequestHandler.ReadLine | HTTPServer.java:50 | the next line is taken off the input, or `None` at the end of the stream |
| Server.HttpRequestHandler.ReadBody | HTTPServer.java:101-105 | the loop builds `BodyText` of the input and leaves `AfterBody` of it |
| Server.HttpRequestHandler.SendFile | HTTPServer.java:155-161 | the buffer loop writes the whole content, in order |
| Server.HttpRequestHandler.SendErrorResponse | HTTPServer.java:209-236 | writes exactly what `Protocol.SendError` says, or throws with nothing written |
| Server.HttpRequestHandler.SendStatus | HTTPServer.java:205-207 | the one-argument overload is the error response without a message |
| Server.HttpRequestHandler.SendFileHead | HTTPServer.java:150-153 | the four writes are the head of the file answer |
| Server.HttpRequestHandler.SendFileAnswer | HTTPServer.java:150-160 | the four head writes and then the copy loop write the whole GET answer |
| Server.HttpRequestHandler.SendOk | HTTPServer.java:112-113 | the two writes are the bare 200 OK response |
| Server.HttpRequestHandler.HandleGet | HTTPServer.java:143-165 | does exactly what `Protocol.Retrieve` with the body says |
| Server.HttpRequestHandler.HandleHead | HTTPServer.java:189-203 | does exactly what `Protocol.Retrieve` without the body says |
| Server.HttpRequestHandler.HandlePost | HTTPServer.java:99-118 | changes the tree, output and input exactly as `Protocol.Post` says |
| Server.HttpRequestHandler.HandlePut | HTTPServer.java:120-141 | changes the tree, output and input exactly as `Protocol.Put` says |
| Server.HttpRequestHandler.HandleDelete | HTTPServer.java:167-180 | changes the tree and output exactly as `Protocol.Delete` says |
| Server.HttpRequestHandler.HandleOptions | HTTPServer.java:182-186 | writes exactly the OPTIONS answer |
| Server.HttpRequestHandler.Run | HTTPServer.java:46-96 | the whole connection leaves the tree, output and input exactly as `Protocol.Serve` says, and keeps the tree consistent |

## Left out

- The accept loop, the server socket, the port and one thread per connection
  (HTTPServer.java:23-44) are not modelled. They are socket plumbing and
  concurrency. One connection is one call of `Run`.
- Opening and closing the streams and the socket, and the `IOException`
  catch that prints a stack trace (HTTPServer.java:48-49, 90-95), are not
  modelled. No I/O operation fails in the model.
- `createNewFile` and `Files.write` always succeed. Only `delete` can fail,
  through the `deleteSucceeds` parameter. Permissions, races and other file
  system errors are not modelled.
- `java.io.File` normalises paths, for example by collapsing `//` and
  dropping a trailing `/`. This is not modelled: a file is named by the
  string `Directory_Path + path` exactly as concatenated.
- `getBytes` and `writeBytes` are taken to work on ASCII characters.
  Strings are sequences of characters, and a file's length is its number of
  characters.
- Server.FileInputStream.Read: always fills the buffer as far as the file
  allows, while a real `read` may return fewer bytes. The copy loop's result
  does not depend on this.
- The HTTP header lines a real client sends after the request line are not
  separated from the body. The body loop reads whatever lines follow the
  request line, as the code does.
