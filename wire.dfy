/** The response writer: how a response is laid out on the socket (status line,
    header lines, blank line, body, in the shape of section 4 of RFC 9112 with
    version HTTP/1.1), the fixed reason phrases of `sendErrorResponse`, and a
    reader for that layout that shows nothing is lost in writing. */
module Wire {

  import opened Wrappers
  import opened Text

  const CRLF: string := "\r\n"

  datatype Header = Header(name: string, value: string)

  datatype Response = Response(code: nat, reason: string, headers: seq<Header>, body: string)

  /** `HTTP/1.1 <code> <reason>` and a line end. */
  function StatusLine(code: nat, reason: string): string
  {
    "HTTP/1.1 " + Decimal(code) + " " + reason + CRLF
  }

  /** `<name>: <value>` and a line end. */
  function HeaderLine(h: Header): string
  {
    h.name + ": " + h.value + CRLF
  }

  function HeaderLines(hs: seq<Header>): string
  {
    if |hs| == 0 then "" else HeaderLine(hs[0]) + HeaderLines(hs[1..])
  }

  /** The characters a response puts on the socket, in the order the handlers
      write them. */
  function Render(r: Response): string
  {
    StatusLine(r.code, r.reason) + HeaderLines(r.headers) + CRLF + r.body
  }

  /** A header the reader can take apart again: a name without ':' and no
      carriage return in the name or the value. */
  predicate FieldOk(h: Header)
  {
    ':' !in h.name && '\r' !in h.name && '\r' !in h.value
  }

  /** A response whose head the reader can take apart again. */
  predicate WellFormed(r: Response)
  {
    '\r' !in r.reason && forall i :: 0 <= i < |r.headers| ==> FieldOk(r.headers[i])
  }

  predicate AllDigits(s: string)
  {
    forall i :: 0 <= i < |s| ==> IsDigit(s[i])
  }

  /** Reads `HTTP/1.1 <digits> <reason>` and a line end off the front of `s`:
      the code, the reason and what follows. */
  function ParseStatusLine(s: string): Option<(nat, string, string)>
  {
    if |s| < 9 || s[..9] != "HTTP/1.1 " then None
    else match TakeUntil(s[9..], ' ')
      case None => None
      case Some((digits, afterCode)) =>
        if |digits| == 0 || !AllDigits(digits) then None
        else match TakeUntil(afterCode, '\r')
          case None => None
          case Some((reason, afterReason)) =>
            if |afterReason| == 0 || afterReason[0] != '\n' then None
            else Some((DecimalValue(digits), reason, afterReason[1..]))
  }

  /** Reads header lines up to and including the blank line: the headers and
      what follows them. */
  function ParseHeaders(s: string): Option<(seq<Header>, string)>
    decreases |s|
  {
    if |s| >= 2 && s[..2] == CRLF then Some(([], s[2..]))
    else match TakeUntil(s, '\r')
      case None => None
      case Some((line, afterLine)) =>
        if |afterLine| == 0 || afterLine[0] != '\n' then None
        else match TakeUntil(line, ':')
          case None => None
          case Some((name, afterName)) =>
            if |afterName| == 0 || afterName[0] != ' ' then None
            else match ParseHeaders(afterLine[1..])
              case None => None
              case Some((hs, body)) => Some(([Header(name, afterName[1..])] + hs, body))
  }

  /** Reads a whole response; everything after the blank line is the body. */
  function ParseResponse(s: string): Option<Response>
  {
    match ParseStatusLine(s)
    case None => None
    case Some((code, reason, rest)) =>
      match ParseHeaders(rest)
      case None => None
      case Some((hs, body)) => Some(Response(code, reason, hs, body))
  }

  lemma StatusLineRoundTrip(code: nat, reason: string, rest: string)
    requires '\r' !in reason
    ensures ParseStatusLine(StatusLine(code, reason) + rest) == Some((code, reason, rest))
  {
    var digits := Decimal(code);
    var s := StatusLine(code, reason) + rest;
    assert s == "HTTP/1.1 " + (digits + [' '] + (reason + ['\r'] + ("\n" + rest)));
    assert s[..9] == "HTTP/1.1 ";
    assert s[9..] == digits + [' '] + (reason + ['\r'] + ("\n" + rest));
    TakeUntilFirst(digits, reason + ['\r'] + ("\n" + rest), ' ');
    TakeUntilFirst(reason, "\n" + rest, '\r');
    assert ("\n" + rest)[1..] == rest;
    DecimalRoundTrip(code);
  }

  /** A header line does not start with a line end, so the reader does not
      take it for the blank line. */
  lemma HeaderLineNotBlank(h: Header, rest: string)
    requires FieldOk(h)
    ensures var s := HeaderLine(h) + rest; !(|s| >= 2 && s[..2] == CRLF)
  {
    var s := HeaderLine(h) + rest;
    if |h.name| == 0 {
      assert s[0] == ':';
    } else {
      assert s[0] == h.name[0];
    }
  }

  /** The reader finds the end of a header line at its own line end. */
  lemma HeaderLineEnd(h: Header, rest: string)
    requires FieldOk(h)
    ensures TakeUntil(HeaderLine(h) + rest, '\r') == Some((h.name + ": " + h.value, "\n" + rest))
  {
    var line := h.name + ": " + h.value;
    assert HeaderLine(h) + rest == line + ['\r'] + ("\n" + rest);
    assert '\r' !in line;
    TakeUntilFirst(line, "\n" + rest, '\r');
  }

  /** The reader finds the end of a header name at the first ':'. */
  lemma HeaderNameEnd(h: Header)
    requires FieldOk(h)
    ensures TakeUntil(h.name + ": " + h.value, ':') == Some((h.name, " " + h.value))
  {
    assert h.name + ": " + h.value == h.name + [':'] + (" " + h.value);
    TakeUntilFirst(h.name, " " + h.value, ':');
  }

  /** How the reader takes one header line apart. */
  lemma HeaderLineSplits(h: Header, rest: string)
    requires FieldOk(h)
    ensures var s := HeaderLine(h) + rest;
      && !(|s| >= 2 && s[..2] == CRLF)
      && TakeUntil(s, '\r') == Some((h.name + ": " + h.value, "\n" + rest))
      && TakeUntil(h.name + ": " + h.value, ':') == Some((h.name, " " + h.value))
  {
    HeaderLineNotBlank(h, rest);
    HeaderLineEnd(h, rest);
    HeaderNameEnd(h);
  }

  lemma {:induction false} HeadersRoundTrip(hs: seq<Header>, body: string)
    requires forall i :: 0 <= i < |hs| ==> FieldOk(hs[i])
    ensures ParseHeaders(HeaderLines(hs) + CRLF + body) == Some((hs, body))
  {
    var s := HeaderLines(hs) + CRLF + body;
    if |hs| == 0 {
      assert s == CRLF + body;
      assert s[..2] == CRLF && s[2..] == body;
    } else {
      var h := hs[0];
      var rest := HeaderLines(hs[1..]) + CRLF + body;
      assert FieldOk(h);
      assert s == HeaderLine(h) + rest;
      HeadersRoundTrip(hs[1..], body);
      HeaderLineSplits(h, rest);
      assert (" " + h.value)[1..] == h.value;
      assert ("\n" + rest)[1..] == rest;
      assert [h] + hs[1..] == hs;
    }
  }

  /** Reading back what Render wrote gives the response that was written. */
  lemma RenderRoundTrip(r: Response)
    requires WellFormed(r)
    ensures ParseResponse(Render(r)) == Some(r)
  {
    var rest := HeaderLines(r.headers) + CRLF + r.body;
    assert Render(r) == StatusLine(r.code, r.reason) + rest;
    StatusLineRoundTrip(r.code, r.reason, rest);
    HeadersRoundTrip(r.headers, r.body);
  }

  /** The body is written last, right after the blank line, so a response
      differs from the same response without body exactly by the body. */
  lemma RenderBody(r: Response)
    ensures Render(r) == Render(r.(body := "")) + r.body
  {
  }

  /** The reason phrase `sendErrorResponse` gives each status code it accepts;
      `None` for any other code, for which it throws. */
  function Reason(code: int): (r: Option<string>)
    ensures r.Some? <==> code in {400, 404, 405, 500, 505}
    ensures r.Some? ==> '\r' !in r.value
  {
    ReasonPhrasesPlain();
    match code
    case 400 => Some("Bad Request")
    case 404 => Some("Not Found")
    case 405 => Some("Method Not Allowed")
    case 500 => Some("Internal Server Error")
    case 505 => Some("HTTP Version Not Supported")
    case _ => None
  }

  /** No reason phrase holds a line end. */
  lemma ReasonPhrasesPlain()
    ensures '\r' !in "Bad Request" && '\r' !in "Not Found" && '\r' !in "Method Not Allowed"
    ensures '\r' !in "Internal Server Error" && '\r' !in "HTTP Version Not Supported"
  {
  }

  /** The response `sendErrorResponse(output, code, message)` writes: no headers,
      and as body the message with a line end when there is a message. `None`
      when the code is not one it accepts. */
  function ErrorResponse(code: int, message: Option<string>): (r: Option<Response>)
    ensures r.Some? <==> code in {400, 404, 405, 500, 505}
    ensures r.Some? ==> WellFormed(r.value) && r.value.code == code && r.value.headers == []
  {
    match Reason(code)
    case None => None
    case Some(reason) =>
      Some(Response(code, reason, [], if message.Some? then message.value + CRLF else ""))
  }

  /** What a client reads from an error response: its code, the fixed reason
      phrase, no header, and the message as body. */
  lemma ErrorResponseReads(code: int, message: Option<string>)
    requires code in {400, 404, 405, 500, 505}
    ensures ParseResponse(Render(ErrorResponse(code, message).value))
         == Some(Response(code, Reason(code).value, [],
                          if message.Some? then message.value + CRLF else ""))
  {
    RenderRoundTrip(ErrorResponse(code, message).value);
  }

  /** The bare `200 OK` that POST, PUT and DELETE write on success. */
  function OkResponse(): (r: Response)
    ensures WellFormed(r) && r.code == 200 && r.headers == [] && r.body == ""
  {
    Response(200, "OK", [], "")
  }

  /** The methods OPTIONS announces. */
  const AllowedMethods: string := "GET, POST, PUT, DELETE, OPTIONS, HEAD"

  function OptionsResponse(): (r: Response)
    ensures WellFormed(r) && r.code == 200 && r.headers == [Header("Allow", AllowedMethods)] && r.body == ""
  {
    var allow := Header("Allow", AllowedMethods);
    assert FieldOk(allow) by {
      assert forall i :: 0 <= i < |AllowedMethods| ==> AllowedMethods[i] != '\r';
    }
    Response(200, "OK", [allow], "")
  }

  /** The answer to GET (with the content as body) or HEAD (without): the type
      and the length of the file in the headers. */
  function FileResponse(mimeType: string, content: string, withBody: bool): (r: Response)
    requires '\r' !in mimeType
    ensures WellFormed(r) && r.code == 200
    ensures r.headers == [Header("Content-Type", mimeType), Header("Content-Length", Decimal(|content|))]
    ensures r.body == if withBody then content else ""
  {
    var length := Decimal(|content|);
    assert '\r' !in length by {
      assert forall i :: 0 <= i < |length| ==> IsDigit(length[i]);
    }
    var headers := [Header("Content-Type", mimeType), Header("Content-Length", length)];
    FileHeaderNames();
    Response(200, "OK", headers, if withBody then content else "")
  }

  /** The two header names of a file answer hold no colon and no line end. */
  lemma FileHeaderNames()
    ensures ':' !in "Content-Type" && '\r' !in "Content-Type"
    ensures ':' !in "Content-Length" && '\r' !in "Content-Length"
  {
  }

  /** A GET answer is the HEAD answer followed by the content. */
  lemma FileAnswer(mimeType: string, content: string)
    requires '\r' !in mimeType
    ensures Render(FileResponse(mimeType, content, true)) == Render(FileResponse(mimeType, content, false)) + content
  {
    RenderBody(FileResponse(mimeType, content, true));
    assert FileResponse(mimeType, content, true).(body := "") == FileResponse(mimeType, content, false);
  }

  /** The status line of every success response. */
  lemma OkStatusLine()
    ensures StatusLine(200, "OK") == "HTTP/1.1 200 OK\r\n"
  {
    assert Decimal(200) == "200";
  }

  /** The bytes of the bare success response, as the two writes of the
      handlers. */
  lemma OkText()
    ensures Render(OkResponse()) == "HTTP/1.1 200 OK\r\n" + "\r\n"
  {
    OkStatusLine();
  }

  /** A response without a body is its status line, its header lines and the
      blank line. */
  lemma RenderHead(code: nat, reason: string, hs: seq<Header>)
    ensures Render(Response(code, reason, hs, "")) == StatusLine(code, reason) + HeaderLines(hs) + CRLF
  {
  }

  /** Two header lines are the two lines, one after the other. */
  lemma TwoHeaderLines(h1: Header, h2: Header)
    ensures HeaderLines([h1, h2]) == HeaderLine(h1) + HeaderLine(h2)
  {
    assert HeaderLines([h2]) == HeaderLine(h2) + HeaderLines([]);
    assert [h1, h2][1..] == [h2];
  }

  /** Regroups the four writes of a file head (status, two header lines, blank
      line) so that the two header lines stand together. */
  lemma Regroup(s: string, a: string, b: string, c: string)
    ensures s + (a + b) + c == s + a + b + c
  {
  }

  /** The head of a GET or HEAD answer: the status line, the type line, the
      length line and the blank line. */
  lemma FileHead(mimeType: string, content: string)
    requires '\r' !in mimeType
    ensures Render(FileResponse(mimeType, content, false))
         == StatusLine(200, "OK") + (HeaderLine(Header("Content-Type", mimeType))
            + HeaderLine(Header("Content-Length", Decimal(|content|)))) + CRLF
  {
    var h1 := Header("Content-Type", mimeType);
    var h2 := Header("Content-Length", Decimal(|content|));
    TwoHeaderLines(h1, h2);
    RenderHead(200, "OK", [h1, h2]);
  }

  /** The Content-Type line of a file head, as the literal the handlers write. */
  lemma ContentTypeLine(mimeType: string)
    ensures HeaderLine(Header("Content-Type", mimeType)) == "Content-Type: " + mimeType + "\r\n"
  {
    assert "Content-Type" + ": " == "Content-Type: ";
  }

  /** The Content-Length line of a file head, as the literal the handlers write. */
  lemma ContentLengthLine(length: string)
    ensures HeaderLine(Header("Content-Length", length)) == "Content-Length: " + length + "\r\n"
  {
    assert "Content-Length" + ": " == "Content-Length: ";
  }

  /** The bytes of the head of a GET or HEAD answer, as the four writes of
      the handlers. */
  lemma FileHeadText(mimeType: string, content: string)
    requires '\r' !in mimeType
    ensures Render(FileResponse(mimeType, content, false))
         == "HTTP/1.1 200 OK\r\n" + ("Content-Type: " + mimeType + "\r\n")
            + ("Content-Length: " + Decimal(|content|) + "\r\n") + "\r\n"
  {
    var h1 := Header("Content-Type", mimeType);
    var h2 := Header("Content-Length", Decimal(|content|));
    FileHead(mimeType, content);
    Regroup(StatusLine(200, "OK"), HeaderLine(h1), HeaderLine(h2), CRLF);
    OkStatusLine();
    ContentTypeLine(mimeType);
    ContentLengthLine(Decimal(|content|));
  }

  lemma AllowLine()
    ensures HeaderLine(Header("Allow", AllowedMethods)) == "Allow: " + AllowedMethods + "\r\n"
  {
    assert "Allow" + ": " == "Allow: ";
  }

  /** The bytes of the OPTIONS response, as the three writes of the handler. */
  lemma OptionsText()
    ensures Render(OptionsResponse())
         == "HTTP/1.1 200 OK\r\n" + ("Allow: " + AllowedMethods + "\r\n") + "\r\n"
  {
    var allow := Header("Allow", AllowedMethods);
    RenderHead(200, "OK", [allow]);
    assert HeaderLines([allow]) == HeaderLine(allow) + HeaderLines([]);
    OkStatusLine();
    AllowLine();
  }

  /** An error response is the three writes of `sendErrorResponse`: the status
      line, a blank line, and the message with a line end. */
  lemma ErrorText(code: int, message: string)
    requires code in {400, 404, 405, 500, 505}
    ensures Render(ErrorResponse(code, Some(message)).value)
         == ("HTTP/1.1 " + Decimal(code) + " " + Reason(code).value + "\r\n") + "\r\n" + (message + "\r\n")
  {
    var r := ErrorResponse(code, Some(message)).value;
    RenderBody(r);
    RenderHead(code, r.reason, []);
  }

  /** The bytes of the 400 response, written out. */
  lemma BadRequestText()
    ensures Render(ErrorResponse(400, Some("Bad Request")).value) == "HTTP/1.1 400 Bad Request\r\n\r\nBad Request\r\n"
  {
    ErrorText(400, "Bad Request");
    assert Decimal(400) == "400";
    var status := "HTTP/1.1 " + "400" + " " + "Bad Request" + "\r\n";
    assert status == "HTTP/1.1 400 Bad Request\r\n";
    assert status + "\r\n" + ("Bad Request" + "\r\n") == "HTTP/1.1 400 Bad Request\r\n\r\nBad Request\r\n";
  }

  /** The bytes of the 404 response, as the three writes of `sendErrorResponse`. */
  lemma NotFoundText()
    ensures Render(ErrorResponse(404, Some("Not Found")).value)
         == ("HTTP/1.1 " + "404" + " " + "Not Found" + "\r\n") + "\r\n" + ("Not Found" + "\r\n")
  {
    ErrorText(404, "Not Found");
    assert Decimal(404) == "404";
  }

  /** The bytes of the 500 response, as the three writes of `sendErrorResponse`. */
  lemma ServerErrorText()
    ensures Render(ErrorResponse(500, Some("Internal Server Error")).value)
         == ("HTTP/1.1 " + "500" + " " + "Internal Server Error" + "\r\n") + "\r\n" + ("Internal Server Error" + "\r\n")
  {
    ErrorText(500, "Internal Server Error");
    assert Decimal(500) == "500";
  }
}
