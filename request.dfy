/** What the handler reads from the client: the request line, split on single
    spaces into method, path and version (section 3 of RFC 9112 gives the shape,
    the code only splits), the method token it dispatches on, and the lines it
    takes as the body of POST and PUT. */
module Request {

  import opened Wrappers
  import opened Text

  /** The only version the handler accepts. */
  const Version: string := "HTTP/1.1"

  datatype Method = Get | Post | Put | Delete | Options | Head | Unsupported(token: string)

  /** The spelling of a method on the request line. */
  function Token(m: Method): string
  {
    match m
    case Get => "GET"
    case Post => "POST"
    case Put => "PUT"
    case Delete => "DELETE"
    case Options => "OPTIONS"
    case Head => "HEAD"
    case Unsupported(t) => t
  }

  /** The branch of the `switch` a method token selects: exact, case-sensitive
      string comparison against six names, anything else unsupported. */
  function MethodOf(token: string): (m: Method)
    ensures m.Unsupported? <==> token !in {"GET", "POST", "PUT", "DELETE", "OPTIONS", "HEAD"}
    ensures Token(m) == token
  {
    match token
    case "GET" => Get
    case "POST" => Post
    case "PUT" => Put
    case "DELETE" => Delete
    case "OPTIONS" => Options
    case "HEAD" => Head
    case _ => Unsupported(token)
  }

  /** The six names read back as their methods, and none holds a space. */
  lemma MethodOfToken(m: Method)
    requires !m.Unsupported?
    ensures MethodOf(Token(m)) == m && ' ' !in Token(m)
  {
    match m
    case Get => assert MethodOf("GET") == Get;
    case Post => assert MethodOf("POST") == Post;
    case Put => assert MethodOf("PUT") == Put;
    case Delete => assert MethodOf("DELETE") == Delete;
    case Options => assert MethodOf("OPTIONS") == Options;
    case Head => assert MethodOf("HEAD") == Head;
  }

  datatype RequestLine = RequestLine(verb: string, path: string, version: string)

  /** `requestLine.split(" ")` and its elements 0, 1 and 2. `None` when the split
      has fewer than three elements, where reading them throws; elements past
      the third are ignored. */
  function ParseRequestLine(line: string): (r: Option<RequestLine>)
    ensures r.Some? <==> |Split(line, ' ')| >= 3
    ensures r.Some? ==> ' ' !in r.value.verb && ' ' !in r.value.path && ' ' !in r.value.version
  {
    var parts := Split(line, ' ');
    if |parts| < 3 then None else Some(RequestLine(parts[0], parts[1], parts[2]))
  }

  /** A request line as a client writes it: the three tokens, then any extra
      tokens, separated by single spaces. */
  function FormatRequestLine(r: RequestLine, extra: seq<string>): string
  {
    Join([r.verb, r.path, r.version] + extra, ' ')
  }

  /** Reading a request line gives back its first three tokens, provided no token
      holds a space and the line does not end in a space. Empty method or path
      tokens are read as empty strings. */
  lemma ParseFormat(r: RequestLine, extra: seq<string>)
    requires ' ' !in r.verb && ' ' !in r.path && ' ' !in r.version
    requires forall i :: 0 <= i < |extra| ==> ' ' !in extra[i]
    requires if |extra| == 0 then r.version != "" else extra[|extra| - 1] != ""
    ensures ParseRequestLine(FormatRequestLine(r, extra)) == Some(r)
  {
    var ps := [r.verb, r.path, r.version] + extra;
    forall i | 0 <= i < |ps| ensures ' ' !in ps[i] {
      if i >= 3 { assert ps[i] == extra[i - 3]; }
    }
    SplitJoin(ps, ' ');
  }

  /** `GET /a.txt HTTP/1.1`, in the form the handler reads. */
  lemma ParseThreeTokens(verb: string, path: string, version: string)
    requires ' ' !in verb && ' ' !in path && ' ' !in version && version != ""
    ensures ParseRequestLine(verb + " " + path + " " + version) == Some(RequestLine(verb, path, version))
  {
    var r := RequestLine(verb, path, version);
    ParseFormat(r, []);
    assert [verb, path, version] + [] == [verb, path, version];
    assert Join([verb, path, version], ' ') == verb + " " + path + " " + version by {
      assert [verb, path, version][1..] == [path, version];
      assert [path, version][1..] == [version];
      assert Join([path, version], ' ') == path + [' '] + version;
      assert Join([verb, path, version], ' ') == verb + [' '] + (path + [' '] + version);
    }
  }

  /** An empty line, or one made only of spaces, has no element 0 to 2. */
  lemma BlankRequestLine(line: string)
    requires forall i :: 0 <= i < |line| ==> line[i] == ' '
    ensures ParseRequestLine(line).None?
  {
    if |line| > 0 {
      SplitOnlySeparators(line, ' ');
    }
  }

  /** A line with only two tokens has no element 2. */
  lemma TwoTokenRequestLine(verb: string, path: string)
    requires ' ' !in verb && ' ' !in path && path != ""
    ensures ParseRequestLine(verb + " " + path).None?
  {
    assert Join([verb, path], ' ') == verb + " " + path by {
      assert [verb, path][1..] == [path];
    }
    SplitJoin([verb, path], ' ');
  }

  /** The body StringBuilder after the read loop of POST and PUT: each line read
      before the first empty line or the end of the stream, with "\n" after it. */
  function BodyText(lines: seq<string>): string
  {
    if |lines| == 0 || lines[0] == "" then "" else lines[0] + "\n" + BodyText(lines[1..])
  }

  /** The body is empty exactly when the first read gives nothing or an empty
      line, and a body that is not empty ends with "\n". */
  lemma {:induction false} BodyTextShape(lines: seq<string>)
    ensures var b := BodyText(lines);
      && (b == "" <==> |lines| == 0 || lines[0] == "")
      && (b != "" ==> b[|b| - 1] == '\n')
  {
    if |lines| > 0 && lines[0] != "" {
      BodyTextShape(lines[1..]);
    }
  }

  /** The lines the read loop leaves unread: everything after the first empty
      line, which the loop reads and drops. */
  function AfterBody(lines: seq<string>): (r: seq<string>)
    ensures |r| <= |lines|
  {
    if |lines| == 0 then [] else if lines[0] == "" then lines[1..] else AfterBody(lines[1..])
  }

  /** What the read loop leaves unread is the tail of what it was given. */
  lemma {:induction false} AfterBodySuffix(lines: seq<string>)
    ensures AfterBody(lines) == lines[|lines| - |AfterBody(lines)|..]
  {
    if |lines| > 0 && lines[0] != "" {
      AfterBodySuffix(lines[1..]);
      var k := |lines| - |AfterBody(lines)|;
      assert lines[1..][k - 1..] == lines[k..];
    }
  }

  /** Every line with "\n" after it, concatenated. */
  function Terminated(lines: seq<string>): string
  {
    if |lines| == 0 then "" else lines[0] + "\n" + Terminated(lines[1..])
  }

  predicate NoEmptyLine(lines: seq<string>)
  {
    forall i :: 0 <= i < |lines| ==> lines[i] != ""
  }

  /** The read loop stops at the first empty line: the body is the lines before
      it, and the lines after it are left unread. */
  lemma {:induction false} BodyStopsAtEmptyLine(before: seq<string>, after: seq<string>)
    requires NoEmptyLine(before)
    ensures BodyText(before + [""] + after) == Terminated(before)
    ensures AfterBody(before + [""] + after) == after
  {
    var lines := before + [""] + after;
    if |before| == 0 {
      assert lines == [""] + after;
    } else {
      assert lines[0] == before[0] != "";
      assert lines[1..] == before[1..] + [""] + after;
      BodyStopsAtEmptyLine(before[1..], after);
    }
  }

  /** Without an empty line the read loop runs to the end of the stream and the
      body is every line. */
  lemma {:induction false} BodyRunsToEnd(lines: seq<string>)
    requires NoEmptyLine(lines)
    ensures BodyText(lines) == Terminated(lines)
    ensures AfterBody(lines) == []
  {
    if |lines| > 0 {
      BodyRunsToEnd(lines[1..]);
    }
  }
}
