/**
 * The request handling of 1.Simple_HTTP_Server/SimpleServer.java: the
 * request line (section 3 of RFC 9112) read from the connection and split on
 * single spaces, the header lines gathered up to the first empty one, a
 * route chosen by the exact path, and the response written as a status line
 * (section 4 of RFC 9112), two header lines, a blank line and the content.
 *
 * The connection is a sequence of lines: `readLine` hands out the next one,
 * or null once none is left.  What `println` writes is the response text;
 * its line separator is the platform's, a parameter here.
 */
module SimpleHttpServer {
  import opened Wrappers

  // ---------------------------------------------------------------------
  // String.split(" ")
  // ---------------------------------------------------------------------

  /** The pieces of `s` between its spaces, empty pieces included: one more
    * piece than there are spaces. */
  function Pieces(s: string): (r: seq<string>)
    ensures |r| >= 1
    ensures forall i :: 0 <= i < |r| ==> ' ' !in r[i]
    decreases |s|
  {
    if s == [] then [""]
    else if s[0] == ' ' then [""] + Pieces(s[1..])
    else
      var rest := Pieces(s[1..]);
      [[s[0]] + rest[0]] + rest[1..]
  }

  /** The pieces put back together, a space between each two. */
  function JoinSpaces(parts: seq<string>): string
    requires |parts| >= 1
    decreases |parts|
  {
    if |parts| == 1 then parts[0] else parts[0] + " " + JoinSpaces(parts[1..])
  }

  /** Splitting and joining again gives the string back. */
  lemma {:induction false} JoinPieces(s: string)
    ensures JoinSpaces(Pieces(s)) == s
    decreases |s|
  {
    if s != [] {
      JoinPieces(s[1..]);
      var rest := Pieces(s[1..]);
      if s[0] != ' ' {
        if |rest| == 1 {
          assert JoinSpaces(rest) == rest[0];
        } else {
          assert JoinSpaces(rest) == rest[0] + " " + JoinSpaces(rest[1..]);
          assert [[s[0]] + rest[0]] + rest[1..] == [[s[0]] + rest[0]] + rest[1..];
          assert ([[s[0]] + rest[0]] + rest[1..])[1..] == rest[1..];
        }
      } else {
        assert ([""] + rest)[1..] == rest;
      }
    }
  }

  /** Pieces free of spaces, joined and split again, are the same pieces. */
  lemma {:induction false} PiecesJoin(parts: seq<string>)
    requires |parts| >= 1 && forall i :: 0 <= i < |parts| ==> ' ' !in parts[i]
    ensures Pieces(JoinSpaces(parts)) == parts
    decreases |parts|, |parts[0]|
  {
    var p := parts[0];
    if p == [] {
      if |parts| > 1 {
        PiecesJoin(parts[1..]);
        assert JoinSpaces(parts) == [' '] + JoinSpaces(parts[1..]);
      }
    } else {
      assert p[0] != ' ' by { assert p[0] in p; }
      var shorter := [p[1..]] + parts[1..];
      assert ' ' !in p[1..] by {
        forall c | c in p[1..] ensures c != ' ' { assert c in p; }
      }
      PiecesJoin(shorter);
      var j := JoinSpaces(parts);
      assert shorter[1..] == parts[1..];
      if |parts| == 1 {
        assert j == p == [p[0]] + JoinSpaces(shorter);
      } else {
        assert j == [p[0]] + JoinSpaces(shorter);
      }
      assert j[0] == p[0] && j[1..] == JoinSpaces(shorter);
      assert Pieces(j) == [[p[0]] + shorter[0]] + shorter[1..];
      assert [p[0]] + p[1..] == p;
    }
  }

  /** The pieces without the empty pieces at the end. */
  function DropTrailingEmpty(parts: seq<string>): (r: seq<string>)
    ensures |r| <= |parts| && r == parts[..|r|]
    ensures r != [] ==> r[|r| - 1] != ""
    ensures forall i :: |r| <= i < |parts| ==> parts[i] == ""
    decreases |parts|
  {
    if parts == [] then []
    else if parts[|parts| - 1] == "" then DropTrailingEmpty(parts[..|parts| - 1])
    else parts
  }

  /** Java's `s.split(" ")`: the string itself when it holds no space,
    * otherwise its pieces with trailing empty ones removed (a leading empty
    * piece stays). */
  function Split(s: string): seq<string>
  {
    if ' ' !in s then [s] else DropTrailingEmpty(Pieces(s))
  }

  // ---------------------------------------------------------------------
  // parseRequest
  // ---------------------------------------------------------------------

  /** The `Request` object. */
  datatype Request = Request(httpMethod: string, path: string, version: string, headers: string)

  /** Why `parseRequest` throws: indexing `parts` beyond its end. */
  datatype ParseError = IndexOutOfBounds

  /** The header lines: those up to the first empty line or the end. */
  function HeaderLines(lines: seq<string>): (r: seq<string>)
    ensures |r| <= |lines| && r == lines[..|r|]
    ensures forall i :: 0 <= i < |r| ==> r[i] != ""
    ensures |r| < |lines| ==> lines[|r|] == ""
    decreases |lines|
  {
    if lines == [] || lines[0] == "" then []
    else [lines[0]] + HeaderLines(lines[1..])
  }

  /** The header lines appended one by one to the `StringBuilder`, each
    * followed by "\n". */
  function HeaderText(lines: seq<string>): string
    decreases |lines|
  {
    if lines == [] then "" else HeaderText(lines[..|lines| - 1]) + lines[|lines| - 1] + "\n"
  }

  /** What `parseRequest` does with the lines of a connection: null when
    * there is no first line or it is empty; an exception when the first
    * line splits into fewer than three parts; otherwise the first three
    * parts and the header text. */
  function Parse(lines: seq<string>): Result<Option<Request>, ParseError>
  {
    if lines == [] || lines[0] == "" then Success(None)
    else
      var parts := Split(lines[0]);
      if |parts| < 3 then Failure(IndexOutOfBounds)
      else Success(Some(Request(parts[0], parts[1], parts[2], HeaderText(HeaderLines(lines[1..])))))
  }

  /** One more header line read: a non-empty line at `i` moves from the
    * lines still to read to those read. */
  lemma HeaderLinesStep(lines: seq<string>, i: int)
    requires 1 <= i < |lines| && lines[i] != ""
    requires HeaderLines(lines[1..]) == lines[1..i] + HeaderLines(lines[i..])
    ensures HeaderLines(lines[1..]) == lines[1..i + 1] + HeaderLines(lines[i + 1..])
  {
    var rest := HeaderLines(lines[i + 1..]);
    assert HeaderLines(lines[i..]) == [lines[i]] + rest by {
      assert lines[i..][1..] == lines[i + 1..];
    }
    assert lines[1..i] + ([lines[i]] + rest) == lines[1..i + 1] + rest by {
      assert lines[1..i + 1] == lines[1..i] + [lines[i]];
    }
  }

  /** `parseRequest`: read the request line, split it, then read and append
    * header lines until an empty line or the end. */
  method ParseRequest(lines: seq<string>) returns (r: Result<Option<Request>, ParseError>)
    ensures r == Parse(lines)
  {
    if |lines| == 0 || lines[0] == "" {
      return Success(None);
    }
    var parts := Split(lines[0]);
    if |parts| < 3 {
      return Failure(IndexOutOfBounds);
    }
    var headers := "";
    var i := 1;
    while i < |lines| && lines[i] != ""
      invariant 1 <= i <= |lines|
      invariant HeaderLines(lines[1..]) == lines[1..i] + HeaderLines(lines[i..])
      invariant headers == HeaderText(lines[1..i])
      decreases |lines| - i
    {
      HeaderLinesStep(lines, i);
      assert lines[1..i + 1][..i - 1] == lines[1..i];
      headers := headers + lines[i] + "\n";
      i := i + 1;
    }
    assert lines[1..i] + [] == lines[1..i];
    return Success(Some(Request(parts[0], parts[1], parts[2], headers)));
  }

  /** A request line of three space-free parts, the version non-empty, is
    * read back as those three parts, with the header lines that follow it. */
  lemma {:induction false} RequestLineRoundTrip(httpMethod: string, path: string, version: string, rest: seq<string>)
    requires ' ' !in httpMethod && ' ' !in path && ' ' !in version && version != ""
    ensures Parse([httpMethod + " " + path + " " + version] + rest) ==
      Success(Some(Request(httpMethod, path, version, HeaderText(HeaderLines(rest)))))
  {
    var parts := [httpMethod, path, version];
    var line := httpMethod + " " + path + " " + version;
    assert JoinSpaces(parts[2..]) == version;
    assert JoinSpaces(parts[1..]) == path + " " + version;
    assert JoinSpaces(parts) == line;
    PiecesJoin(parts);
    assert line[|httpMethod|] == ' ';
    assert ' ' in line;
    assert DropTrailingEmpty(parts) == parts;
    var lines := [line] + rest;
    assert lines[1..] == rest;
  }

  // ---------------------------------------------------------------------
  // handleRequest and the Response object
  // ---------------------------------------------------------------------

  const Welcome: string := "Welcome to the Simple HTTP Server!"
  const Hello: string := "Hello, World!"
  const NotFound: string := "Page not found"
  const BadRequest: string := "Bad Request"
  const InternalServerError: string := "Internal Server Error"

  /** `Response.getStatusMessage`: the reason phrase of 200, 400 and 404,
    * and "Internal Server Error" for every other code. */
  function StatusMessage(code: int): (m: string)
    ensures m == InternalServerError <==> code != 200 && code != 400 && code != 404
  {
    if code == 200 then "OK"
    else if code == 400 then "Bad Request"
    else if code == 404 then "Not Found"
    else InternalServerError
  }

  /** The status code and content `handleRequest` sets. */
  function Route(request: Option<Request>): (int, string)
  {
    match request
    case None => (400, BadRequest)
    case Some(req) =>
      if req.path == "/" then (200, Welcome)
      else if req.path == "/hello" then (200, Hello)
      else (404, NotFound)
  }

  /** The routes: no request is a bad request; the paths "/" and "/hello"
    * (compared exactly) are found; every other path is not; and no route
    * ever answers "Internal Server Error". */
  lemma {:induction false} RouteCases(request: Option<Request>)
    ensures Route(request).0 == 400 <==> request.None?
    ensures Route(request).0 == 200 <==> request.Some? && (request.value.path == "/" || request.value.path == "/hello")
    ensures Route(request).0 == 404 <==> request.Some? && request.value.path != "/" && request.value.path != "/hello"
    ensures StatusMessage(Route(request).0) != InternalServerError
  {
  }

  /** The response being prepared. */
  class Response {
    var statusCode: int
    /** `None` stands for Java's `null`, the content before it is set. */
    var content: Option<string>

    /** A new response: code 0 and a null content. */
    constructor ()
      ensures statusCode == 0 && content == None
    {
      statusCode := 0;
      content := None;
    }

    method SetStatusCode(statusCode: int)
      modifies this
      ensures this.statusCode == statusCode && content == old(content)
    {
      this.statusCode := statusCode;
    }

    method SetContent(content: string)
      modifies this
      ensures this.content == Some(content) && statusCode == old(statusCode)
    {
      this.content := Some(content);
    }

    function GetStatusMessage(): string
      reads this
    {
      StatusMessage(statusCode)
    }
  }

  /** `handleRequest`: sets the code and content of the route. */
  method HandleRequest(request: Option<Request>, response: Response)
    modifies response
    ensures response.statusCode == Route(request).0 && response.content == Some(Route(request).1)
  {
    if request.None? {
      response.SetStatusCode(400);
      response.SetContent(BadRequest);
      return;
    }
    if request.value.path == "/" {
      response.SetStatusCode(200);
      response.SetContent(Welcome);
    } else if request.value.path == "/hello" {
      response.SetStatusCode(200);
      response.SetContent(Hello);
    } else {
      response.SetStatusCode(404);
      response.SetContent(NotFound);
    }
  }

  // ---------------------------------------------------------------------
  // sendResponse
  // ---------------------------------------------------------------------

  function DigitChar(d: int): char
    requires 0 <= d < 10
  {
    ('0' as int + d) as char
  }

  /** The decimal digits of `n`, most significant first. */
  function NatDigits(n: nat): (s: string)
    ensures |s| >= 1 && forall i :: 0 <= i < |s| ==> '0' <= s[i] <= '9'
    decreases n
  {
    if n < 10 then [DigitChar(n)] else NatDigits(n / 10) + [DigitChar(n % 10)]
  }

  /** Java's decimal rendering of an `int`, as string concatenation does it. */
  function Decimal(n: int): (r: string)
    ensures r != [] && (r[0] == '-' <==> n < 0)
    ensures n >= 0 ==> '0' <= r[0] <= '9'
    ensures forall i :: 0 < i < |r| ==> '0' <= r[i] <= '9'
  {
    if n < 0 then "-" + NatDigits(-n) else NatDigits(n)
  }

  /** The value of a string of decimal digits. */
  function DigitsValue(s: string): nat
    requires forall i :: 0 <= i < |s| ==> '0' <= s[i] <= '9'
    decreases |s|
  {
    if s == [] then 0 else 10 * DigitsValue(s[..|s| - 1]) + (s[|s| - 1] - '0') as int
  }

  /** The value of a decimal rendering, with its sign. */
  function ParseDecimal(s: string): int
    requires s != [] && forall i :: 0 < i < |s| ==> '0' <= s[i] <= '9'
    requires s[0] == '-' || '0' <= s[0] <= '9'
  {
    if s[0] == '-' then -(DigitsValue(s[1..]) as int) else DigitsValue(s)
  }

  /** Reading the digits back gives the number. */
  lemma {:induction false} NatDigitsValue(n: nat)
    ensures DigitsValue(NatDigits(n)) == n
    decreases n
  {
    if n >= 10 {
      NatDigitsValue(n / 10);
      var s := NatDigits(n);
      assert s == NatDigits(n / 10) + [DigitChar(n % 10)];
      assert s[..|s| - 1] == NatDigits(n / 10);
      assert (s[|s| - 1] - '0') as int == n % 10;
    }
  }

  /** Reading a rendered number back gives the number. */
  lemma {:induction false} DecimalRoundTrip(n: int)
    ensures ParseDecimal(Decimal(n)) == n
  {
    if n < 0 {
      NatDigitsValue(-n);
      var d := NatDigits(-n);
      assert Decimal(n) == "-" + d;
      assert Decimal(n)[1..] == d;
    } else {
      NatDigitsValue(n);
    }
  }

  /** The status line: "HTTP/1.1", the code and its reason phrase. */
  function StatusLine(code: int): string
  {
    "HTTP/1.1 " + Decimal(code) + " " + StatusMessage(code)
  }

  /** `println` of one line: the line and the line separator appended. */
  function Println(output: string, line: string, eol: string): string
  {
    output + line + eol
  }

  /** A `println` keeps what was written before. */
  lemma {:induction false} PrintlnKeeps(output: string, line: string, eol: string, k: nat)
    requires k <= |output|
    ensures Println(output, line, eol)[..k] == output[..k]
  {
    assert Println(output, line, eol) == output + (line + eol);
  }

  /** The head of the response, up to and including the blank line. */
  function ResponseHead(code: int, content: string, eol: string): string
  {
    var out := Println("", StatusLine(code), eol);
    var out := Println(out, "Content-Type: text/plain", eol);
    var out := Println(out, "Content-Length: " + Decimal(|content|), eol);
    Println(out, "", eol)
  }

  /** The text `sendResponse` writes: the head, then the content on a line
    * of its own. */
  function ResponseText(code: int, content: string, eol: string): string
  {
    Println(ResponseHead(code, content, eol), content, eol)
  }

  /** The two lines `sendResponse` writes before it needs the content. */
  function ResponsePreamble(code: int, eol: string): string
  {
    Println(Println("", StatusLine(code), eol), "Content-Type: text/plain", eol)
  }

  /** `sendResponse`: five `println` calls on the output.  With a null
    * content the third call throws a `NullPointerException`; the failure
    * carries the text written before it. */
  method SendResponse(response: Response, eol: string) returns (output: Result<string, string>)
    ensures response.content.Some? ==>
      output == Success(ResponseText(response.statusCode, response.content.value, eol))
    ensures response.content.None? ==> output == Failure(ResponsePreamble(response.statusCode, eol))
  {
    var text := "";
    text := Println(text, "HTTP/1.1 " + Decimal(response.statusCode) + " " + response.GetStatusMessage(), eol);
    text := Println(text, "Content-Type: text/plain", eol);
    if response.content.None? {
      return Failure(text);
    }
    var content := response.content.value;
    text := Println(text, "Content-Length: " + Decimal(|content|), eol);
    text := Println(text, "", eol);
    text := Println(text, content, eol);
    return Success(text);
  }

  /** What `sendResponse` writes for a null content is a prefix of what it
    * writes once content is set: the status line and the content type. */
  lemma {:induction false} PreambleOpensResponse(code: int, content: string, eol: string)
    ensures var pre := ResponsePreamble(code, eol);
      |pre| <= |ResponseText(code, content, eol)| && ResponseText(code, content, eol)[..|pre|] == pre
  {
    var pre := ResponsePreamble(code, eol);
    var k := |pre|;
    var out3 := Println(pre, "Content-Length: " + Decimal(|content|), eol);
    PrintlnKeeps(pre, "Content-Length: " + Decimal(|content|), eol, k);
    var out4 := Println(out3, "", eol);
    PrintlnKeeps(out3, "", eol, k);
    PrintlnKeeps(out4, content, eol, k);
  }

  /** The response text: the content follows the head, and the number in
    * the Content-Length line reads back as the content's length. */
  lemma {:induction false} ResponseLayout(code: int, content: string, eol: string)
    ensures var head := ResponseHead(code, content, eol);
      var text := ResponseText(code, content, eol);
      text[..|head|] == head && text[|head|..|head| + |content|] == content &&
      ParseDecimal(Decimal(|content|)) == |content| &&
      ParseDecimal(Decimal(code)) == code
  {
    DecimalRoundTrip(|content|);
    DecimalRoundTrip(code);
  }

  // ---------------------------------------------------------------------
  // handleClient
  // ---------------------------------------------------------------------

  /** `handleClient` on one connection: the text written back, or nothing
    * when `parseRequest` throws (the exception ends the thread before any
    * response is written). */
  method HandleClient(lines: seq<string>, eol: string) returns (output: Option<string>)
    ensures Parse(lines).Failure? ==> output == None
    ensures Parse(lines).Success? ==>
      var route := Route(Parse(lines).value);
      output == Some(ResponseText(route.0, route.1, eol))
  {
    var request := ParseRequest(lines);
    if request.Failure? {
      return None;
    }
    var response := new Response();
    HandleRequest(request.value, response);
    var text := SendResponse(response, eol);
    return Some(text.value);
  }

  /** Five printed lines open with the first one. */
  lemma {:induction false} FirstLineFirst(l1: string, l2: string, l3: string, l4: string, l5: string, eol: string)
    ensures var out := Println(Println(Println(Println(Println("", l1, eol), l2, eol), l3, eol), l4, eol), l5, eol);
      |l1| <= |out| && out[..|l1|] == l1
  {
    var k := |l1|;
    var out1 := Println("", l1, eol);
    assert out1 == l1 + eol;
    assert out1[..k] == l1;
    var out2 := Println(out1, l2, eol);
    PrintlnKeeps(out1, l2, eol, k);
    var out3 := Println(out2, l3, eol);
    PrintlnKeeps(out2, l3, eol, k);
    var out4 := Println(out3, l4, eol);
    PrintlnKeeps(out3, l4, eol, k);
    PrintlnKeeps(out4, l5, eol, k);
  }

  /** The response text opens with its status line. */
  lemma {:induction false} StatusLineFirst(code: int, content: string, eol: string)
    ensures var line := StatusLine(code);
      |line| <= |ResponseText(code, content, eol)| &&
      ResponseText(code, content, eol)[..|line|] == line
  {
    FirstLineFirst(StatusLine(code), "Content-Type: text/plain",
      "Content-Length: " + Decimal(|content|), "", content, eol);
  }

  /** Whatever a client sends, a response that is written starts with the
    * status line of 200, 400 or 404, never with "Internal Server Error". */
  lemma {:induction false} ServedStatus(lines: seq<string>, eol: string)
    requires Parse(lines).Success?
    ensures var route := Route(Parse(lines).value);
      (route.0 == 200 || route.0 == 400 || route.0 == 404) &&
      StatusMessage(route.0) != InternalServerError &&
      ResponseText(route.0, route.1, eol)[..|StatusLine(route.0)|] == StatusLine(route.0)
  {
    var route := Route(Parse(lines).value);
    RouteCases(Parse(lines).value);
    StatusLineFirst(route.0, route.1, eol);
  }
}
