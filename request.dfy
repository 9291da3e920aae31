/** The HTTP request parser: a state machine that consumes CR LF terminated
    lines from a `Buffer` (request line, header lines, one body line), fills in
    the method, path, version, headers and form fields, and routes login and
    registration forms through a credential check. The two regular
    expressions of the code are modelled by the matchers `MatchRequestLine` and
    `MatchHeader`; the loop of `parse` is specified by `ParseLoop`. */
module HttpRequestParser {
  import opened Text
  import opened ByteBuffer
  import opened UrlencodedForm

  /** `PARSE_STATE`. */
  datatype ParseState = RequestLine | Headers | Body | Finish

  /** The parser's fields as one value: `m_state`, `m_method`, `m_path`,
      `m_version`, `m_body`, `m_header`, `m_post`. */
  datatype Request = Request(state: ParseState, httpMethod: string, path: string, version: string,
                             body: string, header: map<string, string>, post: map<string, string>)

  /** What `Init` leaves: empty strings and maps, waiting for a request line. */
  const Initial: Request := Request(RequestLine, "", "", "", "", map[], map[])

  /** `DEFAULT_HTML`: the pages that may be named without their ".html". */
  const DefaultHtml: seq<string> := ["/index", "/register", "/login", "/welcome", "/video", "/picture"]

  /** `DEFAULT_HTML_TAG`: the form targets, 0 for registration and 1 for login. */
  const DefaultHtmlTag: map<string, int> := map["/register.html" := 0, "/login.html" := 1]

  const FormContentType: string := "application/x-www-form-urlencoded"

  /** The database lookup of `UserVerify` behind its argument check: given a
      name, a password and whether this is a login (rather than a
      registration), whether the server accepts them. */
  type Verifier = (string, string, bool) -> bool

  /** `UserVerify`: an empty name or password is refused before the database
      is consulted. */
  function UserVerify(verify: Verifier, name: string, pwd: string, isLogin: bool): (ok: bool)
    ensures ok ==> name != "" && pwd != ""
    ensures name != "" && pwd != "" ==> ok == verify(name, pwd, isLogin)
  {
    if name == "" || pwd == "" then false else verify(name, pwd, isLogin)
  }

  // ---------------------------------------------------------------------------
  // The request line: `^([^ ]*) ([^ ]*) HTTP/([^ ]*)$`.

  predicate NoSpace(t: string)
  {
    forall k :: 0 <= k < |t| ==> t[k] != ' '
  }

  /** The three groups of the request-line expression. */
  datatype RequestLineParts = RequestLineParts(httpMethod: string, target: string, version: string)

  predicate ValidParts(p: RequestLineParts)
  {
    NoSpace(p.httpMethod) && NoSpace(p.target) && NoSpace(p.version)
  }

  /** The line the expression describes for given groups. */
  function JoinRequestLine(p: RequestLineParts): string
  {
    p.httpMethod + " " + p.target + " HTTP/" + p.version
  }

  /** `regex_match` of the request-line expression: the method runs to the
      first space, the target to the second, and the rest must be "HTTP/"
      followed by a version with no space in it. Whatever it accepts is a
      line of the expression's shape, and the groups it returns are the parts
      the line is made of. */
  function MatchRequestLine(line: string): (m: Option<RequestLineParts>)
    ensures m.Some? ==> ValidParts(m.value) && line == JoinRequestLine(m.value)
  {
    var a := IndexOf(line, ' ');
    if a == |line| then None
    else
      var rest := line[a + 1..];
      var b := IndexOf(rest, ' ');
      if b == |rest| then None
      else
        var tail := rest[b + 1..];
        if |tail| >= 5 && tail[..5] == "HTTP/" && NoSpace(tail[5..]) then
          RequestLineCuts(line, a, rest, b, tail);
          Some(RequestLineParts(line[..a], rest[..b], tail[5..]))
        else None
  }

  /** The three cuts the matcher makes give the groups of the line. */
  lemma RequestLineCuts(line: string, a: nat, rest: string, b: nat, tail: string)
    requires a == IndexOf(line, ' ') < |line| && rest == line[a + 1..]
    requires b == IndexOf(rest, ' ') < |rest| && tail == rest[b + 1..]
    requires |tail| >= 5 && tail[..5] == "HTTP/" && NoSpace(tail[5..])
    ensures var p := RequestLineParts(line[..a], rest[..b], tail[5..]);
      ValidParts(p) && line == JoinRequestLine(p)
  {
    var p := RequestLineParts(line[..a], rest[..b], tail[5..]);
    SplitAround(line, a);
    SplitAround(rest, b);
    assert tail == "HTTP/" + p.version;
    Regather(line, rest, tail, p);
  }

  /** `s` cut around the character at `i`. */
  lemma SplitAround(s: string, i: nat)
    requires i < |s|
    ensures s == s[..i] + [s[i]] + s[i + 1..]
  {
  }

  /** The request line rebuilt from its three cuts. */
  lemma Regather(line: string, rest: string, tail: string, p: RequestLineParts)
    requires line == p.httpMethod + " " + rest && rest == p.target + " " + tail && tail == "HTTP/" + p.version
    ensures line == JoinRequestLine(p)
  {
  }

  /** A space-free string followed by a space: `IndexOf` finds that space. */
  lemma SpaceAfterWord(w: string, rest: string)
    requires NoSpace(w)
    ensures IndexOf(w + " " + rest, ' ') == |w|
    ensures (w + " " + rest)[..|w|] == w && (w + " " + rest)[|w| + 1..] == rest
  {
    var s := w + " " + rest;
    assert s[|w|] == ' ';
    assert forall k :: 0 <= k < |w| ==> s[k] == w[k];
  }

  /** The matcher accepts exactly the lines the expression describes, and
      gives back the groups they were built from. */
  lemma RequestLineMatchesExactly(line: string, p: RequestLineParts)
    ensures MatchRequestLine(line) == Some(p) <==> ValidParts(p) && line == JoinRequestLine(p)
  {
    if ValidParts(p) && line == JoinRequestLine(p) {
      RequestLineFromParts(p);
    }
  }

  /** The matcher takes a line of the expression's shape apart into the parts
      it was made of. */
  lemma RequestLineFromParts(p: RequestLineParts)
    requires ValidParts(p)
    ensures MatchRequestLine(JoinRequestLine(p)) == Some(p)
  {
    var line := JoinRequestLine(p);
    var rest := p.target + " HTTP/" + p.version;
    var tail := "HTTP/" + p.version;
    assert line == p.httpMethod + " " + rest;
    assert rest == p.target + " " + tail;
    SpaceAfterWord(p.httpMethod, rest);
    SpaceAfterWord(p.target, tail);
    assert tail[..5] == "HTTP/" && tail[5..] == p.version;
  }

  // ---------------------------------------------------------------------------
  // Header lines: `^([^:]*): ?(.*)$`.

  predicate NoColon(t: string)
  {
    forall k :: 0 <= k < |t| ==> t[k] != ':'
  }

  /** What `.` matches: anything but a line terminator. */
  predicate NoLineBreak(t: string)
  {
    forall k :: 0 <= k < |t| ==> t[k] != '\r' && t[k] != '\n'
  }

  /** `regex_match` of the header expression: the name runs to the first ':',
      one space after it is dropped if present, and the value is the rest,
      which may hold no line terminator. */
  function MatchHeader(line: string): (m: Option<(string, string)>)
    ensures NoColon(line) ==> m.None?
    ensures m.Some? ==> NoColon(m.value.0) && NoLineBreak(m.value.1)
    ensures m.Some? ==>
      line == m.value.0 + ": " + m.value.1 ||
      (line == m.value.0 + ":" + m.value.1 && (m.value.1 == "" || m.value.1[0] != ' '))
  {
    var c := IndexOf(line, ':');
    if c == |line| then None
    else
      var rest := line[c + 1..];
      assert line == line[..c] + ":" + rest;
      if !NoLineBreak(rest) then None
      else if |rest| > 0 && rest[0] == ' ' then
        assert rest == " " + rest[1..];
        Some((line[..c], rest[1..]))
      else Some((line[..c], rest))
  }

  /** A colon-free string followed by ':': `IndexOf` finds that colon. */
  lemma ColonAfterName(name: string, rest: string)
    requires NoColon(name)
    ensures IndexOf(name + ":" + rest, ':') == |name|
    ensures (name + ":" + rest)[..|name|] == name && (name + ":" + rest)[|name| + 1..] == rest
  {
    var s := name + ":" + rest;
    assert s[|name|] == ':';
    assert forall k :: 0 <= k < |name| ==> s[k] == name[k];
  }

  /** `name: value` is read back as `(name, value)`, and so is `name:value`
      unless the value starts with a space, which the optional space absorbs. */
  lemma HeaderRoundTrip(name: string, value: string)
    requires NoColon(name) && NoLineBreak(value)
    ensures MatchHeader(name + ": " + value) == Some((name, value))
    ensures value == "" || value[0] != ' ' ==> MatchHeader(name + ":" + value) == Some((name, value))
  {
    ColonAfterName(name, " " + value);
    assert name + ": " + value == name + ":" + (" " + value);
    assert (" " + value)[1..] == value;
    assert NoLineBreak(" " + value);
    ColonAfterName(name, value);
  }

  /** The blank line that ends the headers matches no header. */
  lemma BlankLineIsNoHeader()
    ensures MatchHeader("") == None
  {
    assert NoColon("");
  }

  // ---------------------------------------------------------------------------
  // The steps of the state machine, on values.

  /** `ParsePath`: "/" is the index page and the known pages gain ".html". */
  function NormalizePath(p: string): (q: string)
    ensures q != p <==> p == "/" || p in DefaultHtml
  {
    if p == "/" then "/index.html"
    else if p in DefaultHtml then p + ".html"
    else p
  }

  /** A normalised path is left alone by a second normalisation. */
  lemma NormalizePathIdempotent(p: string)
    ensures NormalizePath(NormalizePath(p)) == NormalizePath(p)
  {
    if p in DefaultHtml {
      var q := p + ".html";
      assert q[|p|] == '.';
      DefaultPagesHaveNoDot();
      assert q !in DefaultHtml;
    }
  }

  /** None of the known pages has a '.' in its name. */
  lemma DefaultPagesHaveNoDot()
    ensures forall d, k :: d in DefaultHtml && 0 <= k < |d| ==> d[k] != '.'
  {
    forall d, k | d in DefaultHtml && 0 <= k < |d|
      ensures d[k] != '.'
    {
      var i :| 0 <= i < |DefaultHtml| && DefaultHtml[i] == d;
      assert i < 6;
    }
  }

  /** Reading `m[k]` of a `std::unordered_map` inserts an empty value for a
      missing key. */
  function Subscript(m: map<string, string>, k: string): (m1: map<string, string>)
    ensures k in m1 && m1[k] == (if k in m then m[k] else "")
    ensures m1.Keys == m.Keys + {k}
    ensures forall x :: x in m ==> m1[x] == m[x]
  {
    if k in m then m else m[k := ""]
  }

  /** `ParseRequestLine`, then `ParsePath`; `None` when the line does not match. */
  function RequestLineStep(r: Request, line: string): (r1: Option<Request>)
  {
    match MatchRequestLine(line)
    case None => None
    case Some(p) =>
      Some(r.(httpMethod := p.httpMethod, path := NormalizePath(p.target), version := p.version, state := Headers))
  }

  /** `ParseHeader`: a matching line sets its header (the last one wins);
      any other line, the blank line included, moves on to the body. */
  function HeaderStep(r: Request, line: string): (r1: Request)
  {
    match MatchHeader(line)
    case Some(nv) => r.(header := r.header[nv.0 := nv.1])
    case None => r.(state := Body)
  }

  /** `ParsePost`: for a POST whose `Content-Type` (read with `[]`, so it is
      inserted when absent) is a form, decode the body into the fields; a form
      sent to the login or registration page is then checked, with the
      credentials read with `[]` as well, and the path becomes the welcome
      page or the error page. */
  function PostStep(r: Request, verify: Verifier): (r1: Request)
    requires IsFormPost(r) ==> EscapesComplete(r.body)
    ensures r.httpMethod != "POST" ==> r1 == r
    ensures r.httpMethod == "POST" && !IsFormPost(r) ==> r1 == r.(header := Subscript(r.header, "Content-Type"))
    ensures r1.state == r.state && r1.httpMethod == r.httpMethod && r1.version == r.version
    ensures r.httpMethod == "POST" ==> r1.header == Subscript(r.header, "Content-Type")
    ensures r1.path != r.path ==>
      r.httpMethod == "POST" && r.path in DefaultHtmlTag && (r1.path == "/welcome.html" || r1.path == "/error.html")
    ensures r1.path == "/welcome.html" && r.path in DefaultHtmlTag ==>
      "username" in r1.post && "password" in r1.post && r1.post["username"] != "" && r1.post["password"] != ""
  {
    if r.httpMethod != "POST" then r
    else
      var header := Subscript(r.header, "Content-Type");
      if header["Content-Type"] != FormContentType then r.(header := header)
      else
        var d := Decode(r.body, r.post);
        var r1 := r.(header := header, body := d.body, post := d.fields);
        if r.path !in DefaultHtmlTag then r1
        else
          var tag := DefaultHtmlTag[r.path];
          if tag != 0 && tag != 1 then r1
          else
            var post := Subscript(Subscript(d.fields, "username"), "password");
            var ok := UserVerify(verify, post["username"], post["password"], tag == 1);
            r1.(post := post, path := if ok then "/welcome.html" else "/error.html")
  }

  /** A form POST: the body and the fields are decoded; a form sent to the
      login or registration page then has `username` and `password` inserted
      with `[]`, and goes to the welcome page exactly when `UserVerify`
      accepts them, as a login for the login page; any other target keeps
      its path. */
  lemma PostRouting(r: Request, verify: Verifier)
    requires IsFormPost(r) && EscapesComplete(r.body)
    ensures PostStep(r, verify).header == r.header && PostStep(r, verify).body == Decode(r.body, r.post).body
    ensures r.path !in DefaultHtmlTag ==>
      PostStep(r, verify).path == r.path && PostStep(r, verify).post == Decode(r.body, r.post).fields
    ensures r.path in DefaultHtmlTag ==>
      var f := Subscript(Subscript(Decode(r.body, r.post).fields, "username"), "password");
      var isLogin := r.path == "/login.html";
      PostStep(r, verify).post == f &&
      PostStep(r, verify).path == (if UserVerify(verify, f["username"], f["password"], isLogin) then "/welcome.html" else "/error.html")
  {
    if r.path in DefaultHtmlTag {
      assert DefaultHtmlTag[r.path] == 1 <==> r.path == "/login.html";
    }
  }

  /** A POST whose `Content-Type` is the form type: `ParsePost` hands its
      body to the form decoder. */
  predicate IsFormPost(r: Request)
  {
    r.httpMethod == "POST" && "Content-Type" in r.header && r.header["Content-Type"] == FormContentType
  }

  /** `ParseBody`: the line becomes the body, `ParsePost` runs, parsing ends. */
  function BodyStep(r: Request, line: string, verify: Verifier): (r1: Request)
    requires IsFormPost(r) ==> EscapesComplete(line)
    ensures r1.state == Finish
  {
    PostStep(r.(body := line), verify).(state := Finish)
  }

  /** One pass of the loop of `parse` on a line, with `readable` the number of
      readable bytes at the start of the pass: in the header state a pass that
      starts with at most two readable bytes ends the parse. `None` is the
      `return false` of a request line that does not match. */
  function Dispatch(r: Request, line: string, readable: nat, verify: Verifier): (r1: Option<Request>)
    requires r.state == Body && IsFormPost(r) ==> EscapesComplete(line)
  {
    match r.state
    case RequestLine => RequestLineStep(r, line)
    case Headers =>
      var h := HeaderStep(r, line);
      Some(if readable <= 2 then h.(state := Finish) else h)
    case Body => Some(BodyStep(r, line, verify))
    case Finish => Some(r)
  }

  // ---------------------------------------------------------------------------
  // The loop of `parse`, on values.

  /** Every '%' of the input has two more characters before the end of its
      line, so that a body line handed to the form decoder is complete. */
  predicate EscapesOnLines(s: string)
  {
    forall k :: 0 <= k < |s| && s[k] == '%' ==> k + 2 < |s| && !CrlfAt(s, k + 1) && !CrlfAt(s, k + 2)
  }

  predicate PercentsComplete(t: string)
  {
    forall k :: 0 <= k < |t| && t[k] == '%' ==> k + 2 < |t|
  }

  /** A text whose every '%' has two characters after it can be scanned. */
  lemma {:induction false} PercentsEscape(t: string)
    requires PercentsComplete(t)
    ensures EscapesComplete(t)
    decreases |t|
  {
    if |t| > 0 {
      if t[0] == '%' {
        assert PercentsComplete(t[3..]) by {
          forall k | 0 <= k < |t[3..]| && t[3..][k] == '%'
            ensures k + 2 < |t[3..]|
          {
            assert t[3 + k] == '%';
          }
        }
        PercentsEscape(t[3..]);
      } else {
        assert PercentsComplete(t[1..]) by {
          forall k | 0 <= k < |t[1..]| && t[1..][k] == '%'
            ensures k + 2 < |t[1..]|
          {
            assert t[1 + k] == '%';
          }
        }
        PercentsEscape(t[1..]);
      }
    }
  }

  /** The first line of such an input can be scanned, and the input after its
      CR LF has the same property. */
  lemma LineEscapes(s: string)
    requires EscapesOnLines(s)
    ensures EscapesComplete(s[..FindCrlf(s)])
    ensures FindCrlf(s) < |s| ==> EscapesOnLines(s[FindCrlf(s) + 2..])
  {
    var e := FindCrlf(s);
    LinePercents(s, e);
    PercentsEscape(s[..e]);
    if e < |s| {
      SuffixEscapes(s, e + 2);
    }
  }

  /** A prefix that ends at a CR LF, or at the end, keeps every '%' complete. */
  lemma LinePercents(s: string, e: nat)
    requires EscapesOnLines(s) && e <= |s| && (e < |s| ==> CrlfAt(s, e))
    ensures PercentsComplete(s[..e])
  {
    forall k | 0 <= k < e && s[..e][k] == '%'
      ensures k + 2 < e
    {
      assert s[k] == '%';
    }
  }

  /** Dropping a prefix keeps the property. */
  lemma SuffixEscapes(s: string, n: nat)
    requires EscapesOnLines(s) && n <= |s|
    ensures EscapesOnLines(s[n..])
  {
    var t := s[n..];
    forall k | 0 <= k < |t| && t[k] == '%'
      ensures k + 2 < |t| && !CrlfAt(t, k + 1) && !CrlfAt(t, k + 2)
    {
      assert s[n + k] == '%';
      assert CrlfAt(t, k + 1) == CrlfAt(s, n + k + 1);
      assert CrlfAt(t, k + 2) == CrlfAt(s, n + k + 2);
    }
  }

  /** What a call of `parse` does: the parser's fields afterwards, how many
      bytes it consumed from the buffer, and what it returned. */
  datatype Outcome = Outcome(req: Request, consumed: nat, ok: bool)

  /** The loop of `parse` over the readable bytes `s`. Each pass takes the
      text up to the first CR LF (all of `s` when there is none) as its line
      and dispatches it; the line and its CR LF are then consumed, except that
      a line without a CR LF is left in the buffer and the loop stops. */
  function ParseLoop(r: Request, s: string, verify: Verifier): (o: Outcome)
    requires EscapesOnLines(s)
    ensures o.consumed <= |s|
    decreases |s|, 1
  {
    if |s| == 0 || r.state == Finish then Outcome(r, 0, true)
    else Pass(r, s, verify)
  }

  /** One pass of that loop over a non-empty input, and the passes after it. */
  function Pass(r: Request, s: string, verify: Verifier): (o: Outcome)
    requires EscapesOnLines(s) && |s| > 0
    ensures o.consumed <= |s|
    decreases |s|, 0
  {
    var e := FindCrlf(s);
    LineEscapes(s);
    match Dispatch(r, s[..e], |s|, verify)
    case None => Outcome(r, 0, false)
    case Some(r1) =>
      if e == |s| then Outcome(r1, 0, true)
      else
        var o := ParseLoop(r1, s[e + 2..], verify);
        Outcome(o.req, e + 2 + o.consumed, o.ok)
  }

  /** `parse`: an empty buffer is refused; otherwise the loop runs. */
  function ParseOutcome(r: Request, s: string, verify: Verifier): (o: Outcome)
    requires EscapesOnLines(s)
    ensures |s| == 0 ==> o == Outcome(r, 0, false)
  {
    if |s| == 0 then Outcome(r, 0, false) else ParseLoop(r, s, verify)
  }

  predicate NoCr(t: string)
  {
    forall k :: 0 <= k < |t| ==> t[k] != '\r'
  }

  /** A complete line that the parser accepts is consumed together with its
      CR LF, and the parse goes on with what follows it. */
  lemma ParseConsumesLine(r: Request, line: string, rest: string, verify: Verifier, r1: Request)
    requires r.state != Finish && NoCr(line) && EscapesOnLines(line + "\r\n" + rest)
    requires EscapesComplete(line) && Dispatch(r, line, |line| + 2 + |rest|, verify) == Some(r1)
    ensures EscapesOnLines(rest)
    ensures ParseLoop(r, line + "\r\n" + rest, verify) ==
      Outcome(ParseLoop(r1, rest, verify).req, |line| + 2 + ParseLoop(r1, rest, verify).consumed, ParseLoop(r1, rest, verify).ok)
  {
    LineThenRest(line, rest);
    ParseAtLine(r, line + "\r\n" + rest, line, rest, verify, r1);
  }

  /** The same for an input already known to be cut that way. */
  lemma ParseAtLine(r: Request, s: string, line: string, rest: string, verify: Verifier, r1: Request)
    requires r.state != Finish && EscapesOnLines(s)
    requires FindCrlf(s) == |line| && |s| == |line| + 2 + |rest| && s[..|line|] == line && s[|line| + 2..] == rest
    requires EscapesComplete(line) && Dispatch(r, line, |s|, verify) == Some(r1)
    ensures EscapesOnLines(rest)
    ensures ParseLoop(r, s, verify) ==
      Outcome(ParseLoop(r1, rest, verify).req, |line| + 2 + ParseLoop(r1, rest, verify).consumed, ParseLoop(r1, rest, verify).ok)
  {
    PassContinues(r, s, verify, ParseLoop(r, s, verify), |line|, r1);
  }

  /** The pieces of a line followed by CR LF and more text. */
  lemma LineThenRest(line: string, rest: string)
    requires NoCr(line)
    ensures FindCrlf(line + "\r\n" + rest) == |line| && |line + "\r\n" + rest| == |line| + 2 + |rest|
    ensures (line + "\r\n" + rest)[..|line|] == line && (line + "\r\n" + rest)[|line| + 2..] == rest
  {
    var s := line + "\r\n" + rest;
    FindCrlfAfterLine(line, rest);
    assert s[..|line|] == line && s[|line| + 2..] == rest;
  }

  /** One pass of the loop over a non-empty input, when it ends the loop: a
      refused line ends it with that outcome at once, and a line without
      CR LF ends it with nothing more consumed. */
  lemma PassStops(r: Request, s: string, verify: Verifier, rest: Outcome, e: nat)
    requires r.state != Finish && EscapesOnLines(s) && |s| > 0 && ParseLoop(r, s, verify) == rest
    requires e == FindCrlf(s)
    ensures EscapesComplete(s[..e])
    ensures Dispatch(r, s[..e], |s|, verify).None? ==> rest == Outcome(r, 0, false)
    ensures Dispatch(r, s[..e], |s|, verify).Some? && e == |s| ==>
      rest == Outcome(Dispatch(r, s[..e], |s|, verify).value, 0, true)
  {
    LineEscapes(s);
  }

  /** One pass of the loop over an accepted line with CR LF after it: the
      rest of the outcome is the loop's over the text after the CR LF. */
  lemma PassContinues(r: Request, s: string, verify: Verifier, rest: Outcome, e: nat, r1: Request)
    requires r.state != Finish && EscapesOnLines(s) && |s| > 0 && ParseLoop(r, s, verify) == rest
    requires e == FindCrlf(s) && e < |s| && EscapesComplete(s[..e]) && Dispatch(r, s[..e], |s|, verify) == Some(r1)
    ensures EscapesOnLines(s[e + 2..]) && e + 2 <= rest.consumed
    ensures ParseLoop(r1, s[e + 2..], verify) == Outcome(rest.req, rest.consumed - (e + 2), rest.ok)
  {
    LineEscapes(s);
    assert rest == Pass(r, s, verify);
  }

  /** The loop ends at once on an empty input or a finished request. */
  lemma LoopStops(r: Request, s: string, verify: Verifier)
    requires EscapesOnLines(s) && (|s| == 0 || r.state == Finish)
    ensures ParseLoop(r, s, verify) == Outcome(r, 0, true)
  {
  }

  /** A request line that does not match makes `parse` return false at once,
      consuming nothing and changing nothing. */
  lemma BadRequestLineRefused(r: Request, s: string, verify: Verifier)
    requires r.state == RequestLine && EscapesOnLines(s) && |s| > 0
    requires MatchRequestLine(s[..FindCrlf(s)]).None?
    ensures ParseOutcome(r, s, verify) == Outcome(r, 0, false)
  {
    LineEscapes(s);
    assert Dispatch(r, s[..FindCrlf(s)], |s|, verify).None?;
    assert ParseOutcome(r, s, verify) == Pass(r, s, verify);
  }

  /** A header line that arrives without its CR LF and is cut before its ':'
      (a read that ended mid-line) is taken for the blank line: the parser
      moves to the body state, and the partial line stays in the buffer. */
  lemma PartialHeaderEntersBody(r: Request, s: string, verify: Verifier)
    requires r.state == Headers && NoColon(s) && NoCr(s) && |s| > 2 && EscapesOnLines(s)
    ensures ParseOutcome(r, s, verify) == Outcome(r.(state := Body), 0, true)
  {
    assert FindCrlf(s) == |s|;
    assert s[..|s|] == s;
    assert ParseOutcome(r, s, verify) == Pass(r, s, verify);
  }

  /** Of two header lines with the same name the later one wins. */
  lemma DuplicateHeaderLastWins(r: Request, name: string, v1: string, v2: string)
    requires NoColon(name) && NoLineBreak(v1) && NoLineBreak(v2)
    ensures HeaderStep(HeaderStep(r, name + ": " + v1), name + ": " + v2) == r.(header := r.header[name := v2])
  {
    HeaderRoundTrip(name, v1);
    HeaderRoundTrip(name, v2);
  }

  /** The form target of a POST whose decoded fields lack a user name or a
      password is the error page whatever the database would say. */
  lemma MissingCredentialsRefused(r: Request, verify: Verifier)
    requires r.httpMethod == "POST" && EscapesComplete(r.body)
    requires "Content-Type" in r.header && r.header["Content-Type"] == FormContentType
    requires r.path in DefaultHtmlTag
    requires var f := Decode(r.body, r.post).fields;
      "username" !in f || "password" !in f || f["username"] == "" || f["password"] == ""
    ensures PostStep(r, verify).path == "/error.html"
    ensures PostStep(r, verify).post.Keys == Decode(r.body, r.post).fields.Keys + {"username", "password"}
  {
    assert DefaultHtmlTag[r.path] == 0 || DefaultHtmlTag[r.path] == 1;
  }

  /** A token of a request or header line: no line terminator, no escape. */
  predicate Clean(t: string)
  {
    forall k :: 0 <= k < |t| ==> t[k] != '\r' && t[k] != '\n' && t[k] != '%'
  }

  /** A clean line before a CR LF keeps the escape property of what follows. */
  lemma EscapesAfterLine(line: string, rest: string)
    requires Clean(line) && EscapesOnLines(rest)
    ensures EscapesOnLines(line + "\r\n" + rest)
  {
    var s := line + "\r\n" + rest;
    var n := |line| + 2;
    forall k | 0 <= k < |s| && s[k] == '%'
      ensures k + 2 < |s| && !CrlfAt(s, k + 1) && !CrlfAt(s, k + 2)
    {
      assert k >= n;
      assert s[k] == rest[k - n];
      assert CrlfAt(s, k + 1) == CrlfAt(rest, k - n + 1);
      assert CrlfAt(s, k + 2) == CrlfAt(rest, k - n + 2);
    }
  }

  lemma CleanRequestLine(p: RequestLineParts)
    requires Clean(p.httpMethod) && Clean(p.target) && Clean(p.version)
    ensures Clean(JoinRequestLine(p)) && NoCr(JoinRequestLine(p))
  {
    var l := JoinRequestLine(p);
    assert l == p.httpMethod + " " + p.target + " HTTP/" + p.version;
    forall k | 0 <= k < |l|
      ensures l[k] != '\r' && l[k] != '\n' && l[k] != '%'
    {
      var a := |p.httpMethod| + 1;
      var b := a + |p.target| + 6;
      if k < |p.httpMethod| {
        assert l[k] == p.httpMethod[k];
      } else if a <= k < a + |p.target| {
        assert l[k] == p.target[k - a];
      } else if b <= k {
        assert l[k] == p.version[k - b];
      }
    }
  }

  lemma CleanHeaderLine(name: string, value: string)
    requires Clean(name) && Clean(value)
    ensures Clean(name + ": " + value) && NoCr(name + ": " + value)
  {
    var l := name + ": " + value;
    forall k | 0 <= k < |l|
      ensures l[k] != '\r' && l[k] != '\n' && l[k] != '%'
    {
      if k < |name| {
        assert l[k] == name[k];
      } else if k >= |name| + 2 {
        assert l[k] == value[k - |name| - 2];
      }
    }
  }

  /** The last pass of a request without body: the blank line in the header
      state, with only its CR LF left, ends the parse. */
  lemma BlankLineFinishes(r: Request, verify: Verifier)
    requires r.state == Headers
    ensures EscapesOnLines("\r\n")
    ensures ParseLoop(r, "\r\n", verify) == Outcome(r.(state := Finish), 2, true)
  {
    BlankLineIsNoHeader();
    assert "" + "\r\n" + "" == "\r\n";
    ParseConsumesLine(r, "", "", verify, r.(state := Finish));
  }

  /** A request with one header and no body, read in one piece, is parsed
      completely: the path is normalised, the header is stored, every byte is
      consumed and `parse` returns true. */
  lemma ParseGetRequest(p: RequestLineParts, name: string, value: string, verify: Verifier)
    requires ValidParts(p) && Clean(p.httpMethod) && Clean(p.target) && Clean(p.version)
    requires NoColon(name) && Clean(name) && Clean(value)
    ensures var s := JoinRequestLine(p) + "\r\n" + (name + ": " + value) + "\r\n" + "\r\n";
      EscapesOnLines(s) &&
      ParseOutcome(Initial, s, verify) ==
        Outcome(Request(Finish, p.httpMethod, NormalizePath(p.target), p.version, "", map[name := value], map[]), |s|, true)
  {
    var l1 := JoinRequestLine(p);
    var h := name + ": " + value;
    var s3 := "\r\n";
    var s2 := h + "\r\n" + s3;
    var s := l1 + "\r\n" + s2;
    assert s == JoinRequestLine(p) + "\r\n" + (name + ": " + value) + "\r\n" + "\r\n";
    CleanRequestLine(p);
    CleanHeaderLine(name, value);
    assert NoLineBreak(value);
    BlankLineFinishes(Request(Headers, p.httpMethod, NormalizePath(p.target), p.version, "", map[name := value], map[]), verify);
    EscapesAfterLine(h, s3);
    EscapesAfterLine(l1, s2);
    RequestLineMatchesExactly(l1, p);
    var r1 := Request(Headers, p.httpMethod, NormalizePath(p.target), p.version, "", map[], map[]);
    assert RequestLineStep(Initial, l1) == Some(r1);
    PercentsEscape(l1);
    ParseConsumesLine(Initial, l1, s2, verify, r1);
    HeaderRoundTrip(name, value);
    assert HeaderStep(r1, h) == r1.(header := map[name := value]);
    PercentsEscape(h);
    ParseConsumesLine(r1, h, s3, verify, r1.(header := map[name := value]));
  }

  // ---------------------------------------------------------------------------
  // The parser object.

  class HttpRequest {
    var state: ParseState
    var httpMethod: string
    var path: string
    var version: string
    var body: string
    var header: map<string, string>
    var post: map<string, string>

    /** The fields as one value. */
    function Data(): Request
      reads this
    {
      Request(state, httpMethod, path, version, body, header, post)
    }

    /** The constructor calls `Init`. */
    constructor ()
      ensures Data() == Initial
    {
      state, httpMethod, path, version, body := RequestLine, "", "", "", "";
      header, post := map[], map[];
    }

    /** `Init`: forget the previous request. */
    method Init()
      modifies this
      ensures Data() == Initial
    {
      body, httpMethod, version, path := "", "", "", "";
      state := RequestLine;
      header := map[];
      post := map[];
    }

    /** `IsKeepAlive`: a `Connection: keep-alive` header on an HTTP/1.1 request. */
    function IsKeepAlive(): (b: bool)
      reads this
      ensures b <==> "Connection" in header && header["Connection"] == "keep-alive" && version == "1.1"
    {
      if "Connection" in header then header["Connection"] == "keep-alive" && version == "1.1" else false
    }

    /** `GetPost`: the form field under a non-empty key, or "" when there is none. */
    function GetPost(key: string): (v: string)
      reads this
      requires key != ""
      ensures key in post ==> v == post[key]
      ensures key !in post ==> v == ""
    {
      if key in post then post[key] else ""
    }

    /** `ParseRequestLine`: on a match, store the three groups and expect headers. */
    method ParseRequestLine(line: string) returns (ok: bool)
      modifies this
      ensures ok <==> MatchRequestLine(line).Some?
      ensures ok ==> Data() == old(Data()).(httpMethod := MatchRequestLine(line).value.httpMethod,
        path := MatchRequestLine(line).value.target, version := MatchRequestLine(line).value.version, state := Headers)
      ensures !ok ==> Data() == old(Data())
    {
      var m := MatchRequestLine(line);
      if m.Some? {
        httpMethod := m.value.httpMethod;
        path := m.value.target;
        version := m.value.version;
        state := Headers;
        return true;
      }
      return false;
    }

    /** `ParsePath`: a search of the known pages. */
    method ParsePath()
      modifies this
      ensures Data() == old(Data()).(path := NormalizePath(old(path)))
    {
      if path == "/" {
        path := "/index.html";
      } else {
        var k := 0;
        while k < |DefaultHtml|
          invariant k <= |DefaultHtml| && Data() == old(Data())
          invariant forall m :: 0 <= m < k ==> DefaultHtml[m] != path
        {
          if DefaultHtml[k] == path {
            path := path + ".html";
            return;
          }
          k := k + 1;
        }
      }
    }

    /** `ParseHeader`. */
    method ParseHeader(line: string)
      modifies this
      ensures Data() == HeaderStep(old(Data()), line)
    {
      var m := MatchHeader(line);
      if m.Some? {
        header := header[m.value.0 := m.value.1];
      } else {
        state := Body;
      }
    }

    /** `ParseBody`. */
    method ParseBody(line: string, verify: Verifier)
      requires IsFormPost(Data()) ==> EscapesComplete(line)
      modifies this
      ensures Data() == BodyStep(old(Data()), line, verify)
    {
      body := line;
      ParsePost(verify);
      state := Finish;
    }

    /** `ParsePost`. */
    method ParsePost(verify: Verifier)
      requires IsFormPost(Data()) ==> EscapesComplete(body)
      modifies this
      ensures Data() == PostStep(old(Data()), verify)
    {
      if httpMethod == "POST" {
        header := Subscript(header, "Content-Type");
        if header["Content-Type"] == FormContentType {
          ParseFromUrlencoded();
          if path in DefaultHtmlTag {
            var tag := DefaultHtmlTag[path];
            if tag == 0 || tag == 1 {
              var isLogin := tag == 1;
              post := Subscript(post, "username");
              post := Subscript(post, "password");
              if UserVerify(verify, post["username"], post["password"], isLogin) {
                path := "/welcome.html";
              } else {
                path := "/error.html";
              }
            }
          }
        }
      }
    }

    /** `ParseFromUrlencoded`: an empty body is left alone; otherwise the scan
        rewrites the body and collects the pairs. */
    method ParseFromUrlencoded()
      requires EscapesComplete(body)
      modifies this
      ensures Data() == old(Data()).(body := Decode(old(body), old(post)).body, post := Decode(old(body), old(post)).fields)
    {
      if |body| == 0 {
        assert Decode(body, post) == Decoded(body, post);
        return;
      }
      body, post := ScanBody(body, post);
    }

    /** The `switch` in the loop of `parse`: hand one line to the step of
        the current state; `readable` is the buffer's readable byte count. */
    method DispatchLine(line: string, readable: nat, verify: Verifier) returns (ok: bool)
      requires state == Body && IsFormPost(Data()) ==> EscapesComplete(line)
      modifies this
      ensures ok == Dispatch(old(Data()), line, readable, verify).Some?
      ensures ok ==> Data() == Dispatch(old(Data()), line, readable, verify).value
      ensures !ok ==> Data() == old(Data())
    {
      match state {
        case RequestLine =>
          ok := ParseRequestLine(line);
          if !ok {
            return;
          }
          ParsePath();
        case Headers =>
          ParseHeader(line);
          if readable <= 2 {
            state := Finish;
          }
          ok := true;
        case Body =>
          ParseBody(line, verify);
          ok := true;
        case Finish =>
          ok := true;
      }
    }

    /** One pass of the loop of `parse`, stated against `rest`, what the loop
        still has to do from here: the pass either ends the loop (`more`
        false) with that outcome, or leaves the remainder to the text after
        the line it consumed. */
    method ParsePass(buffer: Buffer, verify: Verifier, ghost rest: Outcome) returns (dispatched: bool, more: bool, ghost taken: nat)
      requires buffer.Valid() && buffer.ReadableBytes() > 0 && state != Finish
      requires EscapesOnLines(buffer.Readable()) && ParseLoop(Data(), buffer.Readable(), verify) == rest
      modifies this, buffer
      ensures buffer.Valid() && buffer.buf == old(buffer.buf)
      ensures !more ==> Data() == rest.req && rest.ok == dispatched && rest.consumed == 0
      ensures !more ==> buffer.readPos == old(buffer.readPos) && buffer.writePos == old(buffer.writePos)
      ensures more ==> dispatched && 2 <= taken <= rest.consumed
      ensures more ==> buffer.readPos == old(buffer.readPos) + taken && buffer.writePos == old(buffer.writePos)
      ensures more ==> EscapesOnLines(buffer.Readable()) && ParseLoop(Data(), buffer.Readable(), verify) == Outcome(rest.req, rest.consumed - taken, rest.ok)
    {
      ghost var text, r := buffer.Readable(), Data();
      ghost var e := FindCrlf(text);
      PassStops(r, text, verify, rest, e);
      dispatched, more := HandleLine(buffer, verify, text);
      if more {
        assert Dispatch(r, text[..e], |text|, verify) == Some(Data());
        PassContinues(r, text, verify, rest, e, Data());
        assert buffer.Readable() == text[e + 2..];
        taken := e + 2;
      } else {
        assert Data() == rest.req && rest.ok == dispatched && rest.consumed == 0;
        taken := 0;
      }
    }

    /** The body of the `while` loop of `parse`: take the readable text `s` up
        to its first CR LF as the line, dispatch it, and, when the line is
        accepted and has its CR LF, consume both. */
    method HandleLine(buffer: Buffer, verify: Verifier, ghost s: string) returns (dispatched: bool, more: bool)
      requires buffer.Valid() && buffer.Readable() == s && EscapesComplete(s[..FindCrlf(s)])
      modifies this, buffer
      ensures buffer.Valid() && buffer.buf == old(buffer.buf) && buffer.writePos == old(buffer.writePos)
      ensures dispatched == Dispatch(old(Data()), s[..FindCrlf(s)], |s|, verify).Some?
      ensures dispatched ==> Data() == Dispatch(old(Data()), s[..FindCrlf(s)], |s|, verify).value
      ensures !dispatched ==> Data() == old(Data())
      ensures more == (dispatched && FindCrlf(s) < |s|)
      ensures buffer.readPos == old(buffer.readPos) + (if more then FindCrlf(s) + 2 else 0)
      ensures more ==> buffer.Readable() == s[FindCrlf(s) + 2..]
    {
      var e := FindCrlf(buffer.Readable());
      var line := buffer.Readable()[..e];
      dispatched := DispatchLine(line, buffer.ReadableBytes(), verify);
      if !dispatched || e == buffer.ReadableBytes() {
        return dispatched, false;
      }
      buffer.RetrieveUntil(buffer.Peek() + e + 2);
      return true, true;
    }

    /** `parse`: an empty buffer is refused; otherwise the loop runs over the
        buffer's readable bytes. */
    method Parse(buffer: Buffer, verify: Verifier) returns (ok: bool)
      requires buffer.Valid() && EscapesOnLines(buffer.Readable())
      modifies this, buffer
      ensures buffer.Valid() && buffer.buf == old(buffer.buf)
      ensures ok == ParseOutcome(old(Data()), old(buffer.Readable()), verify).ok
      ensures Data() == ParseOutcome(old(Data()), old(buffer.Readable()), verify).req
      ensures buffer.Readable() == old(buffer.Readable())[ParseOutcome(old(Data()), old(buffer.Readable()), verify).consumed..]
    {
      if buffer.ReadableBytes() == 0 {
        return false;
      }
      ghost var fin := ParseLoop(Data(), buffer.Readable(), verify);
      ok := ParseLines(buffer, verify, fin);
      assert buffer.Readable() == old(buffer.Readable())[fin.consumed..];
    }

    /** The `while` loop of `parse`, which runs until the buffer is drained,
        the request is finished, or a pass stops it; `fin` is what the loop
        amounts to on the readable bytes. */
    method ParseLines(buffer: Buffer, verify: Verifier, ghost fin: Outcome) returns (ok: bool)
      requires buffer.Valid() && EscapesOnLines(buffer.Readable())
      requires ParseLoop(Data(), buffer.Readable(), verify) == fin
      modifies this, buffer
      ensures buffer.Valid() && buffer.buf == old(buffer.buf)
      ensures ok == fin.ok && Data() == fin.req
      ensures buffer.readPos == old(buffer.readPos) + fin.consumed && buffer.writePos == old(buffer.writePos)
    {
      ghost var consumed: nat := 0;
      while buffer.ReadableBytes() > 0 && state != Finish
        invariant buffer.Valid() && buffer.buf == old(buffer.buf)
        invariant consumed <= fin.consumed && buffer.readPos == old(buffer.readPos) + consumed && buffer.writePos == old(buffer.writePos)
        invariant EscapesOnLines(buffer.Readable())
        invariant ParseLoop(Data(), buffer.Readable(), verify) == Outcome(fin.req, fin.consumed - consumed, fin.ok)
        decreases buffer.ReadableBytes()
      {
        var dispatched, more, taken := ParsePass(buffer, verify, Outcome(fin.req, fin.consumed - consumed, fin.ok));
        if !dispatched {
          return false;
        }
        if !more {
          break;
        }
        consumed := consumed + taken;
      }
      if buffer.ReadableBytes() == 0 || state == Finish {
        LoopStops(Data(), buffer.Readable(), verify);
      }
      ok := true;
    }
  }
}

module HttpRequestExamples {
  import opened Text
  import opened HttpRequestParser

  /** A keep-alive request for a known page, read in one piece: the page name
      gains ".html", the header is stored, and all 47 bytes are consumed. */
  lemma KeepAliveIndexRequest(verify: Verifier)
    ensures var s := "GET /index HTTP/1.1\r\n" + "Connection: keep-alive\r\n" + "\r\n";
      EscapesOnLines(s) &&
      ParseOutcome(Initial, s, verify) ==
        Outcome(Request(Finish, "GET", "/index.html", "1.1", "", map["Connection" := "keep-alive"], map[]), 47, true)
  {
    var p := RequestLineParts("GET", "/index", "1.1");
    IndexRequestParts();
    IndexRequestText();
    ParseGetRequest(p, "Connection", "keep-alive", verify);
  }

  lemma IndexRequestParts()
    ensures var p := RequestLineParts("GET", "/index", "1.1");
      ValidParts(p) && Clean(p.httpMethod) && Clean(p.target) && Clean(p.version)
      && NoColon("Connection") && Clean("Connection") && Clean("keep-alive")
      && NormalizePath(p.target) == "/index.html"
  {
    assert "/index" in DefaultHtml;
  }

  lemma IndexRequestText()
    ensures var l, h := JoinRequestLine(RequestLineParts("GET", "/index", "1.1")), "Connection" + ": " + "keep-alive";
      && l + "\r\n" + h + "\r\n" + "\r\n" == "GET /index HTTP/1.1\r\n" + "Connection: keep-alive\r\n" + "\r\n"
      && |l + "\r\n" + h + "\r\n" + "\r\n"| == 47
  {
    var l, h := JoinRequestLine(RequestLineParts("GET", "/index", "1.1")), "Connection" + ": " + "keep-alive";
    assert l + "\r\n" == "GET /index HTTP/1.1\r\n";
    assert h + "\r\n" == "Connection: keep-alive\r\n";
    assert l + "\r\n" + h + "\r\n" + "\r\n" == (l + "\r\n") + (h + "\r\n") + "\r\n";
  }

  /** A request line without the expected shape is refused at once. */
  lemma BogusRequestRefused(verify: Verifier)
    ensures EscapesOnLines("BOGUS" + "\r\n\r\n")
    ensures ParseOutcome(Initial, "BOGUS" + "\r\n\r\n", verify) == Outcome(Initial, 0, false)
  {
    var s := "BOGUS" + "\r\n\r\n";
    assert s == "BOGUS" + "\r\n" + "\r\n";
    FindCrlfAfterLine("BOGUS", "\r\n");
    assert s[..5] == "BOGUS";
    assert IndexOf("BOGUS", ' ') == 5;
    BadRequestLineRefused(Initial, s, verify);
  }
}
