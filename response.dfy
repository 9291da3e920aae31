/** The response builder: it picks a status code from a probe of the file
    system, swaps in a canned error page when the code calls for one, and
    writes the status line, the headers and either a `Content-length` for a
    mapped file or a complete inline error page into a `Buffer`.

    The file system is a snapshot (`FileSystem`) passed to the operations that
    probe it: `stat` succeeds exactly on the paths it holds, and each entry says
    whether `open` and `mmap` of that file would succeed. The mapped bytes
    themselves are not modelled; `mmFile` records whether a mapping is held. */
module ResponseBuilder {
  import opened Text
  import opened ByteBuffer
  import opened HttpRequestParser

  // ---------------------------------------------------------------------------
  // The three lookup tables.

  /** `SUFFIX_TYPE` as its list of entries, including the trailing space of
      the css and js types. No suffix occurs twice, so the first entry with a
      given suffix is the only one. */
  const SuffixTable: seq<(string, string)> := [
    (".html", "text/html"),
    (".xml", "text/xml"),
    (".xhtml", "application/xhtml+xml"),
    (".txt", "text/plain"),
    (".rtf", "application/rtf"),
    (".pdf", "application/pdf"),
    (".word", "application/nsword"),
    (".png", "image/png"),
    (".gif", "image/gif"),
    (".jpg", "image/jpeg"),
    (".jpeg", "image/jpeg"),
    (".au", "audio/basic"),
    (".mpeg", "video/mpeg"),
    (".mpg", "video/mpeg"),
    (".avi", "video/x-msvideo"),
    (".gz", "application/x-gzip"),
    (".tar", "application/x-tar"),
    (".css", "text/css "),
    (".js", "text/javascript ")
  ]

  /** The value stored under `key`, if any (`count(key) == 1` and `find`). */
  function Lookup(table: seq<(string, string)>, key: string): (v: Option<string>)
    ensures v.Some? ==> (key, v.value) in table
    ensures v.None? ==> forall i :: 0 <= i < |table| ==> table[i].0 != key
  {
    if |table| == 0 then None
    else if table[0].0 == key then Some(table[0].1)
    else Lookup(table[1..], key)
  }

  /** `CODE_STATUS`: the reason phrase of each code the builder knows. */
  const CodeStatus: map<int, string> := map[200 := "OK", 400 := "Bad Request", 403 := "Forbidden", 404 := "Not Found"]

  /** `CODE_PATH`: the canned page served for each error code. */
  const CodePath: map<int, string> := map[400 := "/400.html", 403 := "/403.html", 404 := "/404.html"]

  // ---------------------------------------------------------------------------
  // The file system snapshot.

  /** The part of `struct stat` the builder reads: `S_ISDIR`, `S_IROTH` and
      `st_size`. */
  datatype Stat = Stat(isDir: bool, worldReadable: bool, size: nat)

  /** The zero-initialised `struct stat`. */
  const NoStat := Stat(false, false, 0)

  /** A file as `stat`, `open(O_RDONLY)` and `mmap` would find it. */
  datatype Entry = Entry(stat: Stat, openable: bool, mappable: bool)

  /** The paths on which `stat` succeeds. */
  type FileSystem = map<string, Entry>

  /** The fields of a response: `m_code`, `m_iskeepalive`, `m_path`,
      `m_srcdir`, whether `m_mmFile` is non-null, and `m_mmFileStat`. */
  datatype Response = Response(code: int, isKeepAlive: bool, path: string, srcDir: string, mmFile: bool, fileStat: Stat)

  /** The file a response names on disk. */
  function FullPath(r: Response): string
  {
    r.srcDir + r.path
  }

  // ---------------------------------------------------------------------------
  // `GetFileType`.

  /** `s` ends with `sfx`. */
  predicate EndsWith(s: string, sfx: string)
  {
    |sfx| <= |s| && s[|s| - |sfx|..] == sfx
  }

  /** The type of the text from the last '.' of `path` on, or "text/plain"
      when there is no '.' or the suffix is not in the table. */
  function FileType(path: string): (t: string)
    ensures LastIndexOf(path, '.').None? ==> t == "text/plain"
    ensures (forall i :: 0 <= i < |SuffixTable| ==> !EndsWith(path, SuffixTable[i].0)) ==> t == "text/plain"
    ensures t == "text/plain" || exists sfx :: (sfx, t) in SuffixTable
  {
    match LastIndexOf(path, '.')
    case None => "text/plain"
    case Some(idx) =>
      match Lookup(SuffixTable, path[idx..])
      case Some(t) => EndsWithFound(path, idx, t); t
      case None => "text/plain"
  }

  /** A suffix of `path` found in the table is a table suffix `path` ends with. */
  lemma EndsWithFound(path: string, idx: nat, t: string)
    requires idx <= |path| && (path[idx..], t) in SuffixTable
    ensures exists i :: 0 <= i < |SuffixTable| && EndsWith(path, SuffixTable[i].0)
  {
    var i :| 0 <= i < |SuffixTable| && SuffixTable[i] == (path[idx..], t);
    assert EndsWith(path, SuffixTable[i].0);
  }

  predicate NoDot(s: string)
  {
    forall k :: 0 <= k < |s| ==> s[k] != '.'
  }

  /** Each suffix of the table is a '.' followed by a name without '.'. */
  lemma SuffixesShaped()
    ensures forall i :: 0 <= i < |SuffixTable| ==>
      |SuffixTable[i].0| > 0 && SuffixTable[i].0[0] == '.' && NoDot(SuffixTable[i].0[1..])
  {
  }

  /** The entry at position `i` is what a lookup of its suffix finds. */
  lemma {:induction false} LookupAt(table: seq<(string, string)>, i: nat)
    requires i < |table| && forall j :: 0 <= j < i ==> table[j].0 != table[i].0
    ensures Lookup(table, table[i].0) == Some(table[i].1)
  {
    if i > 0 {
      LookupAt(table[1..], i - 1);
    }
  }

  /** A path ending in a suffix of the table gets that suffix's type, whatever
      comes before the suffix. */
  lemma FileTypeOfSuffix(stem: string, ext: string, t: string)
    requires (ext, t) in SuffixTable
    ensures FileType(stem + ext) == Lookup(SuffixTable, ext).value
  {
    SuffixesShaped();
    var p := stem + ext;
    assert p[|stem|] == '.';
    assert forall k :: |stem| < k < |p| ==> p[k] == ext[1..][k - |stem| - 1];
    assert LastIndexOf(p, '.') == Some(|stem|);
    assert p[|stem|..] == ext;
  }

  /** A path without any '.' is plain text. */
  lemma FileTypeWithoutDot(path: string)
    requires NoDot(path)
    ensures FileType(path) == "text/plain"
  {
  }

  /** The css type carries the trailing space of the table. */
  lemma StyleType(stem: string)
    ensures FileType(stem + ".css") == "text/css "
  {
    assert SuffixTable[17] == (".css", "text/css ");
    LookupAt(SuffixTable, 17);
    FileTypeOfSuffix(stem, ".css", "text/css ");
  }

  /** So does the js type. */
  lemma ScriptType(stem: string)
    ensures FileType(stem + ".js") == "text/javascript "
  {
    assert SuffixTable[18] == (".js", "text/javascript ");
    assert forall j :: 0 <= j < 18 ==> SuffixTable[j].0 != ".js" by {
      forall j | 0 <= j < 18
        ensures SuffixTable[j].0 != ".js"
      {
        assert |SuffixTable[j].0| != 3 || SuffixTable[j].0[1] != 'j';
      }
    }
    LookupAt(SuffixTable, 18);
    FileTypeOfSuffix(stem, ".js", "text/javascript ");
  }

  // ---------------------------------------------------------------------------
  // The status line, `AddStateLine`.

  /** The code `AddStateLine` leaves: a code the table does not know becomes 400. */
  function StatusCode(code: int): (c: int)
    ensures c in CodeStatus
  {
    if code in CodeStatus then code else 400
  }

  /** `"Http/1.1" + to_string(code) + " " + reason + "\r\n"`, with no space
      between the version and the code. */
  function StatusLine(code: int): (line: string)
    ensures |line| > 10 && line[..8] == "Http/1.1" && line[|line| - 2..] == "\r\n"
  {
    "Http/1.1" + IntToString(StatusCode(code)) + " " + CodeStatus[StatusCode(code)] + "\r\n"
  }

  lemma ThreeDigits(n: nat)
    requires 100 <= n < 1000
    ensures |NatToString(n)| == 3
  {
    assert NatToString(n) == NatToString(n / 10) + [DigitChar(n % 10)];
    assert NatToString(n / 10) == NatToString(n / 100) + [DigitChar(n / 10 % 10)];
  }

  /** Reading the status line back: after the eight characters "Http/1.1"
      come the three digits of a known code, a space, the reason phrase of that
      code and CR LF; a known code is kept and any other reads back as 400. */
  lemma StatusLineReadsBack(code: int)
    ensures |StatusLine(code)| >= 14 && StatusLine(code)[..8] == "Http/1.1"
    ensures forall k :: 8 <= k < 11 ==> IsDigit(StatusLine(code)[k])
    ensures ParseDecimal(StatusLine(code)[8..11]) == StatusCode(code)
    ensures code in CodeStatus ==> ParseDecimal(StatusLine(code)[8..11]) == code
    ensures code !in CodeStatus ==> ParseDecimal(StatusLine(code)[8..11]) == 400
    ensures StatusLine(code)[11] == ' '
    ensures StatusLine(code)[12..|StatusLine(code)| - 2] == CodeStatus[StatusCode(code)]
    ensures StatusLine(code)[|StatusLine(code)| - 2..] == "\r\n"
  {
    var c := StatusCode(code);
    ThreeDigits(c);
    DecimalRoundTrip(c);
    StatusLineSlices("Http/1.1", NatToString(c), CodeStatus[c]);
  }

  /** Where the parts of a status line sit. */
  lemma StatusLineSlices(version: string, digits: string, reason: string)
    requires |version| == 8 && |digits| == 3
    ensures var line := version + digits + " " + reason + "\r\n";
      && |line| == 14 + |reason| && line[..8] == version && line[8..11] == digits && line[11] == ' '
      && line[12..|line| - 2] == reason && line[|line| - 2..] == "\r\n"
  {
    var line := version + digits + " " + reason + "\r\n";
    assert line[..8] == version;
    assert line[8..11] == digits;
    assert line[12..|line| - 2] == reason;
  }

  /** The line for 200 as the builder writes it. */
  lemma OkStatusLine()
    ensures StatusLine(200) == "Http/1.1200 OK\r\n"
  {
    assert NatToString(2) == "2";
    assert NatToString(20) == "20";
    assert NatToString(200) == "200";
  }

  // ---------------------------------------------------------------------------
  // The header block, `AddHeader`.

  function ConnectionValue(isKeepAlive: bool): string
  {
    if isKeepAlive then "keep-alive" else "close"
  }

  /** What follows "Connection: ": the value's line, and the `keep-alive`
      parameters when the connection stays open. */
  function ConnectionLines(isKeepAlive: bool): string
  {
    if isKeepAlive then "keep-alive\r\n" + "keep-alive: max=6, timeout=120\r\n" else "close\r\n"
  }

  function ContentTypeLine(path: string): string
  {
    "Content-type: " + FileType(path) + "\r\n"
  }

  /** The header block: the `Connection` line (and parameters), then the
      `Content-type` line. */
  function HeaderText(isKeepAlive: bool, path: string): string
  {
    "Connection: " + ConnectionLines(isKeepAlive) + ContentTypeLine(path)
  }

  /** A header line `name: value` followed by CR LF and anything else: the
      line ends at that CR LF and the header grammar reads it back. */
  lemma HeaderLineReadsBack(name: string, value: string, rest: string)
    requires NoColon(name) && NoCr(name) && NoLineBreak(value)
    ensures FindCrlf(name + ": " + value + "\r\n" + rest) == |name| + 2 + |value|
    ensures MatchHeader((name + ": " + value + "\r\n" + rest)[..|name| + 2 + |value|]) == Some((name, value))
  {
    var line := name + ": " + value;
    assert forall k :: 0 <= k < |line| ==> line[k] != '\r' by {
      forall k | 0 <= k < |line|
        ensures line[k] != '\r'
      {
        if k >= |name| + 2 {
          assert line[k] == value[k - |name| - 2];
        }
      }
    }
    FindCrlfAfterLine(line, rest);
    assert (line + "\r\n" + rest)[..|line|] == line;
    HeaderRoundTrip(name, value);
  }

  /** Regrouping a line that sits between a prefix and a tail. */
  lemma Regroup(a: string, v: string, tail: string, c: string)
    ensures a + (v + "\r\n" + tail) + c == (a + v) + "\r\n" + (tail + c)
  {
  }

  /** The parameters line that follows the `Connection` line, if any. */
  function KeepAliveTail(isKeepAlive: bool): string
  {
    if isKeepAlive then "keep-alive: max=6, timeout=120\r\n" else ""
  }

  /** The header block as a header line `Connection: <value>` and what
      follows it. */
  lemma HeaderTextShape(isKeepAlive: bool, path: string)
    ensures HeaderText(isKeepAlive, path) ==
      "Connection" + ": " + ConnectionValue(isKeepAlive) + "\r\n" + (KeepAliveTail(isKeepAlive) + ContentTypeLine(path))
  {
    var v := ConnectionValue(isKeepAlive);
    assert ConnectionLines(isKeepAlive) == v + "\r\n" + KeepAliveTail(isKeepAlive);
    assert "Connection: " == "Connection" + ": ";
    Regroup("Connection" + ": ", v, KeepAliveTail(isKeepAlive), ContentTypeLine(path));
  }

  /** Both `Connection` values are valid header values. */
  lemma ConnectionValueClean(isKeepAlive: bool)
    ensures NoColon("Connection") && NoCr("Connection") && NoLineBreak(ConnectionValue(isKeepAlive))
  {
  }

  /** The header block starts with a `Connection` header line that the
      request parser's header grammar reads back as "keep-alive" exactly when
      the connection is kept open, and as "close" otherwise. */
  lemma ConnectionHeaderReadsBack(isKeepAlive: bool, path: string)
    ensures FindCrlf(HeaderText(isKeepAlive, path)) == 12 + |ConnectionValue(isKeepAlive)|
    ensures MatchHeader(HeaderText(isKeepAlive, path)[..12 + |ConnectionValue(isKeepAlive)|])
      == Some(("Connection", ConnectionValue(isKeepAlive)))
  {
    HeaderTextShape(isKeepAlive, path);
    ConnectionValueClean(isKeepAlive);
    HeaderLineReadsBack("Connection", ConnectionValue(isKeepAlive), KeepAliveTail(isKeepAlive) + ContentTypeLine(path));
  }

  // ---------------------------------------------------------------------------
  // The body of an error, `ErrorContent`, and the `Content-length` line.

  /** The reason `ErrorContent` prints: the table's, or "Bad Request". */
  function ErrorReason(code: int): string
  {
    if code in CodeStatus then CodeStatus[code] else "Bad Request"
  }

  /** The closing signature of the inline error page. */
  const PageClose := "<hr><em>TinyWebServer</em></body></html>"

  /** The inline error page: it carries the message in the paragraph just
      before the closing signature, and ends with that signature. */
  function ErrorBody(code: int, msg: string): (page: string)
    ensures |page| >= |msg| + 4 + |PageClose|
    ensures page[|page| - |PageClose|..] == PageClose
    ensures page[|page| - |PageClose| - 4 - |msg|..|page| - |PageClose| - 4] == msg
  {
    var head := "<html><title>Error</title>" + "<body bgcolor=\"ffffff\">"
      + IntToString(code) + " : " + ErrorReason(code) + "\n" + "<p>";
    Framed(head, msg, "</p>", PageClose);
    head + msg + "</p>" + PageClose
  }

  /** A page made of a head, a message and two closing pieces: where the
      message and the last piece sit. */
  lemma Framed(head: string, msg: string, close: string, last: string)
    ensures var page := head + msg + close + last;
      page[|head|..|head| + |msg|] == msg && page[|page| - |last|..] == last
  {
    var page := head + msg + close + last;
    assert page == head + (msg + close + last);
  }

  /** What `ErrorContent` appends: the length line, the blank line, the page. */
  function ErrorContentText(code: int, msg: string): string
  {
    "Content-length: " + NatToString(|ErrorBody(code, msg)|) + "\r\n\r\n" + ErrorBody(code, msg)
  }

  /** A reader of the text after the headers: "Content-length: ", decimal
      digits, CR LF, the blank line's CR LF, then the body. It gives the
      declared length and the bytes after the blank line. */
  function ReadLength(text: string): Option<(nat, string)>
  {
    if |text| < 16 || text[..16] != "Content-length: " then None
    else
      var rest := text[16..];
      var e := FindCrlf(rest);
      if 0 < e && e + 4 <= |rest| && rest[e..e + 4] == "\r\n\r\n" && forall k :: 0 <= k < e ==> IsDigit(rest[k])
      then Some((ParseDecimal(rest[..e]), rest[e + 4..]))
      else None
  }

  /** Whatever number is written into a length line is read back, and what
      follows the blank line is left as it was. */
  lemma LengthLineReadsBack(n: nat, after: string)
    ensures ReadLength("Content-length: " + NatToString(n) + "\r\n\r\n" + after) == Some((n, after))
  {
    var d := NatToString(n);
    var text := "Content-length: " + d + "\r\n\r\n" + after;
    var rest := d + "\r\n" + ("\r\n" + after);
    assert text[..16] == "Content-length: ";
    assert text[16..] == rest;
    assert NoCr(d);
    FindCrlfAfterLine(d, "\r\n" + after);
    assert rest[..|d|] == d;
    assert rest[|d|..|d| + 4] == "\r\n\r\n";
    assert rest[|d| + 4..] == after;
    DecimalRoundTrip(n);
  }

  /** The length an error page declares is the length of the page that
      follows it. */
  lemma ErrorContentLengthMatches(code: int, msg: string)
    ensures ReadLength(ErrorContentText(code, msg)) == Some((|ErrorBody(code, msg)|, ErrorBody(code, msg)))
  {
    LengthLineReadsBack(|ErrorBody(code, msg)|, ErrorBody(code, msg));
  }

  // ---------------------------------------------------------------------------
  // `MakeResponse`, step by step on values.

  /** `stat(srcdir + path)`: on success the stat buffer takes the file's
      attributes; on failure it keeps what it held. */
  function Stated(r: Response, fs: FileSystem): Response
  {
    if FullPath(r) in fs then r.(fileStat := fs[FullPath(r)].stat) else r
  }

  /** A regular file anyone may read. */
  predicate Servable(r: Response, fs: FileSystem)
  {
    FullPath(r) in fs && !fs[FullPath(r)].stat.isDir && fs[FullPath(r)].stat.worldReadable
  }

  /** The `if` chain at the start of `MakeResponse`: 404 for a missing path or
      a directory, 403 for a file others may not read, 200 in place of a
      preset -1; any other preset code is kept. */
  function ChooseCode(r: Response, fs: FileSystem): (c: Response)
    ensures c.(code := r.code, fileStat := r.fileStat) == r
    ensures FullPath(r) in fs ==> c.fileStat == fs[FullPath(r)].stat
    ensures FullPath(r) !in fs ==> c.fileStat == r.fileStat
    ensures !Servable(r, fs) ==> c.code == 404 || c.code == 403
    ensures Servable(r, fs) ==> c.code == (if r.code == -1 then 200 else r.code)
  {
    var s := Stated(r, fs);
    if FullPath(r) !in fs || fs[FullPath(r)].stat.isDir then s.(code := 404)
    else if !fs[FullPath(r)].stat.worldReadable then s.(code := 403)
    else if r.code == -1 then s.(code := 200)
    else s
  }

  /** `ErrorHtml`: a code with a canned page switches the path to it and
      probes the page. */
  function ErrorHtmlStep(r: Response, fs: FileSystem): Response
  {
    if r.code in CodePath then Stated(r.(path := CodePath[r.code]), fs) else r
  }

  /** The fields once `ErrorHtml` and `AddStateLine` have run. */
  function Prepared(r: Response, fs: FileSystem): Response
  {
    var e := ErrorHtmlStep(ChooseCode(r, fs), fs);
    e.(code := StatusCode(e.code))
  }

  /** `open` and `mmap` of the response's file both succeed. */
  predicate MapsFile(r: Response, fs: FileSystem)
  {
    FullPath(r) in fs && fs[FullPath(r)].openable && fs[FullPath(r)].mappable
  }

  /** `AddContent` on the fields: a mapping is held once the file is mapped;
      a failure leaves `m_mmFile` as it was. */
  function ContentState(r: Response, fs: FileSystem): Response
  {
    if MapsFile(r, fs) then r.(mmFile := true) else r
  }

  /** `AddContent` on the buffer: an error page when the file cannot be opened
      ("File NotFount!", as the source spells it) or mapped ("File NotFound!"),
      otherwise the length line of the mapped file. */
  function ContentText(r: Response, fs: FileSystem): string
  {
    if !(FullPath(r) in fs && fs[FullPath(r)].openable) then ErrorContentText(r.code, "File NotFount!")
    else if !fs[FullPath(r)].mappable then ErrorContentText(r.code, "File NotFound!")
    else "Content-length: " + NatToString(r.fileStat.size) + "\r\n\r\n"
  }

  function MakeResponseState(r: Response, fs: FileSystem): Response
  {
    ContentState(Prepared(r, fs), fs)
  }

  /** Everything `MakeResponse` appends, in order. */
  function MakeResponseText(r: Response, fs: FileSystem): string
  {
    StatusLine(ErrorHtmlStep(ChooseCode(r, fs), fs).code)
      + HeaderText(r.isKeepAlive, Prepared(r, fs).path)
      + ContentText(Prepared(r, fs), fs)
  }

  /** The status a response ends with. It is always one the table knows. A
      missing path or a directory gets 404 and the 404 page; a file others may
      not read gets 403 and the 403 page; 200 goes only to a servable file,
      whose path is kept, and a servable file asked for with no preset code
      (or 200) gets it. */
  lemma ResponseStatus(r: Response, fs: FileSystem)
    ensures MakeResponseState(r, fs).code in CodeStatus
    ensures FullPath(r) !in fs || fs[FullPath(r)].stat.isDir ==>
      MakeResponseState(r, fs).code == 404 && MakeResponseState(r, fs).path == "/404.html"
    ensures FullPath(r) in fs && !fs[FullPath(r)].stat.isDir && !fs[FullPath(r)].stat.worldReadable ==>
      MakeResponseState(r, fs).code == 403 && MakeResponseState(r, fs).path == "/403.html"
    ensures MakeResponseState(r, fs).code == 200 ==> Servable(r, fs) && MakeResponseState(r, fs).path == r.path
    ensures Servable(r, fs) && (r.code == -1 || r.code == 200) ==> MakeResponseState(r, fs).code == 200
  {
  }

  /** A preset code the tables do not know (say 500) on a servable file is
      written as 400 "Bad Request", but the requested file is still sent: the
      error page is chosen before the code is rewritten. */
  lemma UnknownCodeKeepsFile(r: Response, fs: FileSystem)
    requires Servable(r, fs) && r.code != -1 && r.code !in CodeStatus
    ensures MakeResponseState(r, fs).code == 400 && MakeResponseState(r, fs).path == r.path
  {
  }

  /** The stat buffer describes the file the response finally names whenever
      that file exists. */
  lemma StatMatchesPath(r: Response, fs: FileSystem)
    requires FullPath(Prepared(r, fs)) in fs
    ensures Prepared(r, fs).fileStat == fs[FullPath(Prepared(r, fs))].stat
  {
  }

  /** The `Content-length` the response declares: the size of the file when
      it is mapped (its bytes are sent apart from the buffer), otherwise the
      size of the inline error page that follows. */
  lemma AnnouncedLength(r: Response, fs: FileSystem)
    ensures MapsFile(Prepared(r, fs), fs) ==>
      ReadLength(ContentText(Prepared(r, fs), fs)) == Some((fs[FullPath(Prepared(r, fs))].stat.size, ""))
    ensures !MapsFile(Prepared(r, fs), fs) ==>
      ReadLength(ContentText(Prepared(r, fs), fs)).Some? &&
      ReadLength(ContentText(Prepared(r, fs), fs)).value.0 == |ReadLength(ContentText(Prepared(r, fs), fs)).value.1|
  {
    var p := Prepared(r, fs);
    if MapsFile(p, fs) {
      StatMatchesPath(r, fs);
      assert "Content-length: " + NatToString(p.fileStat.size) + "\r\n\r\n" + "" == ContentText(p, fs);
      LengthLineReadsBack(p.fileStat.size, "");
    } else if !(FullPath(p) in fs && fs[FullPath(p)].openable) {
      ErrorContentLengthMatches(p.code, "File NotFount!");
    } else {
      ErrorContentLengthMatches(p.code, "File NotFound!");
    }
  }

  /** Appending in two steps appends the concatenation. */
  lemma AppendTwice(a: string, b: string, c: string)
    ensures a + b + c == a + (b + c)
  {
  }

  lemma AppendThree(t: string, a: string, b: string, c: string)
    ensures t + a + b + c == t + (a + b + c)
  {
  }

  lemma AppendFour(t: string, a: string, b: string, c: string, d: string)
    ensures t + a + b + c + d == t + (a + (b + c) + d)
  {
  }

  /** `MakeResponse` as its parts: the fields after `ErrorHtml` (`r1`) and
      after `AddStateLine` (`r2`) determine the text and the final fields. */
  lemma MakeResponseSplit(r0: Response, fs: FileSystem, r1: Response, r2: Response)
    requires r1 == ErrorHtmlStep(ChooseCode(r0, fs), fs) && r2 == r1.(code := StatusCode(r1.code))
    ensures Prepared(r0, fs) == r2 && r2.isKeepAlive == r0.isKeepAlive
    ensures MakeResponseText(r0, fs) == StatusLine(r1.code) + HeaderText(r2.isKeepAlive, r2.path) + ContentText(r2, fs)
    ensures MakeResponseState(r0, fs) == ContentState(r2, fs)
  {
  }

  /** After `MakeResponse` a mapping is held exactly when one was held before
      or the final file was mapped; together with the count `MakeResponse`
      keeps, a response that held nothing ends with at most the one mapping
      it holds. */
  lemma MakeResponseMapping(r: Response, fs: FileSystem)
    ensures MakeResponseState(r, fs).mmFile == (r.mmFile || MapsFile(Prepared(r, fs), fs))
    ensures MakeResponseState(r, fs).fileStat == Prepared(r, fs).fileStat
  {
  }

  // ---------------------------------------------------------------------------
  // The response object.

  class HttpResponse {
    var code: int
    var isKeepAlive: bool
    var path: string
    var srcDir: string
    var mmFile: bool
    var fileStat: Stat
    /** Mappings this object has made and not released. */
    ghost var live: nat

    function Data(): Response
      reads this
    {
      Response(code, isKeepAlive, path, srcDir, mmFile, fileStat)
    }

    /** A held mapping is one this object made. */
    ghost predicate Valid()
      reads this
    {
      mmFile ==> live >= 1
    }

    /** The resource invariant: exactly the held mapping is live. */
    ghost predicate OneMapping()
      reads this
    {
      live == if mmFile then 1 else 0
    }

    /** `File()`: whether a mapping is held (the C++ returns its address). */
    function File(): bool
      reads this
    {
      mmFile
    }

    /** `FileLen()`: the size in the stat buffer. */
    function FileLen(): nat
      reads this
    {
      fileStat.size
    }

    constructor ()
      ensures Data() == Response(-1, false, "", "", false, NoStat)
      ensures live == 0 && Valid() && OneMapping()
    {
      code := -1;
      isKeepAlive := false;
      path := "";
      srcDir := "";
      mmFile := false;
      fileStat := NoStat;
      live := 0;
    }

    /** `UnmapFile`: release the mapping if one is held; a second call does
        nothing. */
    method UnmapFile()
      requires Valid()
      modifies this
      ensures Valid() && !File()
      ensures Data() == old(Data()).(mmFile := false)
      ensures live == old(live) - (if old(mmFile) then 1 else 0)
      ensures old(OneMapping()) ==> OneMapping() && live == 0
    {
      if mmFile {
        mmFile := false;
        live := live - 1;
      }
    }

    /** `Init`: release any mapping, then take the new request's parameters
        and clear the stat buffer. */
    method Init(srcDir': string, path': string, isKeepAlive': bool, code': int)
      requires srcDir' != "" && Valid()
      modifies this
      ensures Valid() && !File()
      ensures Data() == Response(code', isKeepAlive', path', srcDir', false, NoStat)
      ensures live == old(live) - (if old(mmFile) then 1 else 0)
      ensures old(OneMapping()) ==> OneMapping()
    {
      if mmFile {
        UnmapFile();
      }
      code := code';
      isKeepAlive := isKeepAlive';
      path := path';
      srcDir := srcDir';
      mmFile := false;
      fileStat := NoStat;
    }

    /** `ErrorHtml`. */
    method ErrorHtml(fs: FileSystem)
      modifies this
      ensures Data() == ErrorHtmlStep(old(Data()), fs)
      ensures live == old(live) && mmFile == old(mmFile)
    {
      if code in CodePath {
        path := CodePath[code];
        if srcDir + path in fs {
          fileStat := fs[srcDir + path].stat;
        }
      }
    }

    /** `AddStateLine`: rewrite an unknown code to 400 and append the line. */
    method AddStateLine(buff: Buffer)
      requires buff.Valid()
      modifies this, buff, buff.buf
      ensures buff.Valid() && (buff.buf == old(buff.buf) || fresh(buff.buf))
      ensures Data() == old(Data()).(code := StatusCode(old(code)))
      ensures live == old(live) && mmFile == old(mmFile)
      ensures buff.Readable() == old(buff.Readable()) + StatusLine(old(code))
    {
      var status: string;
      if code in CodeStatus {
        status := CodeStatus[code];
      } else {
        code := 400;
        status := CodeStatus[400];
      }
      buff.Append("Http/1.1" + IntToString(code) + " " + status + "\r\n");
    }

    /** `AddHeader`. */
    method AddHeader(buff: Buffer)
      requires buff.Valid()
      modifies buff, buff.buf
      ensures buff.Valid() && (buff.buf == old(buff.buf) || fresh(buff.buf))
      ensures buff.Readable() == old(buff.Readable()) + HeaderText(isKeepAlive, path)
    {
      ghost var before := buff.Readable();
      buff.Append("Connection: ");
      if isKeepAlive {
        buff.Append("keep-alive\r\n");
        buff.Append("keep-alive: max=6, timeout=120\r\n");
        AppendFour(before, "Connection: ", "keep-alive\r\n", "keep-alive: max=6, timeout=120\r\n", ContentTypeLine(path));
      } else {
        buff.Append("close\r\n");
        AppendThree(before, "Connection: ", "close\r\n", ContentTypeLine(path));
      }
      buff.Append("Content-type: " + FileType(path) + "\r\n");
    }

    /** `ErrorContent`: append the length line and the inline error page. */
    method ErrorContent(buff: Buffer, msg: string)
      requires buff.Valid()
      modifies buff, buff.buf
      ensures buff.Valid() && (buff.buf == old(buff.buf) || fresh(buff.buf))
      ensures buff.Readable() == old(buff.Readable()) + ErrorContentText(code, msg)
    {
      var body := "<html><title>Error</title>";
      body := body + "<body bgcolor=\"ffffff\">";
      var status: string;
      if code in CodeStatus {
        status := CodeStatus[code];
      } else {
        status := "Bad Request";
      }
      body := body + IntToString(code) + " : " + status + "\n";
      body := body + "<p>" + msg + "</p>";
      body := body + "<hr><em>TinyWebServer</em></body></html>";
      assert body == ErrorBody(code, msg);
      ghost var before := buff.Readable();
      buff.Append("Content-length: " + NatToString(|body|) + "\r\n\r\n");
      buff.Append(body);
      AppendTwice(before, "Content-length: " + NatToString(|body|) + "\r\n\r\n", body);
    }

    /** `AddContent`: open and map the file, or write an error page. */
    method AddContent(buff: Buffer, fs: FileSystem)
      requires buff.Valid() && Valid()
      modifies this, buff, buff.buf
      ensures buff.Valid() && Valid() && (buff.buf == old(buff.buf) || fresh(buff.buf))
      ensures Data() == ContentState(old(Data()), fs)
      ensures buff.Readable() == old(buff.Readable()) + ContentText(old(Data()), fs)
      ensures live == old(live) + (if MapsFile(old(Data()), fs) then 1 else 0)
    {
      var full := srcDir + path;
      if !(full in fs && fs[full].openable) {
        ErrorContent(buff, "File NotFount!");
        return;
      }
      if !fs[full].mappable {
        ErrorContent(buff, "File NotFound!");
        return;
      }
      mmFile := true;
      live := live + 1;
      buff.Append("Content-length: " + NatToString(fileStat.size) + "\r\n\r\n");
    }

    /** The opening of `MakeResponse`: probe the file, settle the code by the
        `if` chain, then `ErrorHtml`. */
    method ChooseStatus(fs: FileSystem)
      modifies this
      ensures Data() == ErrorHtmlStep(ChooseCode(old(Data()), fs), fs)
      ensures live == old(live) && mmFile == old(mmFile) && isKeepAlive == old(isKeepAlive)
    {
      ghost var r0 := Data();
      var full := srcDir + path;
      if full in fs {
        fileStat := fs[full].stat;
      }
      if full !in fs || fs[full].stat.isDir {
        code := 404;
      } else if !fs[full].stat.worldReadable {
        code := 403;
      } else if code == -1 {
        code := 200;
      }
      assert Data() == ChooseCode(r0, fs);
      ErrorHtml(fs);
    }

    /** `MakeResponse`: settle the status, then write the status line, the
        headers and the content part. */
    method MakeResponse(buff: Buffer, fs: FileSystem)
      requires buff.Valid() && Valid()
      modifies this, buff, buff.buf
      ensures buff.Valid() && Valid() && (buff.buf == old(buff.buf) || fresh(buff.buf))
      ensures Data() == MakeResponseState(old(Data()), fs)
      ensures buff.Readable() == old(buff.Readable()) + MakeResponseText(old(Data()), fs)
      ensures live == old(live) + (if MapsFile(Prepared(old(Data()), fs), fs) then 1 else 0)
    {
      ghost var r0 := Data();
      ghost var t0 := buff.Readable();
      ChooseStatus(fs);
      ghost var r1 := Data();
      AddStateLine(buff);
      ghost var r2 := Data();
      AddHeader(buff);
      AddContent(buff, fs);
      MakeResponseSplit(r0, fs, r1, r2);
      AppendThree(t0, StatusLine(r1.code), HeaderText(r2.isKeepAlive, r2.path), ContentText(r2, fs));
    }
  }

  /** A connection serving one request after another calls `Init` and then
      `MakeResponse` each time; however many files are mapped along the way,
      the response never holds more than the one mapping it can release. */
  method ServeTwice(resp: HttpResponse, buff: Buffer, fs: FileSystem, srcDir: string,
                    first: string, second: string, isKeepAlive: bool)
    requires srcDir != "" && resp.Valid() && resp.OneMapping() && buff.Valid()
    modifies resp, buff, buff.buf
    ensures resp.Valid() && resp.OneMapping() && resp.live <= 1
    ensures resp.File() == MapsFile(Prepared(Response(-1, isKeepAlive, second, srcDir, false, NoStat), fs), fs)
  {
    Serve(resp, buff, fs, srcDir, first, isKeepAlive);
    Serve(resp, buff, fs, srcDir, second, isKeepAlive);
  }

  /** One `Init` and `MakeResponse`: the response holds a mapping exactly when
      it mapped the file it settled on. */
  method Serve(resp: HttpResponse, buff: Buffer, fs: FileSystem, srcDir: string, path: string, isKeepAlive: bool)
    requires srcDir != "" && resp.Valid() && resp.OneMapping() && buff.Valid()
    modifies resp, buff, buff.buf
    ensures buff.Valid() && (buff.buf == old(buff.buf) || fresh(buff.buf))
    ensures resp.Valid() && resp.OneMapping() && resp.live <= 1
    ensures resp.File() == MapsFile(Prepared(Response(-1, isKeepAlive, path, srcDir, false, NoStat), fs), fs)
  {
    resp.Init(srcDir, path, isKeepAlive, -1);
    ghost var r := resp.Data();
    resp.MakeResponse(buff, fs);
    MakeResponseMapping(r, fs);
  }
}
