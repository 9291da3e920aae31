# TinyWebServer wire core in Dafny

This project models the part of TinyWebServer that turns bytes into a request
and a response into bytes. It has three components:

- **`Buffer`** (`buffer.dfy`, module `ByteBuffer`). The growable byte vector
  every connection reads into and writes from. It has a read cursor and a
  write cursor. `MakeSpace_` either grows the vector or compacts it, and
  `Append` copies bytes in.
- **`HttpRequest`** (`request.dfy`, module `HttpRequestParser`, with the form
  decoder in `form.dfy`, module `UrlencodedForm`). The four-state parser:
  request line, headers, body, finish. It consumes CR LF terminated lines
  from a `Buffer`, normalises the path, and decodes
  `application/x-www-form-urlencoded` bodies. It routes login and
  registration forms through a credential check.
- **`HttpResponse`** (`response.dfy`, module `ResponseBuilder`). It chooses a
  status from a probe of the file system, swaps in a canned error page, and
  writes the status line, the headers, and either a `Content-length` for a
  mapped file or an inline error page into a `Buffer`.

`text.dfy` (module `Text`) holds the string searches and the decimal
rendering the C++ gets from the standard library. It also has a reader of
decimal digits, which serves as the partner of the renderer.

How the model is built:

- Each class of the source is a Dafny `class` with the same fields.
  - `Buffer` keeps its storage in an `array<char>`. Its methods move the two
    cursors and copy bytes in place.
  - `HttpRequest` and `HttpResponse` expose their fields as one value
    through `Data()`.
- The `Buffer` methods state their new fields and contents outright, in
  terms of the old state. Every method of `HttpRequest` and `HttpResponse`
  is proved against a function on values. `ParseLoop` is the
  loop of `parse`. `Decode` is the loop of `ParseFromUrlencoded`.
  `MakeResponseState` and `MakeResponseText` are `MakeResponse`.
- The properties are lemmas about those functions.
  - Rewriting and pair collection are checked against independent
    descriptions (`Rewrite`, `Collect`, `Fields`).
  - What the parser matches is checked against the text its grammar
    describes.
  - What the response builder writes is checked against readers of that
    text (`ParseDecimal`, `ReadLength`, and the parser's own header
    matcher).

The regular expressions are modelled as hand-written matchers:

- request line: `^([^ ]*) ([^ ]*) HTTP/([^ ]*)$`
- header line: `^([^:]*): ?(.*)$`

`.` does not match a line terminator, so a header value holding CR or LF
does not match.

The file system is a snapshot, `FileSystem`. It maps each path on which
`stat` succeeds to the file's `stat` fields and to whether `open` and `mmap`
of the file would succeed. The credential database behind `UserVerify` is a
function parameter, `Verifier`. A ghost counter `live` on `HttpResponse`
counts the mappings the object has made and not released.

Where the code and the server's design description disagree, the model
follows the code:

- **A line without CR LF.** When no CR LF is found, the code still dispatches
  the rest of the readable text as a line. It then stops without consuming
  it (`src/http/httprequest.cpp:44-45, 64`). The design description says
  parsing suspends without handling the partial line. `PartialHeaderEntersBody`
  shows the consequence: a header line cut before its `:` is taken for the
  blank line. So the same request split across two reads is not always
  parsed the same way.
- **The finish check in the header state.** The check `ReadableBytes() <= 2`
  reads the count *before* the current line is consumed
  (`src/http/httprequest.cpp:55`). The description counts after consuming
  it.
- **The status line.** It is written `"Http/1.1" + code + " " + reason`, with
  no space after the version (`src/http/httpresponse.cpp:109`).
- **Header spelling.** The headers are spelled `Content-type` and
  `Content-length`.
- **The error messages.** The two messages are "File NotFount!" for an `open`
  failure and "File NotFound!" for an `mmap` failure.
- **The type lookup.** It uses the text from the *last* `.` of the path,
  including the trailing spaces of the css and js entries. The description
  speaks of a longest-suffix match.
- **`%XY` in a form.** It is rewritten as the two characters
  `num / 10 + '0'` and `num % 10 + '0'`, the decimal value of the escape and
  not the decoded character. For `num >= 100` the first of these is not a
  digit: `%FF` becomes `%I5`.

## Model

| member | source | states |
|---|---|---|
| Text.FindCrlf | src/http/httprequest.cpp:44 | `std::search` for CR LF: the result is the first index where CR LF starts, or the length when there is none |
| Text.LastIndexOf | src/http/httpresponse.cpp:153-156 | `find_last_of('.')`: the last index holding the character, or none when it does not occur |
| Text.NatToString | src/http/httpresponse.cpp:140 | `std::to_string`: at least one decimal digit, and no leading zero |
| Text.DecimalRoundTrip | src/http/httpresponse.cpp:140 | reading back the digits `std::to_string` wrote gives the number |
| Text.NatToStringInjective | src/http/httpresponse.cpp:177 | the decimal renderer is injective: two numbers with the same rendering are equal |
| ByteBuffer.Buffer.constructor | src/buffer/buffer.cpp:4 | capacity is the initial size, both cursors are 0, and the storage is zeroed |
| ByteBuffer.Buffer.ReadableBytes | src/buffer/buffer.cpp:6-8 | the readable count never exceeds the capacity |
| ByteBuffer.Buffer.WritableBytes | src/buffer/buffer.cpp:10-12 | readable + writable + prependable bytes equal the capacity |
| ByteBuffer.Buffer.PrependableBytes | src/buffer/buffer.cpp:15-17 | prependable and readable bytes fit in the capacity |
| ByteBuffer.Buffer.Peek | src/buffer/buffer.cpp:20-22 | the read offset plus the readable count is the write cursor, and the bytes from it are the readable view |
| ByteBuffer.Buffer.BeginWrite | src/buffer/buffer.cpp:53-55 | the write offset follows the readable view, and the writable bytes run from it to the end |
| ByteBuffer.Buffer.Retrieve | src/buffer/buffer.cpp:26-29 | requires `len <= ReadableBytes()`; only the read cursor moves, by `len`, and the readable view loses its first `len` bytes |
| ByteBuffer.Buffer.RetrieveAll | src/buffer/buffer.cpp:32-36 | both cursors become 0, every storage byte is zeroed, and the capacity is unchanged |
| ByteBuffer.Buffer.RetrieveUntil | src/buffer/buffer.cpp:39-42 | requires an end inside the readable view; exactly the bytes before it are consumed |
| ByteBuffer.Buffer.RetrieveAllToStr | src/buffer/buffer.cpp:45-49 | returns exactly the readable bytes in order and leaves the buffer empty and zeroed |
| ByteBuffer.Buffer.MakeSpace | src/buffer/buffer.cpp:63-74 | when writable + prependable < `len`, the capacity becomes `writePos + len + 1` with cursors and bytes kept; otherwise the capacity is unchanged, the readable bytes move to offset 0, `readPos` = 0 and `writePos` = the old readable count |
| ByteBuffer.Buffer.EnsureWritable | src/buffer/buffer.cpp:78-83 | afterwards at least `len` bytes are writable and the readable content is unchanged; nothing changes when that already held; the new capacity is the one `MakeSpace_` chooses |
| ByteBuffer.Buffer.HasWritten | src/buffer/buffer.cpp:86-88 | only the write cursor moves, by `len` |
| ByteBuffer.Buffer.Append | src/buffer/buffer.cpp:94-99 | the readable content becomes the old content followed by the appended bytes, and the capacity never shrinks (covers the `char*`, `void*` and `std::string` overloads at lines 106-113) |
| ByteBuffer.Buffer.AppendBuffer | src/buffer/buffer.cpp:101-103 | appends exactly the other buffer's readable bytes, and the capacity never shrinks |
| ByteBuffer.Copy | src/buffer/buffer.cpp:97 | `std::copy` into the storage overwrites exactly the target range |
| ByteBuffer.Grown | src/buffer/buffer.cpp:65 | `resize` keeps the old bytes as a prefix and zero-fills the new ones |
| ByteBuffer.ShiftDown | src/buffer/buffer.cpp:68 | the compaction copy moves the readable bytes to the front and leaves the bytes after them alone |
| ByteBuffer.AppendThenRetrieve | src/buffer/buffer.cpp:94-99 | appending bytes, then retrieving the count that was readable before and everything left, gives back exactly the appended bytes |
| UrlencodedForm.SignedChar | src/http/httprequest.cpp:121 | a byte read through the signed `char` keeps its value below 0x80 and is 256 less from 0x80 to 0xFF |
| UrlencodedForm.ConvertHex | src/http/httprequest.cpp:121-125 | a hexadecimal digit of either case maps to its value below 16; any other byte maps to its signed value minus '0' |
| UrlencodedForm.ConvertHexInverse | src/http/httprequest.cpp:121-125 | `ConverHex` inverts both spellings of every hexadecimal digit |
| UrlencodedForm.TruncDiv | src/http/httprequest.cpp:164 | C++ `/` truncates toward zero |
| UrlencodedForm.TruncRem | src/http/httprequest.cpp:163 | C++ `%` pairs with the truncating quotient and takes the sign of the dividend |
| UrlencodedForm.ToByteChar | src/http/httprequest.cpp:163-164 | storing an `int` into a `char` keeps its value modulo 256 |
| UrlencodedForm.EscapeRewriteDigits | src/http/httprequest.cpp:162-165 | for a genuine escape the value is below 256 and the second character is its units digit; the first is a decimal digit (the tens) exactly when the value is below 100 |
| UrlencodedForm.ScanAtKeyEnd | src/http/httprequest.cpp:154-157 | an '=' makes the pending text the key and restarts the pending text after it |
| UrlencodedForm.ScanAtPlus | src/http/httprequest.cpp:158-160 | a '+' is overwritten with a space |
| UrlencodedForm.ScanAtEscape | src/http/httprequest.cpp:161-166 | a '%' has two characters after it, which are overwritten with `num % 10 + '0'` and `num / 10 + '0'`; the scan then skips them |
| UrlencodedForm.ScanAtPairEnd | src/http/httprequest.cpp:167-172 | an '&' stores the pending text under the key, overwriting |
| UrlencodedForm.ScanAtKept | src/http/httprequest.cpp:173 | any other character is kept |
| UrlencodedForm.ScanRewrites | src/http/httprequest.cpp:151-175 | the scan leaves the body as `Rewrite` describes it |
| UrlencodedForm.ScanCollects | src/http/httprequest.cpp:151-180 | the scan stores exactly the pairs `Collect` describes, including the trailing pair rule |
| UrlencodedForm.DecodeRewrites | src/http/httprequest.cpp:145-181 | decoding rewrites the whole body as `Rewrite` says ('+' to space, `%xy` to '%' and two decimal characters) |
| UrlencodedForm.DecodeCollects | src/http/httprequest.cpp:145-181 | decoding any scannable body yields `Rewrite(body)` and the map `Collect` describes; an empty body changes nothing |
| UrlencodedForm.FieldsKeys | src/http/httprequest.cpp:170 | the keys a well-formed form stores are exactly its rewritten keys |
| UrlencodedForm.CollectPairs | src/http/httprequest.cpp:154-180 | reading `k1=v1&...&kn=vn` stores every pair, rewritten, on top of the fields already present |
| UrlencodedForm.FormRoundTrip | src/http/httprequest.cpp:145-181 | decoding a form encoded from distinct plain pairs yields exactly those pairs, rewritten |
| UrlencodedForm.Scan | src/http/httprequest.cpp:151-180 | the scan from any position rewrites the body in place, keeping its length |
| UrlencodedForm.Decode | src/http/httprequest.cpp:145-181 | `ParseFromUrlencoded` keeps the body's length; `DecodeRewrites` and `DecodeCollects` state what it writes and stores |
| UrlencodedForm.ScanBody | src/http/httprequest.cpp:148-180 | the loop with indices `i` and `j` produces exactly the rewritten body and pairs `Decode` specifies |
| UrlencodedFormExamples.EscapesKeptAsDecimal | src/http/httprequest.cpp:162-165 | `%41` stays `%65` instead of becoming 'A', and `%FF` becomes `%I5` |
| UrlencodedFormExamples.HighBytesEscape | src/http/httprequest.cpp:161-166 | `%` followed by the bytes 0xC3 0xA9 gives `num` = -1879 through the signed `char`, and the bytes written are 'u' and a quote |
| UrlencodedFormExamples.RepeatedKeyKeepsFirst | src/http/httprequest.cpp:177-180 | in `k=v1&k=v2` the trailing pair is dropped because its key is already stored |
| UrlencodedFormExamples.RepeatedKeyClosedOverwrites | src/http/httprequest.cpp:167-172 | in `k=v1&k=v2&` the second value overwrites the first |
| UrlencodedFormExamples.TwoFieldForm | src/http/httprequest.cpp:145-181 | the body `a=1&b=2` yields the fields a = 1 and b = 2 |
| HttpRequestParser.UserVerify | src/http/httprequest.cpp:184-185 | an empty name or password is refused before the database is asked; otherwise the database decides |
| HttpRequestParser.MatchRequestLine | src/http/httprequest.cpp:87-89 | whatever the request-line expression accepts is `method SP target SP "HTTP/" version` with no space in any group, and the groups are those parts |
| HttpRequestParser.RequestLineFromParts | src/http/httprequest.cpp:86-99 | every line of that shape is accepted, and the matcher gives back its parts |
| HttpRequestParser.RequestLineMatchesExactly | src/http/httprequest.cpp:86-99 | the matcher returns `p` if and only if the line is `p` joined and `p` has no space in any group |
| HttpRequestParser.MatchHeader | src/http/httprequest.cpp:101-110 | a line without ':' does not match; on a match the name has no ':' and the value no line terminator, and the line is `name: value`, or `name:value` with a value not starting with a space |
| HttpRequestParser.HeaderRoundTrip | src/http/httprequest.cpp:101-106 | `name: value` is read back as (name, value), and so is `name:value` unless the value starts with a space |
| HttpRequestParser.BlankLineIsNoHeader | src/http/httprequest.cpp:105-108 | the empty line matches no header |
| HttpRequestParser.NormalizePath | src/http/httprequest.cpp:72-83 | the path changes if and only if it is "/" or one of the six route names |
| HttpRequestParser.NormalizePathIdempotent | src/http/httprequest.cpp:72-83 | normalising twice is normalising once |
| HttpRequestParser.DefaultPagesHaveNoDot | src/http/httprequest.cpp:9-12 | no route name holds a '.', so an appended ".html" takes a path out of the table |
| HttpRequestParser.Subscript | src/http/httprequest.cpp:128 | `m[k]` on an `unordered_map` inserts an empty value for a missing key and changes nothing else |
| HttpRequestParser.PostStep | src/http/httprequest.cpp:127-143 | requires a complete body only of a form POST. A non-POST request is unchanged. A POST of another content type changes only by inserting `Content-Type` with `[]`. The state, method and version never change. The path changes only for a form POST to the login or registration page, and then only to the welcome or error page; the welcome page needs a non-empty name and password |
| HttpRequestParser.PostRouting | src/http/httprequest.cpp:127-143 | a form POST gets the decoded body and keeps its headers. Any other target keeps its path and gets the decoded fields. For the login or registration page, `username` and `password` are inserted with `[]` into the decoded fields. The path becomes the welcome page exactly when `UserVerify` accepts them (as a login exactly for `/login.html`), and the error page otherwise |
| HttpRequestParser.BodyStep | src/http/httprequest.cpp:112-117 | requires a complete line only for a form POST; the body step always ends the parse |
| HttpRequestParser.ParseLoop | src/http/httprequest.cpp:43-66 | the loop never consumes more than the readable bytes |
| HttpRequestParser.Pass | src/http/httprequest.cpp:44-65 | one pass and those after it never consume more than the readable bytes |
| HttpRequestParser.ParseOutcome | src/http/httprequest.cpp:39-41 | `parse` on an empty buffer returns false and changes nothing |
| HttpRequestParser.PercentsEscape | src/http/httprequest.cpp:162 | a body whose every '%' has two characters after it can be scanned without reading past its end |
| HttpRequestParser.LineEscapes | src/http/httprequest.cpp:44-45 | the first line of such an input can be scanned, and so can the input after its CR LF |
| HttpRequestParser.ParseConsumesLine | src/http/httprequest.cpp:64-65 | a complete accepted line is consumed together with its CR LF, and parsing continues with what follows |
| HttpRequestParser.PassStops | src/http/httprequest.cpp:47-49 | a refused request line ends `parse` with false and nothing consumed; a dispatched line without CR LF ends it with nothing consumed |
| HttpRequestParser.PassContinues | src/http/httprequest.cpp:64-65 | after an accepted line with CR LF, the rest of the outcome is the loop's over the text after the CR LF |
| HttpRequestParser.LoopStops | src/http/httprequest.cpp:43 | the loop does nothing on an empty buffer or a finished request |
| HttpRequestParser.BadRequestLineRefused | src/http/httprequest.cpp:47-49 | a request line that does not match makes `parse` return false, consuming nothing and changing nothing |
| HttpRequestParser.PartialHeaderEntersBody | src/http/httprequest.cpp:44-45 | a header line read without its CR LF and cut before its ':' moves the parser to the body state and stays in the buffer |
| HttpRequestParser.DuplicateHeaderLastWins | src/http/httprequest.cpp:106 | of two header lines with the same name, the later value wins |
| HttpRequestParser.MissingCredentialsRefused | src/http/httprequest.cpp:135-139 | a login or registration form without a non-empty user name and password goes to the error page, and both fields are inserted |
| HttpRequestParser.BlankLineFinishes | src/http/httprequest.cpp:53-58 | the blank line, with only its CR LF readable, finishes the parse and consumes the CR LF |
| HttpRequestParser.ParseGetRequest | src/http/httprequest.cpp:36-69 | a request line, one header and the blank line, read in one piece, are parsed completely: path normalised, header stored, every byte consumed, result true |
| HttpRequestParser.HttpRequest.constructor | src/http/httprequest.hpp:37-38 | the constructor leaves the initial state |
| HttpRequestParser.HttpRequest.Init | src/http/httprequest.cpp:19-26 | empty strings and maps, state `REQUEST_LINE` |
| HttpRequestParser.HttpRequest.IsKeepAlive | src/http/httprequest.cpp:29-34 | true if and only if the `Connection` header is exactly "keep-alive" and the version is exactly "1.1" |
| HttpRequestParser.HttpRequest.GetPost | src/http/httprequest.cpp:260-266 | requires a non-empty key; the stored value, or "" when there is none |
| HttpRequestParser.HttpRequest.ParseRequestLine | src/http/httprequest.cpp:86-99 | succeeds if and only if the line matches; then the three groups are stored and the state becomes `HEADERS`; otherwise nothing changes |
| HttpRequestParser.HttpRequest.ParsePath | src/http/httprequest.cpp:72-83 | the search over the route names leaves the normalised path and changes nothing else |
| HttpRequestParser.HttpRequest.ParseHeader | src/http/httprequest.cpp:101-110 | a matching line sets its header; any other line moves to `BODY` |
| HttpRequestParser.HttpRequest.ParseBody | src/http/httprequest.cpp:112-117 | requires a complete line only for a form POST; the line becomes the body, `ParsePost` runs, and the state is `FINISH` |
| HttpRequestParser.HttpRequest.ParsePost | src/http/httprequest.cpp:127-143 | requires a complete body only for a form POST; the fields become exactly `PostStep` of the old fields |
| HttpRequestParser.HttpRequest.ParseFromUrlencoded | src/http/httprequest.cpp:145-181 | the body and the fields become exactly `Decode` of the old ones |
| HttpRequestParser.HttpRequest.DispatchLine | src/http/httprequest.cpp:46-63 | the `switch` performs the current state's step; a refused request line changes nothing |
| HttpRequestParser.HttpRequest.HandleLine | src/http/httprequest.cpp:44-65 | one pass takes the text up to the first CR LF as the line, dispatches it, and consumes the line and its CR LF only when the line is accepted and a CR LF was found |
| HttpRequestParser.HttpRequest.ParsePass | src/http/httprequest.cpp:43-66 | one pass agrees with `ParseLoop`: it either ends the loop with the outcome `ParseLoop` gives, or consumes a line and leaves the rest of that outcome to the remaining text |
| HttpRequestParser.HttpRequest.ParseLines | src/http/httprequest.cpp:43-66 | the `while` loop ends with the fields, result and consumed count `ParseLoop` specifies |
| HttpRequestParser.HttpRequest.Parse | src/http/httprequest.cpp:36-69 | `parse` returns, stores and consumes exactly what `ParseOutcome` says |
| HttpRequestExamples.KeepAliveIndexRequest | src/http/httprequest.cpp:36-69 | `GET /index HTTP/1.1`, `Connection: keep-alive` and the blank line yield method GET, path `/index.html`, version 1.1 and the header, with all 47 bytes consumed and state `FINISH` |
| HttpRequestExamples.BogusRequestRefused | src/http/httprequest.cpp:47-49 | `BOGUS` followed by CR LF CR LF is refused at once |
| ResponseBuilder.Lookup | src/http/httpresponse.cpp:158-160 | a lookup finds an entry of the table under that key, or reports that no entry has the key |
| ResponseBuilder.SuffixesShaped | src/http/httpresponse.cpp:6-26 | every suffix of the table is '.' followed by a name without '.' |
| ResponseBuilder.LookupAt | src/http/httpresponse.cpp:6-26 | an entry whose key no earlier entry has is what a lookup of that key finds |
| ResponseBuilder.FileTypeOfSuffix | src/http/httpresponse.cpp:152-162 | a path ending in a suffix of the table gets that suffix's type, whatever comes before it |
| ResponseBuilder.FileType | src/http/httpresponse.cpp:152-162 | a path without '.' is "text/plain"; so is a path ending in none of the suffixes of the table (an unknown suffix such as ".mp4" or ".bak"); every type returned is "text/plain" or a type of the table |
| ResponseBuilder.FileTypeWithoutDot | src/http/httpresponse.cpp:153-156 | a path without '.' is "text/plain" |
| ResponseBuilder.StyleType | src/http/httpresponse.cpp:24 | a `.css` path gets "text/css " with its trailing space |
| ResponseBuilder.ScriptType | src/http/httpresponse.cpp:25 | a `.js` path gets "text/javascript " with its trailing space |
| ResponseBuilder.StatusCode | src/http/httpresponse.cpp:103-108 | the code written is always one `CODE_STATUS` knows |
| ResponseBuilder.StatusLine | src/http/httpresponse.cpp:109 | the status line starts with "Http/1.1" and ends with CR LF |
| ResponseBuilder.StatusLineReadsBack | src/http/httpresponse.cpp:101-110 | the status line is "Http/1.1", three digits that read back as the known code (400 for an unknown one), a space, that code's reason phrase, and CR LF |
| ResponseBuilder.OkStatusLine | src/http/httpresponse.cpp:109 | the line for 200 is `Http/1.1200 OK` followed by CR LF |
| ResponseBuilder.HeaderLineReadsBack | src/http/httpresponse.cpp:113-119 | a header line written as `name: value` CR LF ends at that CR LF, and the request parser's header matcher reads it back |
| ResponseBuilder.HeaderTextShape | src/http/httpresponse.cpp:112-121 | the header block is the `Connection` line, then the keep-alive parameters when the connection stays open, then the `Content-type` line |
| ResponseBuilder.ConnectionHeaderReadsBack | src/http/httpresponse.cpp:112-121 | the header block starts with a `Connection` line that the header grammar reads back as "keep-alive" exactly when keep-alive is set, else as "close" |
| ResponseBuilder.LengthLineReadsBack | src/http/httpresponse.cpp:140 | a `Content-length` line and blank line read back as the number written, with what follows untouched |
| ResponseBuilder.ErrorBody | src/http/httpresponse.cpp:165-175 | the inline page ends with the `TinyWebServer` signature and carries the message, whole, in the paragraph just before it |
| ResponseBuilder.ErrorContentLengthMatches | src/http/httpresponse.cpp:164-179 | the length an inline error page declares is the length of the page that follows it |
| ResponseBuilder.ChooseCode | src/http/httpresponse.cpp:70-79 | only the code and the stat buffer change; the stat buffer is the file's when `stat` succeeds and is kept otherwise; a file that is missing, a directory or not readable by others gets 404 or 403; a servable file gets 200 for a preset -1 and keeps any other preset code |
| ResponseBuilder.ResponseStatus | src/http/httpresponse.cpp:69-99 | the final code is one the table knows; a missing path or a directory gets 404 and the 404 page; an unreadable file gets 403 and the 403 page; 200 goes only to a servable file, whose path is kept; a servable file with preset -1 or 200 gets 200 |
| ResponseBuilder.UnknownCodeKeepsFile | src/http/httpresponse.cpp:94-108 | an unknown preset code on a servable file is written as 400, but the requested file is still served, because the canned page is chosen before the code is rewritten |
| ResponseBuilder.StatMatchesPath | src/http/httpresponse.cpp:71-97 | whenever the final file exists, the stat buffer describes it |
| ResponseBuilder.AnnouncedLength | src/http/httpresponse.cpp:124-141 | the declared `Content-length` is the mapped file's size when it maps, else the length of the inline page that follows |
| ResponseBuilder.MakeResponseMapping | src/http/httpresponse.cpp:133-138 | after `MakeResponse` a mapping is held exactly when one was held before or the final file was mapped |
| ResponseBuilder.HttpResponse.constructor | src/http/httpresponse.cpp:42-48 | code -1, empty strings, no keep-alive, no mapping, zeroed stat |
| ResponseBuilder.HttpResponse.UnmapFile | src/http/httpresponse.cpp:144-149 | afterwards no mapping is held, a held mapping is released, and a second call changes nothing |
| ResponseBuilder.HttpResponse.Init | src/http/httpresponse.cpp:55-66 | requires a non-empty source directory; any held mapping is released first; afterwards no mapping, zeroed stat, and code, path, keep-alive flag and directory as given |
| ResponseBuilder.HttpResponse.ErrorHtml | src/http/httpresponse.cpp:94-99 | for 400, 403 and 404 the path becomes the canned page and its stat is taken if `stat` succeeds; other codes change nothing |
| ResponseBuilder.HttpResponse.ChooseStatus | src/http/httpresponse.cpp:70-80 | the stat probe and the `if` chain, then `ErrorHtml`; the mapping and keep-alive flag are untouched |
| ResponseBuilder.HttpResponse.AddStateLine | src/http/httpresponse.cpp:101-110 | an unknown code becomes 400 and exactly the status line is appended |
| ResponseBuilder.HttpResponse.AddHeader | src/http/httpresponse.cpp:112-121 | exactly the header block is appended |
| ResponseBuilder.HttpResponse.ErrorContent | src/http/httpresponse.cpp:164-179 | appends the `Content-length` line of the page, the blank line, and the page |
| ResponseBuilder.HttpResponse.AddContent | src/http/httpresponse.cpp:124-141 | an error page when `open` fails ("File NotFount!") or `mmap` fails ("File NotFound!"); otherwise a mapping is held, counted once, and only the length line of the file is appended |
| ResponseBuilder.HttpResponse.MakeResponse | src/http/httpresponse.cpp:69-84 | the fields and the appended text are exactly `MakeResponseState` and `MakeResponseText`, and exactly one more mapping is live when the final file maps |
| ResponseBuilder.Serve | src/http/httpresponse.cpp:55-84 | `Init` followed by `MakeResponse`, on a response holding at most its one mapping, ends holding at most one, and holds it exactly when the final file mapped |
| ResponseBuilder.ServeTwice | src/http/httpresponse.cpp:55-84 | two consecutive responses on one object never hold more than one live mapping |

## Left out

- `UserVerify` past its argument check (`src/http/httprequest.cpp:186-241`) is SQL through the connection pool. It is the `Verifier` parameter. That includes its quirk of reporting success for a registration even when the `INSERT` fails.
- `ReadFd` and `WriteFd` (`src/buffer/buffer.hpp:36-37`) are socket I/O, declared but not defined in the code.
- Logging (`LOG_*`), the thread pool, the SQL connection pool and the blocking queue are concurrency or I/O and are not part of this model. The logging calls are treated as no-ops.
- `std::regex` is not modelled as an engine. The two expressions are the matchers `MatchRequestLine` and `MatchHeader`.
- `size_t` wrap-around is not modelled: cursors, sizes and lengths are unbounded naturals.
- Text is a string of Dafny `char`s, one per byte of the request; `SignedChar` gives the bytes 0x80 to 0xFF the negative values of the code's signed `char`, so `ConvertHex` follows the code on them. The model's strings can also hold characters above 0xFF, which no byte produces; for them `ConvertHex`, `RewrittenEscape` and `Decode` compute with the character's code point, which has no counterpart in the code. A multi-byte UTF-8 character is several `char`s of the request, not one.
- ByteBuffer.Buffer.AppendBuffer: requires the other buffer to be a different object. Appending a buffer to itself (possible in C++) is not modelled.
- ByteBuffer.Buffer.Append: states that the capacity never shrinks, but not the exact new capacity. `EnsureWritable` and `MakeSpace` state that growth policy.
- The storage of a `Buffer` is an `array<char>` of the current capacity. `resize` is a fresh array holding the old bytes (`Grown`), so the model does not capture the C++ reallocation as an in-place update.
- HttpRequestParser.HttpRequest.Parse: requires every '%' of the readable text to have two more characters before the end of its line (`EscapesOnLines`). The code only ever reads two characters past a '%' of the body line of a form POST, so this is stronger than it needs. `HttpRequest.HandleLine` and `HttpRequest.ParsePass` require the same of their line, and `HttpRequest.ParseLines`, `ParseLoop`, `Pass` and `ParseOutcome` require the same of the text they walk. The single steps `ParseBody`, `ParsePost`, `DispatchLine`, `BodyStep`, `PostStep` and `Dispatch` require it only of a form POST's body. A trailing `%` in the body is undefined behaviour in the code (a read past the end), which this precondition excludes.
- HttpRequestParser.HttpRequest.ParseFromUrlencoded: the loop (`ScanBody`) works on local copies of the body and the fields, which are stored back at the end. Nothing else reads them in between.
- The file system is a snapshot. A failed `stat` leaves the stat buffer as it was. `open` and `mmap` success are per-file flags. The `*mmRet == -1` check of the code (`src/http/httpresponse.cpp:134`) is modelled only as "mapping failed". The descriptor left open when `mmap` fails, and `close` after success, are not modelled.
- The mapped bytes are not modelled. `File()` is whether a mapping is held, `FileLen()` is the stat size, and `live` counts the mappings made and not released.
- The `HttpResponse` destructor (`src/http/httpresponse.cpp:50-52`) only calls `UnmapFile`, which is modelled. Dafny has no destructors.
- ResponseBuilder.HttpResponse.MakeResponse: does not promise that at most one mapping is live. Called twice without `Init` in between, it maps a second file while the first is still held, and the count reaches 2. `Serve` and `ServeTwice` state the invariant for the `Init`-then-`MakeResponse` use. `MakeResponseMapping` states the held flag.
- `HttpRequest::GetPost(const char*)` asserts only a non-null key, not a non-empty one. The model has the `std::string` overload's `key != ""` precondition.
- The accessor methods `path()`, `method()` and `version()` return fields and are the fields of `HttpRequest`.
