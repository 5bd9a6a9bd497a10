# Jawas, verified

A Dafny model of the hand-written parsers and printers of the Jawas web server,
with proofs that they understand each other. `dafny verify dfyconfig.toml` checks
all of it.

A byte string is a Dafny `string`, one character per byte; a NULL `str` is `None`;
reading past the end gives NUL, as `at` does. Loops and objects of the source are
methods and classes here. Each is proved against a specification function, and the
theorems are about those functions, so they hold for what the methods compute. What a
theorem is about is given by printers and grammars over literal characters, not by
the parsers' own tests.

| file | component |
|---|---|
| `Str.dfy` | scanning, numerals, comparison (str.c) |
| `Sockets.dfy` | socket writes, chunk framing, the file send loop, a decoder for section 4.1 of RFC 7230 |
| `Headers.dfy` | header tables, head parser, head printer (headers.c) |
| `Requests.dfy` | reading a request in pieces (requests.c, transfer.c, client.c) |
| `Client.dfy` | sending a request, the first line, the client to server round trip |
| `Uri.dfy` | percent-encoding and forms (uri.c) |
| `Files.dfy`, `Lws.dfy` | page templates and their evaluation (files.c, lws.c) |
| `Pages.dfy` | printed pages, and what becomes of them |
| `LuaJson.dfy` | the JSON reader and its Lua stack (lua_json.c) |
| `JsonTexts.dfy`, `JsonMeaning.dfy`, `JsonSlots.dfy` | the texts of RFC 8259, what the reader makes of them, what they mean, what they take of the stack |
| `Memory.dfy` | arena, `append`, the read buffer (memory.c, str.c, sockets.c) |
| `HeaderSort.dfy`, `Usage.dfy` | header sort, running mean |
| `Query.dfy` | the query text of `QueryLua` in the arena (lws.c, database.c) |

## Main results

- JSON (`JsonMeaning.JsonRoundTripIff`): for every array or object of RFC 8259, with its
  literal names and its numbers character by character, with
  distinct names, in any white space and followed by anything, the reader pushes
  what the text means and stops just past the closing bracket if and only if no
  string and no key is empty or holds an escape. `JsonTexts.ReadsText` says what
  it pushes for all the others, or that it raises a Lua error. On arbitrary bytes
  every parser terminates and pushes exactly one value or raises that error, and the
  methods state the highest the stack gets: `JsonSlots.TextBound` bounds it by two
  slots for each level of a text and one more.
- Request heads (`Headers.HeadRoundTripIff`): printing and parsing a header list is
  the identity, with the body offset on the first body byte, if and only if the
  list has 1 to 249 clean headers. `Headers.PrefixStable`: once a head is
  complete, more bytes change nothing, for every byte string.
  `Headers.FieldsRoundTrip`: field lines with any blanks and tabs, or none, in front
  of their values are read as the headers they are.
- Incremental reading (`Requests.SplitIndependent`, `Requests.BodyArrived`):
  however a stream is cut into reads, and with failed reads in between, the state
  is that of one single read; for field lines that declare a body of n bytes the
  request is done exactly when n bytes have followed the head. Only failed reads in a
  row count towards the twenty that disconnect (`Requests.RetriesReset`).
- The log message of requests.c:104 (`Requests.LoggedStream`, `Client.ClientLogged`):
  the two results above and the next one are about the reader without it. With it, a
  clean head of 1 to 249 headers, with any body behind it, any part of the stream and
  fewer than 20 failed reads, gives the same run if and only if every read ends behind
  the first header's colon and not inside of a later key (`Headers.SafeCut`); in all
  other cuts the server faults. `Headers.PrintableIff` says for every byte string
  whether its parse can be printed.
- Client to server (`Client.ClientToServer` with `Client.Outgoing.SendAll`): what
  the client writes is read back, in any pieces, as the same method, path, query,
  headers and body, and the server waits for exactly the last byte. Every token of
  RFC 7230 is such a method and every absolute path of RFC 3986 such a path
  (`Client.StandardTarget`).
- Pages (`Pages.PrintedPage`, `Pages.ServePrinted`, `Pages.ClosedIff`): of a page that is
  printed from texts and scripts exactly those are marked, and an open socket receives
  the texts with the prints in between; the pages without NUL and without an unclosed
  opener are the printed ones. `Files.TilesIff`: a page is covered by its marks if and
  only if every opener reached is closed, one coincidence of lengths aside.
- Memory (`Memory.Append`, `Memory.AppendFrame`, `Memory.ReadSeries`): `append`
  concatenates in both branches, for strings of the arena and views of other memory;
  its result lies in memory that stays if and only if the strings are apart or the
  second fits; every buffer `read_socket` ever returned keeps its bytes, whatever
  else the program writes behind them.
- Queries (`Query.BuildQuery`, `Query.RunQuery`, `Query.PlaceholdersIff`): the text
  `QueryLua` builds in the arena is the specified one for every template and all
  arguments. What the database executes is that text if and only if it has no NUL and
  at most 16 bytes follow the last placeholder that was filled, if any was, or one to
  three more do and they are the bytes of the text's own length.

## Where code and promise differ

The code is modelled as it is. All of these but the last have a theorem that says
when they happen, or a lemma with an input that shows them.

- JSON: an empty string is read as nil (so an array element vanishes, an empty key
  is a Lua error) and the backslash of an escape becomes an unwritten byte
  (lua_json.c:63-78). Unwritten bytes are taken to be NUL, as fresh pages are.
- Heads without a header put the body offset one byte early; an empty value, which
  section 3.2 of RFC 7230 allows, swallows the next line (headers.c:174); 250
  headers are never complete (headers.c:153), and adding `peer` to that full table
  never returns (headers.c:47-54).
- Header names are compared with their case (headers.c:42), which section 3.2 of RFC
  7230 forbids: after `content-length: 5` the request is done without its body. White
  space behind a value is kept as part of it. Of lines that end with a bare line feed
  every second one is lost, and the empty line does not end the head (headers.c:155-180).
- `process_request_contents` prints every parse in a log message before it tests that
  there is a table (requests.c:104-105). A read that ends before the first line break,
  before the first header, or inside of a key makes that message dereference NULL,
  and so does a head without headers.
- The JSON reader never asks Lua for stack room. Lua grants 20 slots besides the
  arguments, and the one argument is popped (lws.c:368-371). Ten levels of nesting fit
  into these 21; an element in eleven nested arrays takes 23.
- A file sent under a chunked header goes out unframed (requests.c:238-241), so the
  receiver decodes it only when it is empty.
- An opener that is never closed leaves a count in `l` where an offset is expected
  (files.c:43-50).
- A page whose last text is empty ends the chunked body there; the final chunk of
  `end_response` is then left over on the wire (lws.c:70, responses.c:85).
- `append` in place with a view of more than 16 bytes runs into memory that is not
  allocated (str.c:101-105). `QueryLua` does that with what follows the last
  placeholder (lws.c:195), and logging the query then writes a header over it before
  it is executed (database.c:20-24): `select ? from a_rather_long_table_name` with one
  argument reaches the database with its end destroyed. With 17 bytes behind the
  placeholder `select * from t where stamp > ? limit 5 offset 9` survives for the
  argument 1262304000, because the text has 57 characters and ends with the character
  of code 57.
- `QueryLua` never fills a placeholder at index 0, and fills one placeholder more
  than there are arguments (lws.c:187-193).
- `parse_path` forgets the leading white space it has skipped (requests.c:171-172).
- The test for a read of zero bytes inside `read_socket` is never reached, since
  the loop condition ends first (sockets.c:202-212); the end of the stream is
  therefore modelled like a would-block.

## Model

| member | source | states |
|---|---|---|
| Str.ValueDigits | str.c:113-199 | in every base up to 16 the printed numeral of a number is read back as that number |
| Str.DigitsShape | str.c:113-151 | a numeral has only digits of its base and a leading zero only for zero |
| Str.IntRoundTrip | str.c:122-183 | `str_int` of a printed decimal numeral is the number |
| Str.IntText | str.c:170-183 | digits end at the first other character, and a minus sign counts only if nothing is behind them |
| Str.DigitTable | str.c:122-199 | the sixteen digits and their values, in both cases |
| Str.FoldIff | str.c:324-338 | strings equal up to case are those whose characters are equal or one letter in both cases |
| Str.StrInt | str.c:170-183 | reads the leading run of digits; the sign counts only if digits fill the string; NULL is 0 |
| Str.StrHex | str.c:185-199 | the hexadecimal value of a string, other characters passed over |
| Str.HexSkips | str.c:185-199 | a character that is no digit changes nothing, wherever it is |
| Str.DigitLen | str.c:113-144 | the length of the numeral |
| Str.DigitPrint | str.c:122-153 | fills exactly its part of a buffer with the numeral and nothing else |
| Str.Cmp | str.c:316-322 | equality of byte strings |
| Str.Icmp | str.c:324-338 | equality up to the case of ASCII letters |
| Sockets.DecodeFrames | sockets.c:244-263 | the RFC 7230 decoder recovers any list of non-empty parts from their frames and the last chunk, and leaves what follows |
| Sockets.DecodeChunkedBuffer | sockets.c:255-263 | a buffer cut into writes, framed and ended decodes to itself |
| Sockets.DecodeCost | sockets.c:244-253 | chunked coding costs at least five bytes, ten if there is data |
| Sockets.PiecesConcat | sockets.c:260-261 | the pieces of a buffer join to the buffer |
| Sockets.Pieces | sockets.c:255-263 | every piece has 1 to 1460 bytes |
| Sockets.Socket.WriteToSocket | sockets.c:225-235 | delivers all or closes for good; the wire is always a prefix of the ideal stream |
| Sockets.Socket.WriteChunk | sockets.c:244-253 | one frame on the ideal stream; nothing reaches a closed wire |
| Sockets.Socket.WriteChunkedSocket | sockets.c:255-263 | the frames of the pieces of a buffer |
| Sockets.Socket.EndResponse | responses.c:82-87 | the last chunk |
| Sockets.Socket.SendFile | script.c:23-24 | ends for every file and failure pattern; an open socket received the whole framed file, a closed one a prefix |
| Sockets.SendFileResponse | script.c:14-26 | loop and end of response together decode to the file on an open socket |
| Headers.PrefixStable | headers.c:133-185 | a complete parse is unchanged by more bytes and its body lies inside the buffer; a partial one never loses slots |
| Headers.HeadRoundTripIff | headers.c:133-203 | print then parse is the identity with exact body offset if and only if there are 1 to 249 clean headers |
| Headers.HeadRoundTrip | headers.c:133-203 | the same for clean lists, the direction used by the client to server theorem |
| Headers.FieldsRoundTrip | headers.c:133-185 | clean headers with any blanks and tabs, or none, in front of each value are read as they are, with exact body offset |
| Headers.BareLineFeeds | headers.c:153-184 | with bare line feeds every second header is lost and the head is not complete |
| Headers.CompleteShaped | headers.c:153-182 | whatever the buffer, a complete head has fewer than 250 headers, each with a well-shaped key and value |
| Headers.LoneColonFails | headers.c:165-181 | a key that is a single colon comes back with a different value |
| Headers.EmptyHead | headers.c:153-163 | without headers the body offset names the final line feed |
| Headers.EmptyValueFails | headers.c:172-181 | a header with an empty value does not come back |
| Headers.EmptyValueSwallows | headers.c:172-181 | behind any clean headers the text of the next line becomes the value of a header sent with an empty one |
| Headers.TooManyHeaders | headers.c:153-184 | from 250 clean headers on the parse is partial and holds the first 250, whatever follows |
| Headers.PrintableIff | headers.c:107-118 | a parse can be printed if and only if a key follows the first line break, or the first two in a row, and the buffer does not end inside of a key or in front of its colon |
| Headers.CutIff | headers.c:107-118 | every cut of a clean head: it can be printed if and only if it lies behind the first header's colon and not inside of a later key |
| Headers.CompletePrintable | headers.c:107-118 | a complete head can be printed unless it is empty |
| Headers.Scan | headers.c:153-184 | finished slots are never touched again, the list never shrinks |
| Headers.ParseHeaders | headers.c:133-185 | the imperative scanner computes the specified parse |
| Headers.ParseWord | headers.c:164-181 | one turn of the loop on keys and values |
| Headers.KeyLength | headers.c:166 | the nested scan ends at the first colon behind the first character |
| Headers.ValueRange | headers.c:174-175 | the nested scans find start and end of the value |
| Headers.SendHeaders | headers.c:187-203 | the ideal stream grows by the lines of the slots with a key and an empty line |
| Headers.Table.Append | headers.c:47-66 | appends at the end; a full table never returns |
| Headers.Table.Find | headers.c:35-45 | the value of the first slot with the key |
| Headers.LookupAppend | headers.c:35-45 | a key in the front of a list hides the rest even without a value, one absent there is looked up in the rest |
| Headers.LookupFirst | headers.c:35-45 | the value found is that of the first position with the key |
| Requests.SplitIndependent | requests.c:100-129 | any partition into reads with failures in between leaves the state of one single read |
| Requests.DoneExactly | client.c:38-55 | done with the headers of the head and one `peer` exactly when body offset plus content length bytes are there |
| Requests.BodyArrived | client.c:38-55 | for field lines whose first Content-Length is the numeral of n, or without one and n zero, and no chunked coding: done exactly when n bytes have followed the head |
| Requests.LowerCaseIgnored | headers.c:35-45 | a length under a name in lower case does not count |
| Requests.ChunkedIff | transfer.c:12-17 | chunked means that the first Transfer-Encoding is the word chunked in any case |
| Requests.RetriesReset | client.c:27-49 | a waiting reader counts the failed reads since the last read that found a line break; it disconnects only by twenty of them |
| Requests.RunWaits | client.c:38-49 | a reader that still waits has buffered everything and remembers only offsets of complete prefixes |
| Requests.LoggedStream | requests.c:100-111 | with the log message, any part of a clean stream in any pieces gives the same run if every read ends at a safe cut, and faults otherwise |
| Requests.CutFaults | requests.c:100-111 | a first read that ends inside of a key of a clean head faults, whatever follows |
| Requests.TooManySpin | requests.c:100-111 | a read of 250 clean headers or more never returns |
| Requests.OneReadDone | requests.c:113-119 | the state after one read of a complete head |
| Requests.OneReadPrefix | requests.c:121-129 | a prefix of a stream either waits or already has the final head |
| Requests.RetriesBounded | client.c:27-36 | fewer than 20 failed reads never disconnect |
| Requests.FailuresDisconnect | client.c:27-36 | failed reads alone disconnect exactly at the twentieth |
| Requests.FailureStops | client.c:27-36 | with fewer than 20 failures only a read can end the run |
| Requests.Connection.ProcessContents | requests.c:100-111 | head parsed anew with one `peer` appended; no line break is a failure; a full table never returns |
| Requests.Connection.RequestDone | requests.c:113-119 | done only with a known body, by the inbound length |
| Requests.Connection.ReadRequest | client.c:38-55 | one read event is one step of the state machine |
| Requests.ReadAll | client.c:103-109 | the object driven by any events is the run of the state machine |
| Requests.IsChunked | transfer.c:12-17 | the first `Transfer-Encoding` value is `chunked` up to case |
| Client.ClientToServer | requests.c:215-243 | the message of a client with a text, a file or no body, in any pieces, is read back as method, path, query, headers with `Host` and `peer`, and body; done only with the last byte |
| Client.ClientLogged | requests.c:100-111 | the client's message, or any part of it, read by the server with its log message: the same run if every read ends at a safe cut, a fault otherwise |
| Client.FilePayload | requests.c:235-242 | a file under a chunked header is decoded by the receiver if and only if it is empty |
| Client.ChunkedPayload | requests.c:235-242 | a text under a chunked header decodes to itself |
| Client.Outgoing.SendHead | requests.c:227-234 | first line, headers with `Host` appended, empty line; whether a body follows |
| Client.Outgoing.SendBody | requests.c:235-242 | one call's part of the body; again as long as bytes are left |
| Client.Outgoing.SendAll | client.c:92-101 | the repeated calls end; an open socket received head and payload |
| Client.ReadMethod | requests.c:152-162 | the first word of a request line is its method |
| Client.ReadTarget | requests.c:164-182 | path and encoded query pairs of a request line are read back |
| Client.StandardTarget | requests.c:152-182 | every token of RFC 7230 is a method and every absolute path of RFC 3986 a path the results are about |
| Client.LeadingSpace | requests.c:164-182 | with white space in front of the request line the method word is taken for the path |
| Client.ParseMethod | requests.c:152-162 | the method word, or no answer when the scan never ends |
| Client.ParsePath | requests.c:164-182 | path and query, or no answer when the scan never ends or the table overflows |
| Uri.UriRoundTrip | uri.c:64-116 | decoding undoes encoding for every byte string |
| Uri.EncodedForm | uri.c:55-84 | the unreserved characters of RFC 2396 stay, every other byte becomes a percent sign and two digits |
| Uri.DecodeWritten | uri.c:86-116 | decoding undoes every way of writing a text: as it is, a blank as plus, percent and two digits in either case |
| Uri.EncodeSafe | uri.c:55-84 | encoded text holds no separator of a form, no white space, no NUL |
| Uri.JoinIff | uri.c:19-43 | joining then splitting is the identity if and only if no key has an equals sign, no value an ampersand and the first key no leading white space |
| Uri.FormRoundTrip | uri.c:19-116 | encode, join, split, decode restores any non-empty list in order |
| Uri.ParsedSeparable | uri.c:27-41 | whatever is parsed, keys hold no equals sign and values no ampersand |
| Uri.TailIgnored | uri.c:27-32 | text without an equals sign behind the pairs is dropped |
| Uri.UriEncode | uri.c:64-84 | the encoding; bytes from 128 on only where `char` is unsigned |
| Uri.UriDecode | uri.c:100-116 | the decoding |
| Uri.ParseUriEncoded | uri.c:19-43 | appends the parsed pairs, or never returns when the table overflows |
| Uri.UrlEncodeHeaders | headers.c:120-131 | joins the slots that have a key |
| Files.ParseFile | files.c:27-55 | the marks of a page, followed by empty entries |
| Files.MarkFile | files.c:18-25 | one entry more, the others untouched |
| Files.MarksAreParts | files.c:40-53 | where every opener is closed the marks are the parts of the recursive specification |
| Files.PartsTile | files.c:40-53 | the parts are in order, disjoint and cover the page; only the last text may be empty; at most two parts per script and one more |
| Files.TilesIff | files.c:40-53 | a NUL-free page is covered if and only if every opener reached is closed, or one coincidence of lengths holds |
| Files.BrokenTail | files.c:41-51 | the marks behind the first unclosed opener cover the rest exactly in that coincidence |
| Files.UnclosedParts | files.c:45-46 | the specification refuses exactly the pages with an unclosed opener |
| Files.UnclosedExamples | files.c:43-50 | one page that is not covered and one that is by coincidence |
| Pages.PrintedPage | files.c:27-55 | a page printed from texts and scripts: exactly those are marked, and it means the texts with the prints in between |
| Pages.ServePrinted | lws.c:63-96 | an open socket receives the texts with the prints in between |
| Pages.PageOf | files.c:40-53 | every page without NUL whose openers are closed is printed from some texts and scripts |
| Pages.ClosedIff | files.c:45-46 | and no other page without NUL is |
| Lws.EmittedMeaning | lws.c:63-77 | the chunks of a page are non-empty but perhaps the last, and together are its meaning |
| Lws.PageDecodes | responses.c:82-87 | framed and ended they decode to the meaning of the page; what is left over behind an empty last text |
| Lws.EvalLuaFile | lws.c:63-77 | walks the entries up to the first empty one and emits their chunks |
| Lws.PrintAll | lws.c:86-96 | the chunks of everything a script prints |
| Lws.ServePage | files.c:27-55 | the whole pipeline on an open socket; a prefix on one that fails |
| LuaJson.ParseValue | lua_json.c:156-157 | never moves the cursor back |
| LuaJson.ParseJson | lua_json.c:171-204 | strictly advances and yields a table |
| LuaJson.Lua.QuotedString | lua_json.c:57-78 | pushes exactly one value on top of the old stack and never moves the cursor back |
| LuaJson.Lua.ReadToken | lua_json.c:80-97 | the same for tokens |
| LuaJson.Lua.ReadArray | lua_json.c:142-169 | ends on every input; one value on top of the old stack and a cursor that advanced, or a Lua error; and how high the stack was |
| LuaJson.Lua.ReadObject | lua_json.c:171-204 | the same for objects |
| LuaJson.SlotsBound | lua_json.c:142-204 | on arbitrary bytes two slots for each bracket and one more are enough |
| LuaJson.DeepSlots | lua_json.c:142-204 | an element in n nested arrays takes exactly 2n + 1 slots |
| JsonSlots.TextBound | lua_json.c:142-204 | a text of RFC 8259 takes at most two slots for each level of nesting and one more |
| LuaJson.Lua.ReadText | lua_json.c:206-214 | parses from the first bracket; without one the stack is untouched |
| LuaJson.Lua.SetTable | lua_json.c:160-193 | pops key and value; a nil key is an error, a nil value removes the entry |
| JsonTexts.ReadsText | lua_json.c:142-204 | the outcome and the cursor for every RFC 8259 array or object in any white space |
| JsonTexts.TokenReads | lua_json.c:80-97 | a token is everything up to the first quote, colon, comma, bracket or white space |
| JsonTexts.ItemsRead | lua_json.c:148-165 | elements are keyed 1 to n and nil ones leave a hole |
| JsonTexts.MembersRead | lua_json.c:178-200 | members are stored in order, an empty key is an error |
| JsonTexts.QuotedReads | lua_json.c:57-78 | what is stored for a string, with the cursor left on the closing quote |
| JsonMeaning.JsonRoundTripIff | lua_json.c:142-204 | the reader pushes what the text means and stops past the bracket if and only if no string or key is empty or holds an escape |
| JsonMeaning.TextStarts | lua_json.c:206-214 | white space in front of a text is skipped, and parsing starts at its bracket |
| JsonMeaning.StoredIff | lua_json.c:63-74 | a string is stored as what it denotes if and only if it is not empty and has no escape |
| JsonMeaning.PlainUnderstood | lua_json.c:142-204 | texts without empty strings and escapes are understood |
| JsonMeaning.UnderstoodPlain | lua_json.c:142-204 | no other text with distinct names is |
| JsonMeaning.EscapeShrinks | lua_json.c:69-73 | an escape takes more characters than it denotes in UTF-8 |
| JsonMeaning.NotPlainExamples | lua_json.c:63-74 | an empty string lost, a gap stored, a Lua error |
| Memory.Append | str.c:97-111 | the concatenation in both branches, for NULL, for arena strings and for views of other memory; in place only the first length and the bytes from the second header on change, else nothing allocated does |
| Memory.AppendFrame | str.c:97-111 | the result lies in memory that stays if and only if the strings are apart or the second fits; always if it owns its bytes |
| Memory.NextBlank | str.c:69-76 | a text without NUL is unchanged by the next blank string of less than 2^24 bytes if and only if it lies in memory that stays, or its last one to three characters are those of that length |
| Memory.ReadSocket | sockets.c:198-223 | the buffer holds all it held and all that is delivered; everything allocated before keeps its bytes |
| Memory.ReadSeries | sockets.c:198-223 | over any series of calls, with any writes behind the allocated memory in between, every buffer ever returned keeps its bytes |
| Memory.Arena.Reserve | memory.c:40-53 | hands out the bytes at the old offset |
| Memory.Blank | str.c:69-76 | a string behind its header at the tail; only the header is written, its length in front |
| Memory.View | str.c:51-58 | a view of existing bytes; only its header is written |
| Memory.From | str.c:91-95 | a view of a part of a string |
| Memory.Copy | str.c:60-67 | a copy at the tail; nothing allocated before changes |
| Memory.PrintText | str.c:209-263 | the log message of a text: header, copy, NUL and at last its length; nothing allocated before changes |
| Memory.LengthRead | str.h:17-21 | the first four bytes of a header give its length back, the lowest one first |
| Memory.Print | str.c:209-263 | a printed text at the tail with its NUL; nothing allocated before changes |
| HeaderSort.LessTransitive | str.c:347-358 | `lesser` is transitive |
| HeaderSort.LessTotal | str.c:347-358 | different byte strings are ordered one way or the other |
| HeaderSort.LessIrreflexive | str.c:347-358 | no string is less than itself |
| HeaderSort.LessIff | str.c:347-358 | less by the first difference, a proper prefix in front |
| HeaderSort.Lesser | str.c:347-358 | lexicographic order by byte value, signed or not, NULL as the empty string |
| HeaderSort.SortHeaders | headers.c:68-92 | a sorted permutation in a new table, the argument unchanged |
| Usage.RunRecords | requests.c:191-213 | over any calls entries are unique, count their calls, add up to all calls, and each mean m of n samples of sum S has S - n(n-1)/2 <= n*m <= S and lies between the extremes |
| Usage.MeanStep | requests.c:202 | one truncating update keeps the bound |
| Usage.Statistics.EndRequest | requests.c:191-213 | the first entry for host and path is updated, else a new head is added |
| Query.PlaceholdersIff | lws.c:187-195 | every placeholder is replaced by its argument and nothing else changes: if and only if there are no more placeholders than arguments, or, for a template that starts with one, no arguments and no other placeholder; the quoted texts that decide it are not empty and start with no question mark |
| Query.FillSpare | lws.c:187-193 | one more text changes the result exactly when a placeholder is left for it |
| Query.BuildQuery | lws.c:184-195 | in the arena the loop builds the specified text, which lies in memory that stays if and only if no placeholder is filled or at most 16 bytes follow one that is |
| Query.FillOne | lws.c:189-192 | one turn: the text since the last placeholder and the quoted argument go to a new copy of the query at the tail |
| Query.AppendTail | lws.c:195 | the last `append`, in place exactly if a placeholder was filled |
| Query.ValueText | lws.c:39-55 | strings and numbers are views of the interpreter's memory, the rest is printed into the arena |
| Query.SingleQuote | database.c:105-114 | a new string with the quoted text; an empty string is returned as it is |
| Query.Execute | database.c:16-24 | log message and copy: what is executed is the text handed over if and only if it has no NUL and lies in memory that stays, or its length restores it |
| Query.RunQuery | lws.c:184-196 | what is executed is the text built if and only if it has no NUL and the tail fits, or its length restores it |
| Query.SpilledQuery | database.c:16-24 | a query with 30 bytes behind its placeholder is executed with another text |
| Query.RestoredQuery | database.c:16-24 | one with 17 bytes behind it is executed as built, by the coincidence |

## Left out

- Inbound chunked bodies (`chunked_length`, `dechunk`, `skip_headers`): parameters of
  `Requests.Env`. `skip_headers` never moves the position it tests, so they decode
  nothing; the decoder in `Sockets.dfy` specifies the encoder only.
- Str.StrInt: does not model overflow of the C `int`, which is undefined there; numbers are unbounded here.
- Str.StrHex: does not model overflow of the C `int` either.
- Str.DigitLen: negative numbers, for which `int_len` counts a place for a sign, are not modelled, since no sign is ever printed.
- Str.DigitPrint: negative numbers are not modelled, since no sign is ever printed.
- Sockets.Socket.WriteToSocket: short writes are not modelled, since no caller looks at them; a write delivers everything or fails.
- Sockets.Decode: chunk extensions and trailer fields of RFC 7230 are not read, since the server never sends them.
- Requests.Connection.ReadRequest: `parse_path` at its end is proved apart, in `Client.ParsePath`; `read_socket` appears as the bytes it delivers, which `Memory.ReadSocket` justifies.
- Requests.SplitIndependent: without the log message of requests.c:104, which ends some runs; `Requests.LoggedStream` says which.
- Requests.DoneExactly: without that log message.
- Client.ClientToServer: without that log message; `Client.ClientLogged` says which cuts it survives.
- Requests.Connection.ProcessContents: without that log message, which would fault where `Headers.Printable` fails.
- Memory.Buf: the bytes of a header are written when it is made; later changes of a length change the field alone. The memory of the Lua interpreter never changes.
- Headers.SendHeaders: without the log message of headers.c:195, which would fault for a slot with a key and no value.
- Files.ParseFile: a page with more marks than its table of one memory page holds is not modelled, since the source then overwrites other memory; bytes behind the end of the file read as NUL.
- Lws.EvalLuaFile: a script is the list of strings it prints; nested includes, `exit` and Lua errors after output are not modelled apart from the output they leave.
- Lws.ServePage: pages with an unclosed opener, which are served with wrong marks, are only modelled as far as `Files.BrokenTail` goes.
- Query.PlaceholdersIff: for a template with a leading placeholder nothing is said when the first quoted text is empty or starts with a question mark, since equal texts can then arise by accident.
- Query.RunQuery: pages have 4096 bytes and nothing was written behind what is allocated, which is where the NUL behind the copied text comes from (database.c:21-23).
- LuaJson.Lua.ReadArray: the stack itself has no bound; how high it gets is stated, and what Lua does above the slots it grants is not modelled.
- LuaJson.Lua.ReadObject: the same bound.
- LuaJson.Lua.ReadText: without a bracket the caller logs NULL (lws.c:372), which faults; that message is left out.
- Query.BuildQuery: quoting by the database library is a parameter that at most doubles a text, as the library promises; the bound on the memory that is required is generous.
- Usage.Statistics.EndRequest: the time that `stop_usage` measures is a parameter; times are non-negative and do not overflow.
- Status lines and the server's own response headers, MIME and method tables, dates, host lookup: easy table scans.
- forms.c: its `search` matches any single character of the key, so multipart splitting has no clean specification.
- `EMIT` segments: unreachable, since files.c:41 asks for white space where files.c:44 tests for `=`.
- TLS, event loops, signals, file monitoring, PostgreSQL, the Lua interpreter, logging: I/O and foreign code.
