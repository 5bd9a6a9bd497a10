/**
 Sending a request (`send_request` of requests.c, driven by `write_request` of
 client.c), reading its first line (`parse_method`, `parse_path`), and the round
 trip from a client to a server.
 */
module Client {
  import opened Wrappers
  import opened Str
  import opened Sockets
  import opened Headers
  import opened Requests
  import opened Uri

  // ----- The first line ---------------------------------------------------------

  predicate WordEnd(c: char) {
    IsSpace(c) || c == '\0'
  }

  predicate PathEnd(c: char) {
    IsSpace(c) || c == '\0' || c == '?'
  }

  /** The method word; `None` when the source's scan for the white space behind it
      never ends. */
  function Method(s: string): Option<string> {
    var i := Until(s, 0, NotSpace);
    var e := Until(s, i + 1, IsSpace);
    if e < |s| then Some(s[i..e]) else None
  }

  /** Path and query; `Never` when the scan for the end of the query never ends, or
      the query overflows the table. */
  datatype Target = Never | Target(path: string, query: Option<seq<Slot>>)

  function ParseTarget(s: string): Target {
    var i := Until(s, Until(s, 0, WordEnd), NotSpace);
    var end := Until(s, i, PathEnd);
    if At(s, end) == '?' then
      var e := Until(s, end + 1, IsSpace);
      if |s| <= e || MAX_HEADERS < |Pairs(s[end..e], 1)| then Never
      else Target(s[i..end], Some(Pairs(s[end..e], 1)))
    else Target(s[i..end], None)
  }

  method ParseMethod(contents: string) returns (r: Option<string>)
    ensures r == Method(contents)
  {
    var i := SkipSpace(contents, 0);
    var l := 1;
    while i + l < |contents| && !IsSpace(At(contents, i + l))
      invariant 1 <= l && (i + l <= |contents| || l == 1)
      invariant forall k :: i + 1 <= k < i + l ==> !IsSpace(contents[k])
    {
      l := l + 1;
    }
    if i + l >= |contents| { return None; }
    UntilIs(contents, i + 1, IsSpace, i + l);
    return Some(contents[i..i + l]);
  }

  /** `parse_path`.  The scan over leading white space is made and then forgotten,
      as in the source. */
  method ParsePath(contents: string) returns (r: Target)
    ensures r == ParseTarget(contents)
  {
    hide Pairs;
    var _ := SkipSpace(contents, 0);
    var i := SkipWord(contents);
    i := SkipSpace(contents, i);
    var end := SkipPath(contents, i);
    if At(contents, end) != '?' { return Target(contents[i..end], None); }
    var l := QueryLength(contents, end);
    if end + l >= |contents| { return Never; }
    var query := ParseQuery(contents[end..end + l]);
    if query.None? { return Never; }
    return Target(contents[i..end], query);
  }

  method SkipWord(contents: string) returns (i: nat)
    ensures i == Until(contents, 0, WordEnd)
  {
    i := 0;
    while At(contents, i) != '\0' && !IsSpace(At(contents, i))
      invariant i <= |contents| && forall k :: 0 <= k < i ==> !WordEnd(contents[k])
      decreases |contents| - i
    {
      i := i + 1;
    }
    UntilIs(contents, 0, WordEnd, i);
  }

  method SkipPath(contents: string, i: nat) returns (end: nat)
    requires i <= |contents|
    ensures end == Until(contents, i, PathEnd)
  {
    end := i;
    while At(contents, end) != '\0' && !IsSpace(At(contents, end)) && At(contents, end) != '?'
      invariant i <= end <= |contents| && forall k :: i <= k < end ==> !PathEnd(contents[k])
      decreases |contents| - end
    {
      end := end + 1;
    }
    UntilIs(contents, i, PathEnd, end);
  }

  method QueryLength(contents: string, end: nat) returns (l: nat)
    requires end < |contents|
    ensures end + l == Until(contents, end + 1, IsSpace)
  {
    l := 1;
    while end + l < |contents| && !IsSpace(At(contents, end + l))
      invariant 1 <= l && end + l <= |contents|
      invariant forall k :: end + 1 <= k < end + l ==> !IsSpace(contents[k])
    {
      l := l + 1;
    }
    UntilIs(contents, end + 1, IsSpace, end + l);
  }

  method ParseQuery(text: string) returns (query: Option<seq<Slot>>)
    ensures query == if |Pairs(text, 1)| <= MAX_HEADERS then Some(Pairs(text, 1)) else None
  {
    hide Pairs;
    var table := new Table();
    var ok := ParseUriEncoded(table, text, 1);
    if !ok { return None; }
    assert table.List() == Pairs(text, 1);
    return Some(table.slots[..table.nslots]);
  }

  // ----- Sending ---------------------------------------------------------------------

  function HostSlot(host: string): Slot {
    Slot(Some("Host"), Some(host))
  }

  function FirstLine(verb: string, target: string): string {
    verb + " " + target + " HTTP/1.1"
  }

  function HeadOf(verb: string, target: string, slots: seq<Slot>): string {
    FirstLine(verb, target) + CRLF + HeadBytes(slots)
  }

  /** The body as sent.  A text is framed when the headers say chunked; a file is
      not, and only gets the last chunk. */
  function Payload(contents: Option<string>, file: Option<string>, chunked: bool): string {
    if contents.Some? then
      if chunked then Frames(Pieces(contents.value)) + Frame("") else contents.value
    else if file.Some? then
      file.value + if chunked then Frame("") else ""
    else ""
  }

  /** The request fields `send_request` uses, once the socket is connected. */
  class Outgoing {
    const verb: string
    const path: string
    const host: string
    const contents: Option<string>
    const file: Option<string>
    const headers: Table
    const socket: Socket
    var written: nat
    var length: int

    ghost predicate Valid()
      reads this, headers, socket
    {
      headers.Valid() && socket.Valid()
    }

    constructor (verb: string, path: string, host: string, contents: Option<string>, file: Option<string>,
                 headers: Table, socket: Socket)
      requires headers.Valid() && socket.Valid()
      ensures Valid() && written == 0 && length == -1
      ensures this.verb == verb && this.path == path && this.host == host
      ensures this.contents == contents && this.file == file
      ensures this.headers == headers && this.socket == socket
    {
      this.verb, this.path, this.host := verb, path, host;
      this.contents, this.file := contents, file;
      this.headers, this.socket := headers, socket;
      written, length := 0, -1;
    }

    /** The call that sends the head; the answer says whether a body follows. */
    method SendHead() returns (again: bool)
      requires Valid() && headers.nslots < MAX_HEADERS
      modifies this, headers, headers.slots, socket
      ensures Valid() && written == old(written)
      ensures headers.List() == old(headers.List()) + [HostSlot(host)]
      ensures socket.ideal == old(socket.ideal) + HeadOf(verb, path, headers.List())
      ensures old(socket.closed) ==> socket.closed
      ensures length == |if contents.Some? then contents.value else if file.Some? then file.value else ""|
      ensures again == (contents.Some? || file.Some?)
    {
      hide HeadBytes;
      var _ := socket.WriteToSocket(FirstLine(verb, path) + CRLF);
      var _ := headers.Append("Host", Some(host));
      SendHeaders(socket, headers);
      length := if contents.Some? then |contents.value| else if file.Some? then |file.value| else 0;
      return contents.Some? || file.Some?;
    }

    /** The part of the payload a call sends when `from` bytes are out. */
    ghost function Part(from: nat, chunked: bool): string
    {
      if contents.Some? then Payload(contents, file, chunked)
      else if file.Some? && from <= |file.value| then
        var piece := file.value[from..][..PieceLen(file.value[from..])];
        piece + if chunked && from + |piece| >= |file.value| then Frame("") else ""
      else ""
    }

    lemma PartIs(from: nat, chunked: bool)
      requires contents.Some? || (file.Some? && from <= |file.value|)
      ensures contents.Some? ==>
        Part(from, chunked) == if chunked then Frames(Pieces(contents.value)) + Frame("") else contents.value
      ensures contents.None? ==>
        var rest := file.value[from..];
        Part(from, chunked)
          == rest[..PieceLen(rest)] + if chunked && from + PieceLen(rest) >= |file.value| then Frame("") else ""
    {
    }

    /** The following calls send the body. */
    method SendBody() returns (again: bool)
      requires Valid() && (contents.Some? || file.Some?)
      requires length == |if contents.Some? then contents.value else file.value|
      requires if contents.Some? then written == 0 else written <= |file.value|
      modifies this`written, socket
      ensures Valid() && (old(socket.closed) ==> socket.closed)
      ensures contents.None? ==> written <= |file.value|
      ensures !socket.closed ==>
                && socket.ideal == old(socket.ideal) + Part(old(written), Chunked(headers.List()))
                && again == (written < length)
                && (contents.Some? ==> written == length)
                && (contents.None? ==> written == old(written) + PieceLen(file.value[old(written)..]))
    {
      hide Frames, Pieces, Frame, Chunked, Part;
      var chunked := IsChunked(headers);
      PartIs(written, chunked);
      var n := 0;
      if contents.Some? {
        n := SendText(chunked);
      } else {
        n := SendPiece();
      }
      written := written + n;
      if chunked && written >= length {
        var _ := socket.WriteChunk("");
      }
      return written < length;
    }

    /** The next piece of a file. */
    method SendPiece() returns (n: nat)
      requires Valid() && file.Some? && written <= |file.value|
      modifies socket
      ensures Valid() && (old(socket.closed) ==> socket.closed)
      ensures written + n <= |file.value|
      ensures !socket.closed ==> n == PieceLen(file.value[written..])
      ensures socket.ideal == old(socket.ideal) + file.value[written..][..PieceLen(file.value[written..])]
    {
      var rest := file.value[written..];
      n := socket.WriteToSocket(rest[..PieceLen(rest)]);
    }

    /** `send_contents` */
    method SendText(chunked: bool) returns (n: nat)
      requires Valid() && contents.Some?
      modifies socket
      ensures Valid() && (old(socket.closed) ==> socket.closed)
      ensures !socket.closed ==> n == |contents.value|
      ensures socket.ideal == old(socket.ideal)
                + if chunked then Frames(Pieces(contents.value)) else contents.value
    {
      hide Frames, Pieces;
      if chunked {
        n := socket.WriteChunkedSocket(contents.value);
      } else {
        n := socket.WriteToSocket(contents.value);
      }
    }

    /** The repeated calls of `write_request`, until nothing is left or the socket
        is closed: an open socket has received the whole message. */
    method SendAll()
      requires Valid() && written == 0 && length == -1 && headers.nslots < MAX_HEADERS
      modifies this, headers, headers.slots, socket
      ensures Valid() && headers.List() == old(headers.List()) + [HostSlot(host)]
      ensures !socket.closed ==>
                socket.wire == old(socket.wire) + HeadOf(verb, path, headers.List())
                             + Payload(contents, file, Chunked(headers.List()))
    {
      hide HeadOf, Payload, Chunked;
      var again := SendHead();
      SentNothing(contents, file, Chunked(headers.List()));
      SendRest(again);
    }

    method SendRest(first: bool)
      requires Valid() && written == 0 && first == (contents.Some? || file.Some?)
      requires length == |if contents.Some? then contents.value else if file.Some? then file.value else ""|
      modifies this`written, socket
      ensures Valid() && (old(socket.closed) ==> socket.closed)
      ensures !socket.closed ==>
                socket.ideal == old(socket.ideal) + Payload(contents, file, Chunked(headers.List()))
    {
      hide Payload, Chunked, Sent, Part;
      var again := first;
      ghost var chunked := Chunked(headers.List());
      SentNothing(contents, file, chunked);
      while again && !socket.closed
        invariant Valid() && (old(socket.closed) ==> socket.closed)
        invariant again ==> contents.Some? || file.Some?
        invariant again && !socket.closed ==>
                    if contents.Some? then written == 0 else written <= |file.value|
        invariant !socket.closed ==> socket.ideal == old(socket.ideal) + Sent(contents, file, chunked, written, again)
        decreases !socket.closed, again, length - written
      {
        ghost var from, before := written, socket.ideal;
        SentStep(this, chunked, from);
        again := SendBody();
        if !socket.closed {
          assert socket.ideal == before + Part(from, chunked);
          assert old(socket.ideal) + Sent(contents, file, chunked, from, true) + Part(from, chunked)
              == old(socket.ideal) + (Sent(contents, file, chunked, from, true) + Part(from, chunked));
        }
      }
      SentAll(contents, file, chunked, written);
    }
  }

  lemma SentAll(contents: Option<string>, file: Option<string>, chunked: bool, written: nat)
    ensures Sent(contents, file, chunked, written, false) == Payload(contents, file, chunked)
  {
  }

  /** What of the payload is out, between two calls. */
  ghost function Sent(contents: Option<string>, file: Option<string>, chunked: bool, written: nat,
        again: bool): string
  {
    if !again then Payload(contents, file, chunked)
    else if contents.None? && file.Some? && written <= |file.value| then file.value[..written]
    else ""
  }

  lemma SentNothing(contents: Option<string>, file: Option<string>, chunked: bool)
    ensures Sent(contents, file, chunked, 0, contents.Some? || file.Some?) == ""
  {
  }

  lemma SentStep(req: Outgoing, chunked: bool, from: nat)
    requires req.contents.Some? || (req.file.Some? && from <= |req.file.value|)
    ensures req.contents.Some? ==>
      Sent(req.contents, req.file, chunked, from, true) + req.Part(from, chunked)
      == Sent(req.contents, req.file, chunked, |req.contents.value|, false)
    ensures req.contents.None? ==>
      var to := from + PieceLen(req.file.value[from..]);
      Sent(req.contents, req.file, chunked, from, true) + req.Part(from, chunked)
      == Sent(req.contents, req.file, chunked, to, to < |req.file.value|)
  {
    hide Frame, Frames, Pieces;
    if req.contents.None? {
      var f := req.file.value;
      var piece := f[from..][..PieceLen(f[from..])];
      assert f[..from] + piece == f[..from + |piece|];
      if from + |piece| == |f| { assert f[..from + |piece|] == f; }
    }
  }

  /** A text body under a chunked header decodes to itself. */
  lemma ChunkedPayload(text: string, file: Option<string>)
    ensures Decode(Payload(Some(text), file, true)) == Body(text, "")
  {
    hide Frame, Frames, Pieces, Decode;
    DecodeChunkedBuffer(text, "");
    assert Frames(Pieces(text)) + Frame("") + "" == Frames(Pieces(text)) + Frame("");
  }

  /** A file under a chunked header goes out unframed: the receiver decodes the
      file exactly when the file is empty. */
  lemma FilePayload(file: string)
    ensures Decode(Payload(None, Some(file), true)) == Body(file, "") <==> file == ""
  {
    var s := Payload(None, Some(file), true);
    DecodeFrame("", "");
    assert Frame("") + "" == Frame("");
    assert |Frame("")| == 5;
    if file == "" {
      assert s == Frame("");
    } else if Decode(s) == Body(file, "") {
      DecodeCost(s);
    }
  }

  // ----- From client to server ----------------------------------------------------------

  /** A word: not empty, no white space, no NUL. */
  predicate IsWord(s: string) {
    |s| > 0 && forall c <- s :: !White(c) && c != '\0'
  }

  /** A path: no white space, no NUL, no question mark, and empty only in front of a
      query. */
  predicate IsPath(path: string, query: Option<seq<Slot>>) {
    (path != "" || query.Some?) && forall c <- path :: !White(c) && c != '\0' && c != '?'
  }

  predicate IsAlnum(c: char) {
    'A' <= c <= 'Z' || 'a' <= c <= 'z' || '0' <= c <= '9'
  }

  /** The methods of section 3.1.1 of RFC 7230, tokens by its section 3.2.6. */
  predicate IsToken(s: string) {
    s != "" && forall c <- s :: IsAlnum(c) || c in "!#$%&'*+-.^_`|~"
  }

  /** The characters of an absolute path by section 3.3 of RFC 3986. */
  predicate IsAbsolutePath(s: string) {
    s != "" && s[0] == '/' && forall c <- s :: IsAlnum(c) || c in "-._~%!$&'()*+,;=:@/"
  }

  /** What the standards allow is what the parser can read. */
  lemma StandardTarget(verb: string, path: string, query: Option<seq<Slot>>)
    ensures IsToken(verb) ==> IsWord(verb)
    ensures IsAbsolutePath(path) ==> IsPath(path, query)
  {
    var marks, others := "!#$%&'*+-.^_`|~", "-._~%!$&'()*+,;=:@/";
    assert forall c <- marks :: !White(c) && c != '\0';
    assert forall c <- others :: !White(c) && c != '\0' && c != '?';
  }

  function TargetText(path: string, query: Option<seq<Slot>>): string
    requires query.Some? ==> forall s <- query.value :: ByteSlot(s)
  {
    if query.None? then path
    else
      EncodedSeparable(query.value);
      path + "?" + Join(EncodeAll(query.value))
  }

  lemma {:induction false} JoinNoSpace(slots: seq<Slot>)
    requires forall s <- slots :: Full(s)
    requires forall s <- slots :: SafeSlot(s)
    ensures forall c <- Join(slots) :: !IsSpace(c)
  {
    if slots == [] {
    } else {
      var n := |slots| - 1;
      assert slots[n] in slots && forall s <- slots[..n] :: s in slots;
      JoinNoSpace(slots[..n]);
    }
  }

  lemma QueryPairs(query: seq<Slot>)
    requires forall s <- query :: ByteSlot(s)
    ensures forall s <- EncodeAll(query) :: Full(s)
    ensures Pairs("?" + Join(EncodeAll(query)), 1) == EncodeAll(query)
    ensures forall c <- Join(EncodeAll(query)) :: !IsSpace(c)
  {
    hide Encode, PairsFrom;
    EncodedSeparable(query);
    var es := EncodeAll(query);
    var qs := "?" + Join(es);
    JoinNoSpace(es);
    if |qs| > 1 { assert qs[1] == Join(es)[0] && Join(es)[0] in Join(es); }
    UntilIs(qs, 1, NotSpace, 1);
    if es == [] {
      PairsEnd(qs, 1);
    } else {
      assert qs[1..1 + |Join(es)|] == Join(es);
      ReadPairs(qs, 1, es);
    }
  }

  /** The first word of a request is its method. */
  lemma ReadMethod(s: string, verb: string)
    requires Reads(s, 0, verb + " ") && IsWord(verb)
    ensures Method(s) == Some(verb)
    ensures Until(s, 0, WordEnd) == |verb|
  {
    ReadsSplit(s, 0, verb, " ");
    ReadsAt(s, |verb|, " ", 0);
    forall k | 0 <= k < |verb| ensures !WordEnd(s[k]) {
      ReadsAt(s, 0, verb, k);
      assert verb[k] in verb;
    }
    UntilIs(s, 0, WordEnd, |verb|);
    UntilIs(s, 0, NotSpace, 0);
    UntilIs(s, 1, IsSpace, |verb|);
  }

  /** The path ends where a space or the query begins. */
  lemma ReadPath(s: string, i: nat, path: string, stop: char)
    requires Reads(s, i, path) && i + |path| < |s| && s[i + |path|] == stop
    requires (forall c <- path :: !PathEnd(c)) && PathEnd(stop)
    ensures Until(s, i, PathEnd) == i + |path| && s[i..i + |path|] == path
  {
    forall k | i <= k < i + |path| ensures !PathEnd(s[k]) {
      ReadsAt(s, i, path, k - i);
      assert path[k - i] in path;
    }
    UntilIs(s, i, PathEnd, i + |path|);
  }

  lemma ReadQuery(s: string, end: nat, text: string)
    requires Reads(s, end, "?") && Reads(s, end + 1, text) && Reads(s, end + 1 + |text|, " ")
    requires forall c <- text :: !IsSpace(c)
    ensures Until(s, end + 1, IsSpace) == end + 1 + |text| && s[end..end + 1 + |text|] == "?" + text
  {
    var e := end + 1 + |text|;
    ReadsAt(s, e, " ", 0);
    forall k | end + 1 <= k < e ensures !IsSpace(s[k]) {
      ReadsAt(s, end + 1, text, k - end - 1);
      assert text[k - end - 1] in text;
    }
    UntilIs(s, end + 1, IsSpace, e);
    assert s[end..e] == s[end..end + 1] + s[end + 1..e];
  }

  /** The second word is the path with its query. */
  lemma ReadTarget(s: string, verb: string, path: string, query: Option<seq<Slot>>)
    requires IsWord(verb) && IsPath(path, query)
    requires query.Some? ==> (forall q <- query.value :: ByteSlot(q)) && |query.value| <= MAX_HEADERS
    requires Reads(s, 0, verb + " " + TargetText(path, query) + " ")
    ensures ParseTarget(s) == Target(path, if query.None? then None else Some(EncodeAll(query.value)))
  {
    hide *;
    TargetStarts(path, query);
    var target := TargetText(path, query);
    var i := |verb| + 1;
    ReadsSplit(s, 0, verb + " " + target, " ");
    ReadsSplit(s, 0, verb + " ", target);
    ReadMethod(s, verb);
    ReadsAt(s, 0, verb + " ", |verb|);
    ReadsAt(s, i, target, 0);
    ReadsAt(s, i + |target|, " ", 0);
    SecondWord(s, i);
    if query.None? {
      QuestionEnds();
      ReadPath(s, i, path, ' ');
      TargetFound(s, |verb|, i, path, None);
    } else {
      ReadPathQuery(s, i, path, query.value);
      EncodedCount(query.value);
      TargetFound(s, |verb|, i, path, Some(EncodeAll(query.value)));
    }
  }

  /** With white space in front of the request line the method word is taken for the
      path. */
  lemma LeadingSpace(s: string, ws: string, verb: string)
    requires Reads(s, 0, ws) && ws != "" && forall c <- ws :: White(c)
    requires Reads(s, |ws|, verb + " ") && IsWord(verb) && '?' !in verb
    ensures Method(s) == Some(verb) && ParseTarget(s) == Target(verb, None)
  {
    hide *;
    var i := |ws|;
    SpacesSkipped(s, ws, verb);
    WordAt(s, i, verb);
    WordPath(verb);
    NoWordFirst(s);
    QuestionEnds();
    ReadPath(s, i, verb, ' ');
    TargetFound(s, 0, i, verb, None);
    MethodFound(s, i, verb);
  }

  lemma SpacesSkipped(s: string, ws: string, verb: string)
    requires Reads(s, 0, ws) && ws != "" && (forall c <- ws :: White(c))
    requires Reads(s, |ws|, verb + " ") && IsWord(verb)
    ensures s != "" && IsSpace(s[0]) && Until(s, 0, NotSpace) == |ws|
  {
    forall k | 0 <= k < |ws| ensures !NotSpace(s[k]) {
      ReadsAt(s, 0, ws, k);
      assert ws[k] in ws;
    }
    ReadsAt(s, |ws|, verb + " ", 0);
    assert verb[0] in verb;
    UntilIs(s, 0, NotSpace, |ws|);
  }

  lemma WordAt(s: string, i: nat, verb: string)
    requires Reads(s, i, verb + " ") && IsWord(verb)
    ensures Reads(s, i, verb) && i + |verb| < |s| && s[i + |verb|] == ' '
    ensures Until(s, i + 1, IsSpace) == i + |verb| && s[i..i + |verb|] == verb
  {
    ReadsSplit(s, i, verb, " ");
    ReadsAt(s, i + |verb|, " ", 0);
    forall k | i + 1 <= k < i + |verb| ensures !IsSpace(s[k]) {
      ReadsAt(s, i, verb, k - i);
      assert verb[k - i] in verb;
    }
    UntilIs(s, i + 1, IsSpace, i + |verb|);
  }

  lemma WordPath(verb: string)
    requires IsWord(verb) && '?' !in verb
    ensures forall c <- verb :: !PathEnd(c)
  {
  }

  lemma NoWordFirst(s: string)
    requires s != "" && IsSpace(s[0])
    ensures Until(s, 0, WordEnd) == 0
  {
    UntilIs(s, 0, WordEnd, 0);
  }

  lemma MethodFound(s: string, i: nat, verb: string)
    requires i == Until(s, 0, NotSpace) && Until(s, i + 1, IsSpace) == i + |verb| < |s| && s[i..i + |verb|] == verb
    ensures Method(s) == Some(verb)
  {
    hide Until;
  }

  lemma EncodedCount(query: seq<Slot>)
    requires forall q <- query :: ByteSlot(q)
    ensures |EncodeAll(query)| == |query|
  {
  }

  lemma SecondWord(s: string, i: nat)
    requires 0 < i < |s| && s[i - 1] == ' ' && !IsSpace(s[i])
    ensures Until(s, i - 1, NotSpace) == i
  {
    UntilIs(s, i - 1, NotSpace, i);
  }

  /** `ParseTarget` from the places its scans stop at. */
  lemma TargetFound(s: string, w: nat, i: nat, path: string, query: Option<seq<Slot>>)
    requires Until(s, 0, WordEnd) == w && Until(s, w, NotSpace) == i
    requires var end := Until(s, i, PathEnd);
             && end < |s| && s[i..end] == path && (query.Some? <==> s[end] == '?')
             && (query.Some? ==>
                   var e := Until(s, end + 1, IsSpace);
                   e < |s| && Pairs(s[end..e], 1) == query.value && |query.value| <= MAX_HEADERS)
    ensures ParseTarget(s) == Target(path, query)
  {
    hide Until, Pairs;
  }

  lemma TargetStarts(path: string, query: Option<seq<Slot>>)
    requires IsPath(path, query) && (query.Some? ==> forall q <- query.value :: ByteSlot(q))
    ensures var t := TargetText(path, query); |t| > 0 && !IsSpace(t[0])
    ensures query.None? ==> TargetText(path, query) == path
    ensures forall c <- path :: !PathEnd(c)
  {
    hide Encode, Join;
    assert path != "" ==> TargetText(path, query)[0] == path[0] && path[0] in path;
  }

  lemma ReadPathQuery(s: string, i: nat, path: string, query: seq<Slot>)
    requires (forall q <- query :: ByteSlot(q)) && forall c <- path :: !PathEnd(c)
    requires var t := TargetText(path, Some(query)); Reads(s, i, t) && Reads(s, i + |t|, " ")
    ensures var end := Until(s, i, PathEnd);
            && end < |s| && s[end] == '?' && s[i..end] == path
            && var e := Until(s, end + 1, IsSpace);
               e < |s| && Pairs(s[end..e], 1) == EncodeAll(query)
  {
    hide *;
    QueryPairs(query);
    TargetIs(path, query);
    ReadPathText(s, i, path, Join(EncodeAll(query)));
  }

  lemma TargetIs(path: string, query: seq<Slot>)
    requires forall q <- query :: ByteSlot(q)
    ensures forall q <- EncodeAll(query) :: Full(q)
    ensures TargetText(path, Some(query)) == path + "?" + Join(EncodeAll(query))
  {
    hide Encode, Join;
    EncodedSeparable(query);
  }

  lemma ReadPathText(s: string, i: nat, path: string, text: string)
    requires (forall c <- path :: !PathEnd(c)) && forall c <- text :: !IsSpace(c)
    requires var t := path + "?" + text; Reads(s, i, t) && Reads(s, i + |t|, " ")
    ensures var end := Until(s, i, PathEnd);
            && end < |s| && s[end] == '?' && s[i..end] == path
            && var e := Until(s, end + 1, IsSpace);
               e < |s| && s[end..e] == "?" + text
  {
    hide Reads, IsSpace, PathEnd, Until;
    ReadsSplit(s, i, path + "?", text);
    ReadsSplit(s, i, path, "?");
    ReadsAt(s, i + |path|, "?", 0);
    ReadsAt(s, i + |path| + 1 + |text|, " ", 0);
    QuestionEnds();
    ReadPath(s, i, path, '?');
    ReadQuery(s, i + |path|, text);
  }

  lemma QuestionEnds()
    ensures PathEnd('?') && PathEnd(' ')
  {
  }

  /** The list a server ends up with looks things up like the list sent. */
  lemma LookupSent(slots: seq<Slot>, host: string, peer: string)
    ensures var all := slots + [HostSlot(host)] + [Slot(Some("peer"), Some(peer))];
            && Chunked(all) == Chunked(slots) && ContentLength(all) == ContentLength(slots)
  {
    var tail := [HostSlot(host), Slot(Some("peer"), Some(peer))];
    assert slots + [HostSlot(host)] + [Slot(Some("peer"), Some(peer))] == slots + tail;
    LookupOther(slots, tail, "Transfer-Encoding");
    LookupOther(slots, tail, "Content-Length");
  }

  /** What a client may ask for: a method word, a path with an optional query of
      byte strings, clean headers with room for two more, no chunked coding, and a
      content length that is the length of the body. */
  ghost predicate Sendable(verb: string, path: string, query: Option<seq<Slot>>, host: string, slots: seq<Slot>,
        body: string)
  {
    && IsWord(verb) && IsPath(path, query)
    && (query.Some? ==> (forall q <- query.value :: ByteSlot(q)) && |query.value| <= MAX_HEADERS)
    && |slots| + 1 < MAX_HEADERS && (forall s <- slots :: Clean(s)) && ValueShape(host)
    && !SaysChunked(slots) && Declares(slots, |body|)
  }

  /** Encoded characters and path characters break no line. */
  lemma FirstLineHasNoEol(verb: string, path: string, query: Option<seq<Slot>>)
    requires IsWord(verb) && IsPath(path, query)
    requires query.Some? ==> forall q <- query.value :: ByteSlot(q)
    ensures forall c <- FirstLine(verb, TargetText(path, query)) :: !IsEol(c)
    ensures OneLine(FirstLine(verb, TargetText(path, query)))
  {
    hide Encode, Join;
    assert forall c <- path :: !IsEol(c) by { assert forall c <- path :: !PathEnd(c); }
    assert forall c <- verb :: !IsEol(c) by { assert forall c <- verb :: !WordEnd(c); }
    if query.Some? {
      QueryPairs(query.value);
      assert forall c <- Join(EncodeAll(query.value)) :: !IsEol(c);
    }
    var target := TargetText(path, query);
    assert forall c <- target :: !IsEol(c);
    assert forall c <- " HTTP/1.1" :: !IsEol(c);
  }

  /** The body of a request, from a text or from a file. */
  function BodyOf(contents: Option<string>, file: Option<string>): string {
    if contents.Some? then contents.value else if file.Some? then file.value else ""
  }

  lemma PlainPayload(contents: Option<string>, file: Option<string>)
    ensures Payload(contents, file, false) == BodyOf(contents, file)
  {
  }

  /** Client to server: the message an open socket receives, delivered to a server
      in any pieces and with fewer than 20 failed reads, is read back as the same
      method, path, query, headers with `Host` and `peer`, and body; and the server
      waits for exactly the last byte. */
  lemma ClientToServer(env: Env, events: seq<Event>, verb: string, path: string, query: Option<seq<Slot>>,
                       host: string, slots: seq<Slot>, contents: Option<string>, file: Option<string>)
    requires Sendable(verb, path, query, host, slots, BodyOf(contents, file))
    requires events != [] && events[|events| - 1].Data? && Failures(events) < MAX_RETRIES
    requires Total(events)
          == HeadOf(verb, TargetText(path, query), slots + [HostSlot(host)])
             + Payload(contents, file, Chunked(slots + [HostSlot(host)]))
    ensures verb + " " + TargetText(path, query) + " HTTP/1.1\r\n" <= Total(events)
    ensures var c := Run(env, events);
            && c.phase == Writing && c.done
            && c.headers == Some(slots + [Slot(Some("Host"), Some(host)), Slot(Some("peer"), Some(env.peer))])
            && c.contents == Some(Total(events))
            && c.body <= |Total(events)| && Total(events)[c.body..] == BodyOf(contents, file)
            && Method(Total(events)) == Some(verb)
            && ParseTarget(Total(events))
               == Target(path, if query.None? then None else Some(EncodeAll(query.value)))
  {
    hide Chunked, ContentLength, ParseHead, Run, Clean, Encode, Join, ParseTarget, Method, HeadBytes,
      Payload, BodyOf, SaysChunked, Declares;
    var body := BodyOf(contents, file);
    PlainPayload(contents, file);
    var all := slots + [HostSlot(host)];
    var target := TargetText(path, query);
    var line := FirstLine(verb, target);
    LookupHost(slots, host);
    ChunkedIff(slots);
    DeclaredLength(slots, |body|);
    HostClean(host);
    LookupSent(slots, host, env.peer);
    FirstLineHasNoEol(verb, path, query);
    forall s | s in all ensures Clean(s) { assert s in slots || s == HostSlot(host); }
    HeadRoundTrip(line, all, body);
    var s := Total(events);
    assert s == line + CRLF + HeadBytes(all) + body;
    DoneExactly(env, events);
    assert all + [Peer(env)] == slots + [HostSlot(host), Peer(env)];
    assert Run(env, events).contents.value == s;
    LineStarts(s, verb, target, HeadBytes(all) + body);
    ReadTarget(s, verb, path, query);
    ReadMethod(s, verb);
  }

  /** The first line and its words at the start of a message. */
  lemma LineStarts(s: string, verb: string, target: string, rest: string)
    requires s == FirstLine(verb, target) + CRLF + rest
    ensures verb + " " + target + " HTTP/1.1\r\n" <= s
    ensures Reads(s, 0, verb + " " + target + " ") && Reads(s, 0, verb + " ")
  {
    hide Reads;
    var line := verb + " " + target + " ";
    assert s == "" + line + ("HTTP/1.1" + CRLF + rest);
    ReadsMiddle("", line, "HTTP/1.1" + CRLF + rest);
    assert line == (verb + " ") + (target + " ");
    ReadsSplit(s, 0, verb + " ", target + " ");
  }

  /** The same message, or any part of it, and the server's log message: the run is
      that of the server without it exactly if no read ends in front of the first
      header's colon or inside of a later key. */
  lemma ClientLogged(env: Env, events: seq<Event>, verb: string, path: string, query: Option<seq<Slot>>,
        host: string, slots: seq<Slot>, contents: Option<string>, file: Option<string>)
    requires Sendable(verb, path, query, host, slots, BodyOf(contents, file)) && Failures(events) < MAX_RETRIES
    requires Total(events)
          <= HeadOf(verb, TargetText(path, query), slots + [HostSlot(host)])
             + Payload(contents, file, Chunked(slots + [HostSlot(host)]))
    ensures LoggedRun(env, events)
         == if AllCutWell(FirstLine(verb, TargetText(path, query)), slots + [HostSlot(host)], events)
            then Some(Run(env, events)) else None
  {
    hide Chunked, Run, LoggedRun, AllCutWell, Clean, Encode, Join, HeadBytes, Payload, BodyOf, FirstLine, TargetText;
    var all, line := slots + [HostSlot(host)], FirstLine(verb, TargetText(path, query));
    HostClean(host);
    FirstLineHasNoEol(verb, path, query);
    forall k | 0 <= k < |line| ensures !IsEol(line[k]) { assert line[k] in line; }
    forall s | s in all ensures Clean(s) { assert s in slots || s == HostSlot(host); }
    LoggedStream(env, events, line, all, Payload(contents, file, Chunked(all)));
  }

  lemma LookupHost(slots: seq<Slot>, host: string)
    ensures Chunked(slots + [HostSlot(host)]) == Chunked(slots)
  {
    LookupOther(slots, [HostSlot(host)], "Transfer-Encoding");
  }

  lemma HostClean(host: string)
    requires ValueShape(host)
    ensures Clean(HostSlot(host))
  {
    assert "Host"[0] == 'H';
  }
}
