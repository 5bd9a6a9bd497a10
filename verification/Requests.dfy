/**
 Reading a request in pieces: `process_request` (requests.c), the body length
 (transfer.c) and the event step around them (client.c).  The bytes of one call
 of `read_socket` are one event.
 */
module Requests {
  import opened Wrappers
  import opened Str
  import opened Sockets
  import opened Headers

  const MAX_RETRIES := 20

  /** What the reader takes from elsewhere: the peer's address, and the two
      functions on inbound chunked bodies, which are not part of this model. */
  datatype Env = Env(peer: string, chunkedLength: string -> int, dechunk: string -> string)

  /** One call of `read_socket`: bytes up to a would-block or the end of the
      stream, or bytes up to an error. */
  datatype Event = Data(bytes: string) | Failure(bytes: string)

  /** `Gone` is after `disconnect`; `Spinning` is the endless loop of
      `free_header_slot` on a full table. */
  datatype Phase = Reading | Writing | Gone | Spinning

  datatype Conn = Conn(
    buf: string,
    contents: Option<string>,
    headers: Option<seq<Slot>>,
    body: nat,
    done: bool,
    retries: nat,
    phase: Phase)

  const START := Conn("", None, Some([]), 0, false, 0, Reading)

  function Chunked(slots: seq<Slot>): bool {
    var enc := Lookup(slots, "Transfer-Encoding");
    enc.Some? && EqualFold(enc.value, "chunked")
  }

  function ContentLength(slots: seq<Slot>): int {
    var v := Lookup(slots, "Content-Length");
    if v.Some? then IntOf(v.value) else 0
  }

  function InboundLength(env: Env, contents: string, headers: Option<seq<Slot>>): int {
    if headers.None? then 0
    else
      var slots := headers.value;
      if Chunked(slots) then env.chunkedLength(contents) else ContentLength(slots)
  }

  function Peer(env: Env): Slot {
    Slot(Some("peer"), Some(env.peer))
  }

  // ----- Which lists mean what -----------------------------------------------------

  /** A text up to the case of its letters, given in both cases. */
  predicate AnyCase(v: string, lower: string, upper: string) {
    |v| == |lower| == |upper| && forall i :: 0 <= i < |v| ==> v[i] == lower[i] || v[i] == upper[i]
  }

  /** The transfer coding of section 4.1 of RFC 7230 is the one that is named first. */
  ghost predicate SaysChunked(slots: seq<Slot>) {
    exists k :: FirstAt(slots, "Transfer-Encoding", k) && slots[k].value.Some?
             && AnyCase(slots[k].value.value, "chunked", "CHUNKED")
  }

  /** The first `Content-Length` is the decimal numeral of `n`, or there is none and
      `n` is zero. */
  ghost predicate Declares(slots: seq<Slot>, n: nat) {
    || (n == 0 && forall s <- slots :: s.key != Some("Content-Length"))
    || exists k :: FirstAt(slots, "Content-Length", k) && slots[k].value == Some(Digits(n, 10))
  }

  lemma ChunkedIff(slots: seq<Slot>)
    ensures Chunked(slots) <==> SaysChunked(slots)
  {
    hide EqualFold, AnyCase;
    LookupFirst(slots, "Transfer-Encoding");
    var v := Lookup(slots, "Transfer-Encoding");
    if v.Some? { ChunkedCase(v.value); }
  }

  lemma ChunkedCase(v: string)
    ensures EqualFold(v, "chunked") <==> AnyCase(v, "chunked", "CHUNKED")
  {
    var l, u := "chunked", "CHUNKED";
    if |v| == 7 {
      forall i | 0 <= i < 7 ensures Upper(v[i]) == Upper(l[i]) <==> v[i] == l[i] || v[i] == u[i] {
        assert Upper(l[i]) == u[i];
      }
    }
  }

  lemma DeclaredLength(slots: seq<Slot>, n: nat)
    requires Declares(slots, n)
    ensures ContentLength(slots) == n
  {
    hide Digits, IntOf;
    LookupFirst(slots, "Content-Length");
    IntRoundTrip(n);
  }

  // ----- One event ---------------------------------------------------------------

  /** `request_done`, and what the event step does with its answer. */
  function Finish(env: Env, c: Conn): Conn
    requires c.contents.Some?
  {
    var all := c.contents.value;
    var done := c.body != 0 && |all| - c.body >= InboundLength(env, all, c.headers);
    if !done then c.(done := false, retries := 0)
    else
      c.(done := true, retries := 0, phase := Writing, buf := "",
         contents := if c.headers.Some? && Chunked(c.headers.value) && c.body <= |all|
                     then Some(all[..c.body] + env.dechunk(all)) else c.contents)
  }

  function Step(env: Env, c: Conn, e: Event): Conn {
    if c.phase != Reading then c
    else
      var buf := c.buf + e.bytes;
      if e.Failure? then
        c.(buf := buf, contents := None, retries := c.retries + 1,
           phase := if c.retries + 1 >= MAX_RETRIES then Gone else Reading)
      else
        var c' := c.(buf := buf, contents := Some(buf));
        if c.body != 0 then Finish(env, c')
        else
          var head := ParseHead(buf);
          if head.NoLine? then
            c'.(headers := None, phase := if c.retries >= MAX_RETRIES then Gone else Reading)
          else if |head.slots| >= MAX_HEADERS then
            c'.(headers := Some(head.slots), phase := Spinning)
          else
            Finish(env, c'.(headers := Some(head.slots + [Peer(env)]),
                            body := if head.Complete? then head.body else 0))
  }

  function Run(env: Env, events: seq<Event>): Conn {
    if events == [] then START
    else Step(env, Run(env, events[..|events| - 1]), events[|events| - 1])
  }

  /** Every byte delivered. */
  function Total(events: seq<Event>): string {
    if events == [] then ""
    else Total(events[..|events| - 1]) + events[|events| - 1].bytes
  }

  function Failures(events: seq<Event>): nat {
    if events == [] then 0
    else Failures(events[..|events| - 1]) + if events[|events| - 1].Failure? then 1 else 0
  }

  // ----- Independence from the split ------------------------------------------------

  /** The state a single read of everything leads to. */
  function OneRead(env: Env, all: string): Conn {
    Step(env, START, Data(all))
  }

  /** A connection that still waits has buffered all bytes, and remembers a body
      offset only together with the headers of a complete prefix. */
  ghost predicate Waits(env: Env, c: Conn, all: string) {
    && c.phase == Reading && c.buf == all && !c.done && c.retries < MAX_RETRIES
    && (c.body != 0 ==>
          exists p, x :: Known(env, c, p, x, all))
  }

  ghost predicate Known(env: Env, c: Conn, p: string, x: string, all: string) {
    && p + x == all
    && ParseHead(p).Complete? && c.body == ParseHead(p).body
    && c.headers == Some(ParseHead(p).slots + [Peer(env)])
  }

  lemma KnownStable(env: Env, c: Conn, all: string, more: string)
    requires Waits(env, c, all) && c.body != 0
    ensures var h := ParseHead(all + more);
            h.Complete? && c.body == h.body && c.headers == Some(h.slots + [Peer(env)])
    ensures Known(env, c, all + more, "", all + more)
  {
    var p, x :| Known(env, c, p, x, all);
    PrefixStable(p, x + more);
    assert p + (x + more) == all + more;
    assert all + more + "" == all + more;
  }

  /** One event from a waiting connection: a read gives what a single read of all
      bytes gives, up to the retry counter. */
  lemma StepWaits(env: Env, c: Conn, all: string, e: Event)
    requires Waits(env, c, all)
    ensures e.Data? ==> Step(env, c, e).(retries := 0) == OneRead(env, all + e.bytes).(retries := 0)
    ensures Step(env, c, e).phase == Reading ==> Waits(env, Step(env, c, e), all + e.bytes)
  {
    hide ParseHead;
    var now := all + e.bytes;
    assert "" + now == now;
    var c' := Step(env, c, e);
    if c.body != 0 {
      KnownStable(env, c, all, e.bytes);
      CompleteShaped(now);
      PrefixStable(now, "");
      if c'.phase == Reading {
        assert Known(env, c', now, "", now);
      }
    } else if e.Data? {
      if ParseHead(now).Complete? {
        assert now + "" == now;
        PrefixStable(now, "");
        if c'.phase == Reading { assert Known(env, c', now, "", now); }
      }
    }
  }

  lemma {:induction false} RunWaits(env: Env, events: seq<Event>)
    requires Run(env, events).phase == Reading
    ensures Waits(env, Run(env, events), Total(events))
  {
    hide Step;
    if events == [] {
    } else {
      var before := events[..|events| - 1];
      StepIdle(env, Run(env, before), events[|events| - 1]);
      RunWaits(env, before);
      StepWaits(env, Run(env, before), Total(before), events[|events| - 1]);
    }
  }

  lemma StepIdle(env: Env, c: Conn, e: Event)
    ensures c.phase != Reading ==> Step(env, c, e) == c
  {
  }

  /** Split independence: however the bytes were cut into reads, and whatever
      reads failed in between, the read that is processed last leaves the state
      a single read of all bytes would leave. */
  lemma SplitIndependent(env: Env, events: seq<Event>)
    requires events != [] && events[|events| - 1].Data?
    requires Run(env, events[..|events| - 1]).phase == Reading
    ensures Run(env, events).(retries := 0) == OneRead(env, Total(events)).(retries := 0)
  {
    hide Step;
    var before := events[..|events| - 1];
    RunWaits(env, before);
    StepWaits(env, Run(env, before), Total(before), events[|events| - 1]);
  }

  // ----- When reading ends -------------------------------------------------------------

  /** The end of reading for a complete head without chunked coding: exactly when
      the body has arrived. */
  lemma OneReadDone(env: Env, all: string)
    requires ParseHead(all).Complete? && !Chunked(ParseHead(all).slots + [Peer(env)])
    ensures var h := ParseHead(all); var c := OneRead(env, all);
            && c.headers == Some(h.slots + [Peer(env)]) && c.body == h.body
            && c.phase == (if |all| >= h.body + ContentLength(h.slots + [Peer(env)]) then Writing else Reading)
            && c.done == (c.phase == Writing) && c.contents == Some(all)
  {
    hide ParseHead, Chunked, ContentLength;
    assert "" + all == all;
    assert all + "" == all;
    PrefixStable(all, "");
    CompleteShaped(all);
  }

  /** A prefix of a stream with a complete head either waits, or has the same head. */
  lemma OneReadPrefix(env: Env, p: string, x: string)
    requires ParseHead(p + x).Complete? && !Chunked(ParseHead(p + x).slots + [Peer(env)])
    ensures OneRead(env, p).phase != Reading ==> ParseHead(p) == ParseHead(p + x) && OneRead(env, p).phase == Writing
  {
    hide ParseHead, Chunked;
    assert "" + p == p;
    PrefixStable(p, x);
    CompleteShaped(p + x);
    if ParseHead(p).Complete? {
      OneReadDone(env, p);
    }
  }

  lemma {:induction false} RetriesBounded(env: Env, events: seq<Event>)
    requires Failures(events) < MAX_RETRIES
    ensures Run(env, events).retries <= Failures(events)
    ensures Run(env, events).phase != Gone
  {
    if events == [] {
    } else {
      RetriesBounded(env, events[..|events| - 1]);
      hide ParseHead, Chunked, InboundLength;
    }
  }

  /** The failed reads since the last read that found a line break, in what had arrived
      by then. */
  function Streak(events: seq<Event>): nat {
    if events == [] then 0
    else
      var before := Streak(events[..|events| - 1]);
      if events[|events| - 1].Failure? then before + 1
      else if OneLine(Total(events)) then before else 0
  }

  /** Only failed reads in a row count: a run disconnects or reads on by them alone. */
  lemma {:induction false} RetriesReset(env: Env, events: seq<Event>)
    ensures Run(env, events).phase == Reading ==> Run(env, events).retries == Streak(events)
    ensures Run(env, events).phase == Gone ==> exists k: nat | k <= |events| :: Streak(events[..k]) >= MAX_RETRIES
  {
    hide Step, Total;
    if events == [] {
    } else {
      var n := |events| - 1;
      var c := Run(env, events[..n]);
      RetriesReset(env, events[..n]);
      StepIdle(env, c, events[n]);
      if c.phase == Reading {
        RunWaits(env, events[..n]);
        BreakFound(env, c, Total(events[..n]), events[n]);
        TotalMore(events);
        assert events[..|events|] == events;
      } else if c.phase == Gone {
        var k: nat :| k <= n && Streak(events[..n][..k]) >= MAX_RETRIES;
        assert events[..n][..k] == events[..k];
      }
    }
  }

  lemma TotalMore(events: seq<Event>)
    requires events != []
    ensures Total(events) == Total(events[..|events| - 1]) + events[|events| - 1].bytes
  {
  }

  /** The counter after one event. */
  lemma BreakFound(env: Env, c: Conn, all: string, e: Event)
    requires Waits(env, c, all)
    ensures var c' := Step(env, c, e);
            && (e.Failure? ==> c'.retries == c.retries + 1 && (c'.phase == Gone <==> c.retries + 1 >= MAX_RETRIES))
            && (e.Data? ==> c'.phase != Gone)
            && (e.Data? && c'.phase == Reading ==>
                  c'.retries == if OneLine(all + e.bytes) then c.retries else 0)
  {
    hide Scan, Chunked, InboundLength;
    NoEol(all + e.bytes);
    if c.body != 0 {
      KnownStable(env, c, all, e.bytes);
    }
  }

  /** Failed reads alone disconnect exactly at the twentieth. */
  lemma {:induction false} FailuresDisconnect(env: Env, events: seq<Event>)
    requires forall e <- events :: e.Failure?
    ensures Run(env, events).phase == if |events| < MAX_RETRIES then Reading else Gone
    ensures |events| < MAX_RETRIES ==> Run(env, events).retries == |events|
  {
    if events == [] {
    } else {
      var n := |events| - 1;
      assert events[n] in events && forall e <- events[..n] :: e in events;
      FailuresDisconnect(env, events[..n]);
      hide ParseHead, Chunked, InboundLength;
    }
  }

  lemma {:induction false} TotalPrefix(events: seq<Event>, k: nat)
    requires k <= |events|
    ensures Total(events[..k]) <= Total(events)
  {
    if k == |events| {
      assert events[..k] == events;
    } else {
      assert events[..|events| - 1][..k] == events[..k];
      TotalPrefix(events[..|events| - 1], k);
    }
  }

  /** The run of a stream whose head is complete and not chunked, with fewer than
      20 failed reads: when the last event is a read, the request is done exactly
      if the bytes reach the body offset plus the content length, with the headers
      of that head followed by one `peer`, however the stream was cut. */
  lemma {:induction false} DoneExactly(env: Env, events: seq<Event>)
    requires events != [] && events[|events| - 1].Data? && Failures(events) < MAX_RETRIES
    requires ParseHead(Total(events)).Complete?
    requires !Chunked(ParseHead(Total(events)).slots + [Peer(env)])
    ensures var h := ParseHead(Total(events)); var c := Run(env, events);
            && c.headers == Some(h.slots + [Peer(env)]) && c.body == h.body
            && (c.phase == Writing <==> |Total(events)| >= h.body + ContentLength(h.slots + [Peer(env)]))
            && c.done == (c.phase == Writing)
            && (c.phase == Reading || c.phase == Writing)
            && c.contents.Some? && c.contents.value <= Total(events)
            && (c.phase == Writing ==> |c.contents.value| >= h.body + ContentLength(h.slots + [Peer(env)]))
  {
    hide Step, ParseHead, Chunked, ContentLength;
    var before := events[..|events| - 1];
    var all := Total(events);
    if Run(env, before).phase == Reading {
      SplitIndependent(env, events);
      OneReadDone(env, all);
    } else {
      var k := FirstStop(env, before);
      assert before[..k] == events[..k] && before[..k + 1] == events[..k + 1];
      StoppedEarly(env, events, k);
    }
  }

  /** The same for the field lines of a head that declares a body of `n` bytes: the
      request is done exactly when `n` bytes have followed its head. */
  lemma BodyArrived(env: Env, events: seq<Event>, line: string, fs: seq<Field>, n: nat, body: string)
    requires events != [] && events[|events| - 1].Data? && Failures(events) < MAX_RETRIES
    requires OneLine(line) && 1 <= |fs| < MAX_HEADERS && forall f <- fs :: FieldShape(f)
    requires !SaysChunked(FieldSlots(fs)) && Declares(FieldSlots(fs), n)
    requires Total(events) == line + CRLF + (FieldLines(fs) + CRLF) + body
    ensures var c := Run(env, events);
            && c.headers == Some(FieldSlots(fs) + [Slot(Some("peer"), Some(env.peer))])
            && c.body == |line + CRLF + (FieldLines(fs) + CRLF)|
            && (c.phase == Writing <==> |body| >= n) && c.done == (c.phase == Writing)
            && (c.phase == Reading || c.phase == Writing)
  {
    hide ParseHead, Chunked, ContentLength, SaysChunked, Declares, FieldShape, Run, FieldLines, FieldSlots;
    FieldsRoundTrip(line, fs, body);
    var peer := [Slot(Some("peer"), Some(env.peer))];
    LookupPeer(FieldSlots(fs), peer);
    ChunkedIff(FieldSlots(fs));
    DeclaredLength(FieldSlots(fs), n);
    DoneExactly(env, events);
  }

  /** A length under a name in lower case does not count: the request is done without
      its body. */
  lemma LowerCaseIgnored(env: Env, line: string)
    requires OneLine(line)
    ensures OneRead(env, line + CRLF + ("content-length: 5\r\n" + CRLF)).phase == Writing
  {
    hide ParseHead, Run, FieldSlots, FieldLine;
    var f := Field("content-length", " ", "5");
    LowerCaseField(f);
    var all := line + CRLF + (FieldLines([f]) + CRLF);
    var events := [Data(all)];
    assert all + "" == all && "" + all == all && events[..0] == [];
    assert Total(events) == all by { assert Total([]) == ""; }
    BodyArrived(env, events, line, [f], 0, "");
    assert Run(env, events) == OneRead(env, all) by { OneEvent(env, Data(all)); }
  }

  lemma OneEvent(env: Env, e: Event)
    ensures Run(env, [e]) == Step(env, START, e)
  {
    hide Step;
    assert [e][..0] == [];
  }

  lemma LowerCaseField(f: Field)
    requires f == Field("content-length", " ", "5")
    ensures FieldShape(f) && !SaysChunked(FieldSlots([f])) && Declares(FieldSlots([f]), 0)
    ensures FieldLines([f]) == "content-length: 5\r\n"
  {
    var slots := FieldSlots([f]);
    assert slots == [Slot(Some("content-length"), Some("5"))];
    assert "content-length"[0] == 'c' && "Content-Length"[0] == 'C' && |"Transfer-Encoding"| == 17;
    assert [f][1..] == [];
    assert "content-length" + ":" + " " + "5" + CRLF == "content-length: 5\r\n";
  }

  /** `peer` hides nothing the reader looks up. */
  lemma LookupPeer(slots: seq<Slot>, peer: seq<Slot>)
    requires |peer| == 1 && peer[0].key == Some("peer")
    ensures Chunked(slots + peer) == Chunked(slots) && ContentLength(slots + peer) == ContentLength(slots)
  {
    LookupOther(slots, peer, "Transfer-Encoding");
    LookupOther(slots, peer, "Content-Length");
  }

  /** The event at which a run that no longer reads stopped. */
  lemma {:induction false} FirstStop(env: Env, events: seq<Event>) returns (k: nat)
    requires Run(env, events).phase != Reading
    ensures k < |events| && Run(env, events[..k]).phase == Reading
    ensures Run(env, events[..k + 1]).phase != Reading && Run(env, events[..k + 1]) == Run(env, events)
  {
    hide Step;
    var n := |events| - 1;
    if Run(env, events[..n]).phase == Reading {
      assert events[..n + 1] == events;
      return n;
    }
    k := FirstStop(env, events[..n]);
    StepIdle(env, Run(env, events[..n]), events[n]);
    assert events[..n][..k] == events[..k] && events[..n][..k + 1] == events[..k + 1];
  }

  lemma StoppedEarly(env: Env, events: seq<Event>, k: nat)
    requires k + 1 < |events| && Failures(events) < MAX_RETRIES
    requires ParseHead(Total(events)).Complete?
    requires !Chunked(ParseHead(Total(events)).slots + [Peer(env)])
    requires Run(env, events[..k]).phase == Reading && Run(env, events[..k + 1]).phase != Reading
    requires Run(env, events[..k + 1]) == Run(env, events[..|events| - 1])
    ensures var h := ParseHead(Total(events)); var c := Run(env, events);
            && c.headers == Some(h.slots + [Peer(env)]) && c.body == h.body
            && c.phase == Writing && c.done
            && c.contents.Some? && c.contents.value <= Total(events)
            && |c.contents.value| >= h.body + ContentLength(h.slots + [Peer(env)])
  {
    hide ParseHead, Chunked, ContentLength;
    var cut := events[..k + 1];
    var p, all := Total(cut), Total(events);
    TotalPrefix(events, k + 1);
    var x := all[|p|..];
    assert p + x == all;
    assert cut[..k] == events[..k];
    StepIdle(env, Run(env, cut), events[|events| - 1]);
    RunWaits(env, events[..k]);
    FailureStops(env, events, k);
    hide Step;
    SplitIndependent(env, cut);
    OneReadPrefix(env, p, x);
    OneReadDone(env, p);
  }

  lemma {:induction false} FailuresPrefix(events: seq<Event>, k: nat)
    requires k <= |events|
    ensures Failures(events[..k]) <= Failures(events)
  {
    if k == |events| {
      assert events[..k] == events;
    } else {
      assert events[..|events| - 1][..k] == events[..k];
      FailuresPrefix(events[..|events| - 1], k);
    }
  }

  /** With fewer than 20 failures it is never a failure that ends a run. */
  lemma FailureStops(env: Env, events: seq<Event>, k: nat)
    requires k < |events| && Failures(events) < MAX_RETRIES
    requires Run(env, events[..k]).phase == Reading && Run(env, events[..k + 1]).phase != Reading
    ensures events[k].Data?
  {
    var cut := events[..k + 1];
    assert cut[..k] == events[..k];
    FailuresPrefix(events, k + 1);
    RetriesBounded(env, cut);
  }

  // ----- The reader itself ----------------------------------------------------------------

  /** `is_chunked` */
  method IsChunked(headers: Table) returns (b: bool)
    requires headers.Valid()
    ensures b == Chunked(headers.List())
  {
    var enc := headers.Find("Transfer-Encoding");
    if enc.None? { return false; }
    b := Icmp(enc.value, "chunked");
  }

  /** The request fields of `client.request` and the buffer of its socket. */
  class Connection {
    const env: Env
    var buf: string
    var contents: Option<string>
    var headers: Table?
    var body: nat
    var done: bool
    var retries: nat
    var phase: Phase

    ghost predicate Valid()
      reads this, headers
    {
      headers != null ==> headers.Valid()
    }

    ghost function HeaderList(): Option<seq<Slot>>
      requires Valid()
      reads this, headers, if headers == null then {} else {headers.slots}
    {
      if headers == null then None else Some(headers.List())
    }

    ghost function View(): Conn
      requires Valid()
      reads this, headers, if headers == null then {} else {headers.slots}
    {
      Conn(buf, contents, HeaderList(), body, done, retries, phase)
    }

    constructor (env: Env)
      ensures Valid() && View() == START && this.env == env
      ensures headers != null && fresh(headers) && fresh(headers.slots)
    {
      this.env := env;
      buf, contents, body, done, retries, phase := "", None, 0, false, 0, Reading;
      headers := new Table();
    }

    /** `process_request_contents`: whether it succeeded.  A full table stops the
        process in `append_header`. */
    method ProcessContents() returns (ok: bool)
      requires Valid() && contents.Some? && phase == Reading && body == 0
      modifies this
      ensures Valid() && (headers != null ==> fresh(headers) && fresh(headers.slots))
      ensures buf == old(buf) && contents == old(contents) && done == old(done) && retries == old(retries)
      ensures ParseHead(contents.value).NoLine? ==> !ok && headers == null && body == 0 && phase == Reading
      ensures var head := ParseHead(contents.value);
              !head.NoLine? && |head.slots| >= MAX_HEADERS ==>
                ok && HeaderList() == Some(head.slots) && phase == Spinning && body == 0
      ensures var head := ParseHead(contents.value);
              !head.NoLine? && |head.slots| < MAX_HEADERS ==>
                && ok && HeaderList() == Some(head.slots + [Peer(env)]) && phase == Reading
                && body == (if head.Complete? then head.body else 0)
    {
      hide ParseHead;
      var table, offset := ParseHeaders(contents.value);
      headers, body := table, offset;
      if table == null { return false; }
      ghost var slots := table.List();
      var appended := table.Append("peer", Some(env.peer));
      if !appended {
        FullTable(contents.value);
        phase := Spinning;
      }
      return true;
    }

    /** `request_done` */
    method RequestDone()
      requires Valid() && contents.Some? && |contents.value| >= body
      modifies this`done
      ensures done == if body != 0 then
                |contents.value| - body >= InboundLength(env, contents.value, HeaderList())
              else old(done)
    {
      if body != 0 {
        var length := 0;
        if headers != null {
          var chunked := IsChunked(headers);
          if chunked {
            length := env.chunkedLength(contents.value);
          } else {
            var text := headers.Find("Content-Length");
            length := StrInt(text);
          }
        }
        done := |contents.value| - body >= length;
      }
    }

    /** `read_request` with `process_request`: one read event. */
    method ReadRequest(e: Event)
      requires Valid() && phase == Reading && !done
      requires body <= |buf|
      modifies this
      ensures Valid() && View() == Step(env, old(View()), e)
      ensures headers == old(headers) || (headers != null ==> fresh(headers) && fresh(headers.slots))
    {
      hide ParseHead, Chunked;
      buf := buf + e.bytes;
      contents := if e.Failure? then None else Some(buf);
      if e.Failure? {
        retries := retries + 1;
        if retries >= MAX_RETRIES { phase := Gone; }
        return;
      }
      if body == 0 {
        var ok := ProcessContents();
        if !ok {
          if retries >= MAX_RETRIES { phase := Gone; }
          return;
        }
        if phase == Spinning { return; }
        ParsedBody(buf);
      }
      RequestDone();
      retries := 0;
      if done {
        phase := Writing;
        if headers != null {
          var chunked := IsChunked(headers);
          if chunked { contents := Some(buf[..body] + env.dechunk(buf)); }
        }
        buf := "";
      }
    }
  }

  lemma FullTable(buf: string)
    ensures !ParseHead(buf).NoLine? && |ParseHead(buf).slots| >= MAX_HEADERS ==> !ParseHead(buf).Complete?
  {
    if ParseHead(buf).Complete? { CompleteShaped(buf); }
  }

  // ----- The reader with its log message ---------------------------------------------

  /** The step with the message of `process_request_contents`, which prints every
      parse before it is known that there is a table; `None` when that dereferences
      NULL. */
  ghost function LoggedStep(env: Env, c: Conn, e: Event): Option<Conn> {
    if c.phase == Reading && e.Data? && c.body == 0 && !Printable(ParseHead(c.buf + e.bytes)) then None
    else Some(Step(env, c, e))
  }

  ghost function LoggedRun(env: Env, events: seq<Event>): Option<Conn> {
    if events == [] then Some(START)
    else
      var c := LoggedRun(env, events[..|events| - 1]);
      if c.None? then None else LoggedStep(env, c.value, events[|events| - 1])
  }

  /** Whether event `k` has its parse printed. */
  ghost predicate Prints(env: Env, events: seq<Event>, k: nat)
    requires k < |events|
  {
    var c := Run(env, events[..k]);
    events[k].Data? && c.phase == Reading && c.body == 0
  }

  /** What has arrived with event `k` can be printed, if it is printed. */
  ghost predicate PrintsWell(env: Env, events: seq<Event>, k: nat)
    requires k < |events|
  {
    Prints(env, events, k) ==> Printable(ParseHead(Total(events[..k + 1])))
  }

  ghost predicate AllPrintable(env: Env, events: seq<Event>) {
    forall k: nat | k < |events| :: PrintsWell(env, events, k)
  }

  /** The log message does not change a run, or it ends it: it survives exactly if
      whatever has arrived at each read in front of a complete head can be printed. */
  lemma {:induction false} LoggedIff(env: Env, events: seq<Event>)
    ensures LoggedRun(env, events) == if AllPrintable(env, events) then Some(Run(env, events)) else None
  {
    hide Step, ParseHead, PrintsWell;
    if events == [] {
    } else {
      var n := |events| - 1;
      var before := events[..n];
      LoggedIff(env, before);
      PrintableMore(env, events);
      if Run(env, before).phase == Reading { RunWaits(env, before); }
      LoggedLast(env, events);
    }
  }

  lemma LoggedLast(env: Env, events: seq<Event>)
    requires events != []
    requires Run(env, events[..|events| - 1]).phase == Reading ==>
               Run(env, events[..|events| - 1]).buf == Total(events[..|events| - 1])
    ensures LoggedStep(env, Run(env, events[..|events| - 1]), events[|events| - 1])
         == if PrintsWell(env, events, |events| - 1) then Some(Run(env, events)) else None
  {
    hide Step, ParseHead, Printable;
    assert events[..|events| - 1 + 1] == events;
  }

  lemma PrintableMore(env: Env, events: seq<Event>)
    requires events != []
    ensures AllPrintable(env, events)
       <==> AllPrintable(env, events[..|events| - 1]) && PrintsWell(env, events, |events| - 1)
  {
    hide PrintsWell;
    var n := |events| - 1;
    forall k: nat | k < n ensures PrintsWell(env, events[..n], k) == PrintsWell(env, events, k) {
      SamePrints(env, events, n, k);
    }
  }

  lemma SamePrints(env: Env, events: seq<Event>, n: nat, k: nat)
    requires k < n <= |events|
    ensures PrintsWell(env, events[..n], k) == PrintsWell(env, events, k)
  {
    hide Run, Total, ParseHead, Printable;
    assert events[..n][..k] == events[..k] && events[..n][..k + 1] == events[..k + 1];
  }

  /** Event `k` is a failed read, or all reads so far end behind the first line and
      where a cut of the header lines is safe. */
  ghost predicate CutsWell(line: string, hs: seq<Slot>, events: seq<Event>, k: nat)
    requires k < |events|
  {
    events[k].Data? ==>
      var n := |Total(events[..k + 1])|;
      |line| + 2 <= n && SafeCut(hs, n - |line| - 2, true)
  }

  ghost predicate AllCutWell(line: string, hs: seq<Slot>, events: seq<Event>) {
    forall k: nat | k < |events| :: CutsWell(line, hs, events, k)
  }

  /** Any part of the stream of a clean head with any body behind it, in any pieces
      and with fewer than 20 failed reads: the reader with its log message does what
      the reader without it does if no read ends in front of the first header's colon
      or inside of a later key, and faults otherwise. */
  lemma LoggedStream(env: Env, events: seq<Event>, line: string, hs: seq<Slot>, body: string)
    requires OneLine(line)
    requires 1 <= |hs| < MAX_HEADERS && forall h <- hs :: Clean(h)
    requires Failures(events) < MAX_RETRIES && Total(events) <= line + CRLF + HeadBytes(hs) + body
    ensures LoggedRun(env, events) == if AllCutWell(line, hs, events) then Some(Run(env, events)) else None
  {
    hide PrintsWell, CutsWell, Run, Total, HeadBytes, Clean, LoggedRun;
    LoggedIff(env, events);
    forall k: nat | k < |events| ensures PrintsWell(env, events, k) == CutsWell(line, hs, events, k) {
      PrintsCut(env, events, line, hs, body, k);
    }
  }

  lemma PrintsCut(env: Env, events: seq<Event>, line: string, hs: seq<Slot>, body: string, k: nat)
    requires OneLine(line)
    requires 1 <= |hs| < MAX_HEADERS && forall h <- hs :: Clean(h)
    requires Failures(events) < MAX_RETRIES && Total(events) <= line + CRLF + HeadBytes(hs) + body
    requires k < |events|
    ensures PrintsWell(env, events, k) == CutsWell(line, hs, events, k)
  {
    hide *;
    if events[k].Data? {
      TotalPrefix(events, k + 1);
      PrefixTrans(Total(events[..k + 1]), Total(events), line + CRLF + HeadBytes(hs) + body);
      CutAnywhere(line, hs, body, Total(events[..k + 1]));
      if |Total(events[..k + 1])| < |line + CRLF + HeadBytes(hs)| {
        PrintsEarly(env, events, line, hs, body, k);
      }
    } else {
      PrintsNothing(env, events, k);
    }
    PrintsSame(env, events, line, hs, k);
  }

  lemma PrintsSame(env: Env, events: seq<Event>, line: string, hs: seq<Slot>, k: nat)
    requires k < |events| && (!events[k].Data? ==> !Prints(env, events, k))
    requires events[k].Data? ==>
      && (Prints(env, events, k) || Printable(ParseHead(Total(events[..k + 1]))))
      && (Printable(ParseHead(Total(events[..k + 1]))) <==>
            var n := |Total(events[..k + 1])|; |line| + 2 <= n && SafeCut(hs, n - |line| - 2, true))
    ensures PrintsWell(env, events, k) == CutsWell(line, hs, events, k)
  {
    hide Run, Total, ParseHead, Printable, SafeCut, Prints;
  }

  lemma PrefixTrans(a: string, b: string, c: string)
    requires a <= b <= c
    ensures a <= c
  {
  }

  lemma PrintsNothing(env: Env, events: seq<Event>, k: nat)
    requires k < |events| && events[k].Failure?
    ensures !Prints(env, events, k)
  {
    hide Run;
  }

  lemma PrintsEarly(env: Env, events: seq<Event>, line: string, hs: seq<Slot>, body: string, k: nat)
    requires OneLine(line)
    requires 1 <= |hs| < MAX_HEADERS && forall h <- hs :: Clean(h)
    requires Failures(events) < MAX_RETRIES && Total(events) <= line + CRLF + HeadBytes(hs) + body
    requires k < |events| && events[k].Data? && |Total(events[..k + 1])| < |line + CRLF + HeadBytes(hs)|
    ensures Prints(env, events, k)
  {
    hide Run, Total, Clean, HeadBytes;
    TotalPrefix(events, k + 1);
    OneEventMore(events, k);
    ShortPrefix(Total(events[..k]), events[k].bytes, Total(events), line + CRLF + HeadBytes(hs), body);
    Unfinished(env, events[..k], line, hs);
  }

  lemma ShortPrefix(a: string, b: string, all: string, head: string, body: string)
    requires a + b <= all <= head + body && |a + b| < |head|
    ensures a < head
  {
    assert (head + body)[..|head|] == head;
  }

  /** A cut of the head or of what is behind it. */
  lemma CutAnywhere(line: string, hs: seq<Slot>, body: string, p: string)
    requires OneLine(line)
    requires 1 <= |hs| < MAX_HEADERS && forall h <- hs :: Clean(h)
    requires p <= line + CRLF + HeadBytes(hs) + body
    ensures Printable(ParseHead(p)) <==> |line| + 2 <= |p| && SafeCut(hs, |p| - |line| - 2, true)
    ensures |line + CRLF + HeadBytes(hs)| <= |p| ==> Printable(ParseHead(p))
  {
    hide ParseHead, Printable, Clean, SafeCut, HeadBytes;
    var head := line + CRLF + HeadBytes(hs);
    if |head| <= |p| {
      assert p == head + p[|head|..];
      HeadArrived(line, hs, p[|head|..]);
    } else {
      assert p == head[..|p|];
      CutIff(line, hs, |p|);
    }
  }

  lemma OneEventMore(events: seq<Event>, k: nat)
    requires k < |events|
    ensures Total(events[..k + 1]) == Total(events[..k]) + events[k].bytes
    ensures Failures(events[..k]) <= Failures(events)
  {
    assert events[..k + 1][..k] == events[..k];
    FailuresFewer(events, k);
  }

  lemma {:induction false} FailuresFewer(events: seq<Event>, k: nat)
    requires k <= |events|
    ensures Failures(events[..k]) <= Failures(events)
  {
    if k == |events| {
      assert events[..k] == events;
    } else {
      assert events[..|events| - 1][..k] == events[..k];
      FailuresFewer(events[..|events| - 1], k);
    }
  }

  /** The head with anything behind it. */
  lemma HeadArrived(line: string, hs: seq<Slot>, x: string)
    requires OneLine(line)
    requires 1 <= |hs| < MAX_HEADERS && forall h <- hs :: Clean(h)
    ensures Printable(ParseHead(line + CRLF + HeadBytes(hs) + x))
    ensures SafeCut(hs, |line + CRLF + HeadBytes(hs) + x| - |line| - 2, true)
  {
    hide ParseHead, Clean, SafeCut, Lines;
    HeadRoundTrip(line, hs, x);
    FilledClean(hs);
    SafeBehind(hs, |line + CRLF + HeadBytes(hs) + x| - |line| - 2, true);
  }

  /** In front of the end of the head a reader waits, without a body offset. */
  lemma {:induction false} Unfinished(env: Env, events: seq<Event>, line: string, hs: seq<Slot>)
    requires OneLine(line)
    requires 1 <= |hs| < MAX_HEADERS && forall h <- hs :: Clean(h)
    requires Failures(events) < MAX_RETRIES
    requires Total(events) < line + CRLF + HeadBytes(hs)
    ensures Run(env, events).phase == Reading && Run(env, events).body == 0
  {
    hide ParseHead, Step, Clean, HeadBytes, Printable;
    if events == [] {
    } else {
      var n := |events| - 1;
      Unfinished(env, events[..n], line, hs);
      RunWaits(env, events[..n]);
      RetriesBounded(env, events[..n]);
      NotComplete(line, hs, Total(events));
      StepUnfinished(env, Run(env, events[..n]), events[n]);
    }
  }

  lemma StepUnfinished(env: Env, c: Conn, e: Event)
    requires c.phase == Reading && c.body == 0 && !c.done
    requires c.retries + (if e.Failure? then 1 else 0) < MAX_RETRIES
    requires var h := ParseHead(c.buf + e.bytes); !h.Complete? && (h.Partial? ==> |h.slots| < MAX_HEADERS)
    ensures Step(env, c, e).phase == Reading && Step(env, c, e).body == 0
  {
    hide ParseHead;
  }

  lemma NotComplete(line: string, hs: seq<Slot>, p: string)
    requires OneLine(line)
    requires 1 <= |hs| < MAX_HEADERS && forall h <- hs :: Clean(h)
    requires p < line + CRLF + HeadBytes(hs)
    ensures var h := ParseHead(p); !h.Complete? && (h.Partial? ==> |h.slots| < MAX_HEADERS)
  {
    hide ParseHead, Clean, Lines;
    var head := line + CRLF + HeadBytes(hs);
    assert head == p + head[|p|..] && head + "" == head;
    HeadRoundTrip(line, hs, "");
    PrefixStable(p, head[|p|..]);
  }

  /** Split independence fails with the log message: a first read that ends inside of
      a key of a clean head ends the run, whatever would follow. */
  lemma {:induction false} CutFaults(env: Env, line: string, hs: seq<Slot>, s: Slot, n: nat, more: seq<Event>)
    requires OneLine(line)
    requires (forall h <- hs :: Clean(h)) && Clean(s) && |hs| + 1 < MAX_HEADERS
    requires 1 <= n <= |s.key.value| && s.key.value[0] != ':' && n <= |Line(s)|
    ensures LoggedRun(env, [Data(line + CRLF + (Lines(hs) + Line(s)[..n]))] + more) == None
  {
    hide Lines, Line, ParseHead, Clean, Printable;
    var first := Data(line + CRLF + (Lines(hs) + Line(s)[..n]));
    CutPrintable(line, hs, s, n);
    assert "" + first.bytes == first.bytes;
    FirstFaults(env, first, more);
  }

  lemma {:induction false} FirstFaults(env: Env, first: Event, more: seq<Event>)
    requires first.Data? && !Printable(ParseHead("" + first.bytes))
    ensures LoggedRun(env, [first] + more) == None
  {
    hide ParseHead, Printable;
    var events := [first] + more;
    if more == [] {
      assert events == [first] && [first][..0] == [];
    } else {
      assert events[..|events| - 1] == [first] + more[..|more| - 1];
      FirstFaults(env, first, more[..|more| - 1]);
    }
  }

  /** 250 clean headers or more, behind any first line and in front of anything: the
      read never returns from adding `peer`. */
  lemma TooManySpin(env: Env, line: string, hs: seq<Slot>, rest: string)
    requires OneLine(line)
    requires (forall h <- hs :: Clean(h)) && MAX_HEADERS <= |hs|
    ensures OneRead(env, line + CRLF + (Lines(hs) + rest)).phase == Spinning
  {
    hide ParseHead, Lines, Clean;
    TooManyHeaders(line, hs, rest);
    var all := line + CRLF + (Lines(hs) + rest);
    assert "" + all == all;
  }

  lemma ParsedBody(buf: string)
    ensures ParseHead(buf).Complete? ==> 0 < ParseHead(buf).body <= |buf|
  {
    assert buf + "" == buf;
    PrefixStable(buf, "");
  }

  /** A whole run of read events over the object is a run of the step function. */
  method ReadAll(env: Env, events: seq<Event>) returns (c: Connection)
    ensures c.Valid() && c.View() == Run(env, events)
  {
    hide Step;
    c := new Connection(env);
    var i := 0;
    assert events[..0] == [];
    while i < |events|
      invariant 0 <= i <= |events| && c.Valid() && fresh(c) && c.env == env
      invariant c.View() == Run(env, events[..i])
    {
      assert events[..i + 1][..i] == events[..i];
      if c.phase == Reading {
        RunWaits(env, events[..i]);
        WaitsBody(env, c.View(), Total(events[..i]));
        c.ReadRequest(events[i]);
      } else {
        StepIdle(env, c.View(), events[i]);
      }
      i := i + 1;
    }
    assert events[..i] == events;
  }

  lemma WaitsBody(env: Env, c: Conn, all: string)
    requires Waits(env, c, all)
    ensures c.body <= |all|
  {
    if c.body != 0 {
      var p, x :| Known(env, c, p, x, all);
      ParsedBody(p);
    }
  }
}
