/**
 Writing to a socket (sockets.c), the end of a response (responses.c) and the
 file send loop (script.c), against a decoder of chunked bodies written from
 section 4.1 of RFC 7230.
 */
module Sockets {
  import opened Str

  const MAX_WRITE_SIZE := 1460

  // ----- The chunked coding of section 4.1 of RFC 7230 -----------------------

  /** A decoded body with the bytes that follow it, or no chunked body at all. */
  datatype Decoded = Malformed | Body(data: string, rest: string)

  predicate NotHex(c: char) {
    DigitVal(c) < 0
  }

  /** The decoder: chunks of a hexadecimal size, CRLF, that many bytes, CRLF; the
      chunk of size zero is the last one, and an empty trailer part follows it. */
  function Decode(s: string): (r: Decoded)
    decreases |s|
  {
    var k := Until(s, 0, NotHex);
    if k == 0 || !(CRLF <= s[k..]) then Malformed
    else
      var n, t := Value(s[..k], 16), s[k + 2..];
      if n == 0 then
        if CRLF <= t then Body("", t[2..]) else Malformed
      else if |t| < n + 2 || t[n..n + 2] != CRLF then Malformed
      else
        match Decode(t[n + 2..])
        case Malformed => Malformed
        case Body(data, rest) => Body(t[..n] + data, rest)
  }

  /** The bytes of one chunk. */
  function Frame(data: string): string {
    Digits(|data|, 16) + CRLF + data + CRLF
  }

  function Frames(parts: seq<string>): string {
    if parts == [] then "" else Frame(parts[0]) + Frames(parts[1..])
  }

  function Concat(parts: seq<string>): string {
    if parts == [] then "" else parts[0] + Concat(parts[1..])
  }

  /** `min(MAX_WRITE_SIZE, ...)`: how much of a buffer the next write takes. */
  function PieceLen(buf: string): nat {
    if |buf| < MAX_WRITE_SIZE then |buf| else MAX_WRITE_SIZE
  }

  /** The pieces `write_chunked_socket` and the file send loop cut a buffer into. */
  function Pieces(buf: string): (ps: seq<string>)
    ensures forall p <- ps :: 1 <= |p| <= MAX_WRITE_SIZE
    decreases |buf|
  {
    if buf == "" then [] else [buf[..PieceLen(buf)]] + Pieces(buf[PieceLen(buf)..])
  }

  lemma FramesEmpty()
    ensures Frames(Pieces("")) == ""
  {
  }

  lemma FramesStep(buf: string)
    requires buf != ""
    ensures Frames(Pieces(buf)) == Frame(buf[..PieceLen(buf)]) + Frames(Pieces(buf[PieceLen(buf)..]))
  {
    assert Pieces(buf)[1..] == Pieces(buf[PieceLen(buf)..]);
  }

  lemma {:induction false} PiecesConcat(buf: string)
    ensures Concat(Pieces(buf)) == buf
    decreases |buf|
  {
    if buf == "" {
    } else {
      var k := PieceLen(buf);
      PiecesConcat(buf[k..]);
      assert Pieces(buf)[1..] == Pieces(buf[k..]);
      assert buf == buf[..k] + buf[k..];
    }
  }

  lemma {:induction false} FramesAppend(a: seq<string>, b: seq<string>)
    ensures Frames(a + b) == Frames(a) + Frames(b)
  {
    if a == [] {
      assert a + b == b;
    } else {
      assert (a + b)[1..] == a[1..] + b;
      FramesAppend(a[1..], b);
    }
  }

  lemma {:induction false} ConcatAppend(a: seq<string>, b: seq<string>)
    ensures Concat(a + b) == Concat(a) + Concat(b)
  {
    if a == [] {
      assert a + b == b;
    } else {
      assert (a + b)[1..] == a[1..] + b;
      ConcatAppend(a[1..], b);
    }
  }

  /** The size line of a chunk ends where the numeral ends.  The base is a parameter,
      so that the verifier does not unroll the numeral for a literal 16. */
  lemma SizeLine(n: nat, base: nat, tail: string)
    requires base == 16
    ensures |Digits(n, base)| > 0
    ensures Until(Digits(n, base) + CRLF + tail, 0, NotHex) == |Digits(n, base)|
    ensures Value(Digits(n, base), base) == n
  {
    var d := Digits(n, base);
    DigitsShape(n, base);
    ValueDigits(n, base);
    var s := d + CRLF + tail;
    forall k | 0 <= k < |d| ensures !NotHex(s[k]) {
      assert s[k] == d[k];
    }
    UntilIs(s, 0, NotHex, |d|);
  }

  /** One step of the decoder, given where its size line ends. */
  lemma DecodeStep(s: string, k: nat, data: string, tail: string)
    requires 0 < k <= |s| && Until(s, 0, NotHex) == k
    requires s[k..] == CRLF + (data + CRLF + tail)
    requires Value(s[..k], 16) == |data|
    ensures data == "" ==> Decode(s) == Body("", tail)
    ensures data != "" && Decode(tail).Body? ==>
              Decode(s) == Body(data + Decode(tail).data, Decode(tail).rest)
  {
    var t := s[k + 2..];
    assert t == s[k..][2..];
    assert t == data + CRLF + tail;
    assert t[|data|..|data| + 2] == CRLF && t[..|data|] == data;
    assert t[|data| + 2..] == tail;
  }

  /** A frame in front of a chunked body prepends its data; the empty frame is
      the end of the body. */
  lemma {:induction false} DecodeFrame(data: string, tail: string)
    ensures data == "" ==> Decode(Frame(data) + tail) == Body("", tail)
    ensures data != "" && Decode(tail).Body? ==>
              Decode(Frame(data) + tail) == Body(data + Decode(tail).data, Decode(tail).rest)
  {
    DecodeFrameIn(data, tail, 16);
  }

  /** The same with the base of the size line as a parameter. */
  lemma {:induction false} DecodeFrameIn(data: string, tail: string, base: nat)
    requires base == 16
    ensures data == "" ==> Decode(Frame(data) + tail) == Body("", tail)
    ensures data != "" && Decode(tail).Body? ==>
              Decode(Frame(data) + tail) == Body(data + Decode(tail).data, Decode(tail).rest)
  {
    var d := Digits(|data|, base);
    var s := Frame(data) + tail;
    SizeLine(|data|, base, data + CRLF + tail);
    assert s == d + CRLF + (data + CRLF + tail);
    assert s[..|d|] == d;
    assert s[|d|..] == CRLF + (data + CRLF + tail);
    DecodeStep(s, |d|, data, tail);
  }

  /** Decoding undoes the framing of any list of non-empty parts, whatever
      follows the final empty chunk. */
  lemma {:induction false} DecodeFrames(parts: seq<string>, rest: string)
    requires forall p <- parts :: p != ""
    ensures Decode(Frames(parts) + Frame("") + rest) == Body(Concat(parts), rest)
  {
    hide Frame, Decode;
    if parts == [] {
      DecodeFrame("", rest);
      assert Frames(parts) + Frame("") + rest == Frame("") + rest;
    } else {
      assert parts[0] in parts && forall p <- parts[1..] :: p in parts;
      DecodeFrames(parts[1..], rest);
      DecodeFrame(parts[0], Frames(parts[1..]) + Frame("") + rest);
      assert Frames(parts) + Frame("") + rest
          == Frame(parts[0]) + (Frames(parts[1..]) + Frame("") + rest);
    }
  }

  /** Every buffer sent in chunks and ended with the last chunk decodes to
      itself. */
  lemma DecodeChunkedBuffer(buf: string, rest: string)
    ensures Decode(Frames(Pieces(buf)) + Frame("") + rest) == Body(buf, rest)
  {
    DecodeFrames(Pieces(buf), rest);
    PiecesConcat(buf);
  }

  /** Chunked coding costs at least five bytes, and at least ten for data. */
  lemma {:induction false} DecodeCost(s: string)
    requires Decode(s).Body?
    ensures |s| >= |Decode(s).data| + |Decode(s).rest| + if Decode(s).data == "" then 5 else 10
    decreases |s|
  {
    var k := Until(s, 0, NotHex);
    var n, t := Value(s[..k], 16), s[k + 2..];
    if n == 0 {
    } else {
      DecodeCost(t[n + 2..]);
    }
  }

  // ----- The socket -----------------------------------------------------------

  /** A socket whose writes deliver everything or fail.  `ideal` is the stream
      that would be on the wire had no write failed. */
  class Socket {
    var wire: string
    var closed: bool
    ghost var ideal: string

    ghost predicate Valid()
      reads this
    {
      wire <= ideal && (!closed ==> wire == ideal)
    }

    constructor ()
      ensures Valid() && !closed && ideal == ""
    {
      wire, closed, ideal := "", false, "";
    }

    /** `write_to_socket`: a failed write closes the socket for good. */
    method WriteToSocket(data: string) returns (n: nat)
      requires Valid()
      modifies this
      ensures Valid() && ideal == old(ideal) + data
      ensures old(closed) ==> closed
      ensures closed ==> wire == old(wire) && n == 0
      ensures !closed ==> wire == old(wire) + data && n == |data|
    {
      ideal := ideal + data;
      if closed { return 0; }
      var delivered := *;
      if !delivered {
        closed := true;
        return 0;
      }
      wire := wire + data;
      return |data|;
    }

    /** `write_chunk`; a NULL buffer is passed as the empty one. */
    method WriteChunk(data: string) returns (n: nat)
      requires Valid()
      modifies this
      ensures Valid() && ideal == old(ideal) + Frame(data)
      ensures old(closed) ==> closed && wire == old(wire) && n == 0
      ensures n == 0 || n == |data|
      ensures !closed ==> n == |data|
    {
      var size := DigitStr(|data|, 16);
      var _ := WriteToSocket(size + CRLF);
      n := WriteToSocket(data);
      var _ := WriteToSocket(CRLF);
    }

    /** `write_chunked_socket` */
    method WriteChunkedSocket(buf: string) returns (n: nat)
      requires Valid()
      modifies this
      ensures Valid() && ideal == old(ideal) + Frames(Pieces(buf))
      ensures old(closed) ==> closed && wire == old(wire)
      ensures !closed ==> n == |buf|
    {
      hide Frame, Frames, Pieces;
      FramesEmpty();
      var i: nat := 0;
      n := 0;
      ghost var left := buf;
      while i < |buf|
        invariant Valid()
        invariant i <= |buf| ==> left == buf[i..]
        invariant |buf| <= i ==> left == ""
        invariant old(ideal) + Frames(Pieces(buf)) == ideal + Frames(Pieces(left))
        invariant old(closed) ==> closed && wire == old(wire)
        invariant !closed ==> n + |left| == |buf|
      {
        var piece := if MAX_WRITE_SIZE < |buf| - i then buf[i..i + MAX_WRITE_SIZE] else buf[i..];
        FramesStep(left);
        assert piece == left[..PieceLen(left)];
        var w := WriteChunk(piece);
        n := n + w;
        i := i + MAX_WRITE_SIZE;
        left := left[PieceLen(left)..];
      }
    }

    /** `end_response` */
    method EndResponse()
      requires Valid()
      modifies this
      ensures Valid() && ideal == old(ideal) + Frame("")
      ensures old(closed) ==> closed && wire == old(wire)
    {
      var _ := WriteChunk("");
    }

    /** The send loop of `script_handler`, over `send_raw_contents`.  It ends for
        every file and every pattern of failures; an open socket has received
        the whole file, a closed one a prefix of what an open one receives. */
    method SendFile(file: string) returns (total: nat)
      requires Valid()
      modifies this
      ensures Valid()
      ensures !closed ==> total == |file| && wire == old(wire) + Frames(Pieces(file))
      ensures ideal <= old(ideal) + Frames(Pieces(file))
      ensures old(closed) ==> closed && wire == old(wire)
    {
      hide Frame, Frames, Pieces;
      FramesEmpty();
      total := 0;
      while !closed && total < |file|
        invariant Valid() && total <= |file|
        invariant old(closed) ==> closed && ideal == old(ideal) && wire == old(wire)
        invariant !closed ==> old(ideal) + Frames(Pieces(file)) == ideal + Frames(Pieces(file[total..]))
        invariant ideal <= old(ideal) + Frames(Pieces(file))
        decreases !closed, |file| - total
      {
        var left := file[total..];
        FramesStep(left);
        var piece := left[..PieceLen(left)];
        assert left[|piece|..] == file[total + |piece|..];
        var n := WriteChunk(piece);
        total := total + n;
      }
      if !closed {
        assert file[total..] == "";
      }
    }
  }

  /** A file sent over an open socket and ended decodes to the file. */
  method SendFileResponse(sc: Socket, file: string)
    requires sc.Valid()
    modifies sc
    ensures sc.Valid()
    ensures sc.wire <= old(sc.ideal) + Frames(Pieces(file)) + Frame("")
    ensures !sc.closed ==> |old(sc.wire)| <= |sc.wire| && Decode(sc.wire[|old(sc.wire)|..]) == Body(file, "")
  {
    hide Frame, Frames, Decode, Pieces;
    var _ := sc.SendFile(file);
    sc.EndResponse();
    if !sc.closed {
      DecodeChunkedBuffer(file, "");
      assert sc.wire == old(sc.wire) + (Frames(Pieces(file)) + Frame("") + "");
    }
  }
}
