/**
 Evaluating a parsed page (`EvalLuaFile`, `PrintLua` of lws.c).  The Lua interpreter
 is a list: the strings that each script of the page prints, in order.
 */
module Lws {
  import opened Wrappers
  import opened Str
  import opened Sockets
  import opened Files

  type Prints = seq<seq<string>>

  /** What the next script prints, and what the later ones print. */
  function Now(prints: Prints): seq<string> {
    if prints == [] then [] else prints[0]
  }

  function Later(prints: Prints): Prints {
    if prints == [] then [] else prints[1..]
  }

  // ----- The meaning of a page ----------------------------------------------------

  /** What a page stands for: its bytes with each script replaced by what it
      prints. */
  function Meaning(page: string, from: nat, prints: Prints): string
    requires from <= |page|
    decreases |page| - from
  {
    var p := NextStop(page, from);
    if !IsOpener(page, p) then page[from..p]
    else
      var c := NextCloser(page, p + 3);
      if |page| <= c then page[from..]
      else page[from..p] + Concat(Now(prints)) + Meaning(page, c + 2, Later(prints))
  }

  // ----- What is emitted -------------------------------------------------------------

  predicate InPage(page: string, s: Segment) {
    s.kind == TEXT ==> 0 <= s.offset && 0 <= s.length && s.offset + s.length <= |page|
  }

  function Slice(page: string, s: Segment): string
    requires s.kind == TEXT && InPage(page, s)
  {
    page[s.offset..s.offset + s.length]
  }

  /** The chunks in which a list of printed strings goes out. */
  function Printed(outs: seq<string>): (r: seq<string>)
    ensures forall p <- r :: p != ""
  {
    if outs == [] then [] else Pieces(outs[0]) + Printed(outs[1..])
  }

  /** The chunks of a list of segments. */
  function Emitted(page: string, parts: seq<Segment>, prints: Prints): seq<string>
    requires forall s <- parts :: InPage(page, s)
  {
    if parts == [] then []
    else
      assert parts[0] in parts && forall s <- parts[1..] :: s in parts;
      if parts[0].kind == TEXT then [Slice(page, parts[0])] + Emitted(page, parts[1..], prints)
      else Printed(Now(prints)) + Emitted(page, parts[1..], Later(prints))
  }

  lemma {:induction false} PrintedConcat(outs: seq<string>)
    ensures Concat(Printed(outs)) == Concat(outs)
  {
    hide Pieces;
    if outs == [] {
    } else {
      PrintedConcat(outs[1..]);
      PiecesConcat(outs[0]);
      ConcatAppend(Pieces(outs[0]), Printed(outs[1..]));
    }
  }

  lemma TilesInPage(page: string, parts: seq<Segment>, from: int, to: int)
    requires 0 <= from && to <= |page| && Tiles(parts, from, to)
    ensures from <= to && forall s <- parts :: InPage(page, s)
  {
    if parts != [] {
      var s := parts[0];
      TilesInPage(page, parts[1..], if s.kind == TEXT then from + s.length else s.offset + s.length + 2, to);
    }
  }

  lemma PartsInPage(page: string, from: nat)
    requires from <= |page| && Parts(page, from).Some?
    ensures forall s <- Parts(page, from).value :: InPage(page, s)
  {
    hide Parts, Tiles, PageEnd;
    PartsTile(page, from);
    TilesInPage(page, Parts(page, from).value, from, PageEnd(page, from));
  }

  /** The emitted chunks are non-empty but perhaps for the last one, and together
      they are the meaning of the page. */
  lemma {:induction false} EmittedMeaning(page: string, from: nat, prints: Prints)
    returns (init: seq<string>, last: string)
    requires from <= |page| && Parts(page, from).Some?
    ensures forall s <- Parts(page, from).value :: InPage(page, s)
    ensures Emitted(page, Parts(page, from).value, prints) == init + [last]
    ensures Concat(init) + last == Meaning(page, from, prints)
    ensures forall p <- init :: p != ""
    ensures last == page[LastText(page, from)..PageEnd(page, from)]
    decreases |page| - from
  {
    hide IsOpener, IsCloser, NextStop, NextCloser, Parts, Emitted, Printed,
      Before, InPage, Concat, Meaning, LastText, PageEnd, TextPieces;
    PartsInPage(page, from);
    PartsAt(page, from);
    MeaningAt(page, from, prints);
    var p := NextStop(page, from);
    if !IsOpener(page, p) {
      init, last := [], page[from..p];
      TextInPage(page, from, p);
      EmittedText(page, Text(from, p - from), [], prints);
      EmittedNone(page, prints);
      assert [Text(from, p - from)] + [] == Parts(page, from).value;
      assert [last] + [] == [] + [last];
    } else {
      var c := NextCloser(page, p + 3);
      var rest := Parts(page, c + 2).value;
      init, last := EmittedMeaning(page, c + 2, Later(prints));
      EmittedBefore(page, from, p, Script(p + 3, c - (p + 3)), rest, prints);
      var front := TextPieces(page, from, p) + Printed(Now(prints));
      assert front + (init + [last]) == front + init + [last];
      FrontConcat(page, from, p, prints);
      ConcatAppend(front, init);
      assert Concat(front) + (Concat(init) + last) == Concat(front) + Concat(init) + last;
      init := front + init;
    }
  }

  /** One unfolding of the meaning and of the ends of the last text. */
  lemma MeaningAt(page: string, from: nat, prints: Prints)
    requires from <= |page|
    ensures var p := NextStop(page, from);
            var c := NextCloser(page, p + 3);
            && (!IsOpener(page, p) ==>
                  && Meaning(page, from, prints) == page[from..p]
                  && LastText(page, from) == from && PageEnd(page, from) == p)
            && (IsOpener(page, p) && c < |page| ==>
                  && Meaning(page, from, prints)
                     == page[from..p] + Concat(Now(prints)) + Meaning(page, c + 2, Later(prints))
                  && LastText(page, from) == LastText(page, c + 2) && PageEnd(page, from) == PageEnd(page, c + 2))
    ensures Concat([]) == ""
  {
    hide IsOpener, IsCloser, NextStop, NextCloser;
  }

  function TextPieces(page: string, from: nat, p: nat): (r: seq<string>)
    requires from <= p <= |page|
    ensures forall q <- r :: q != ""
  {
    if from < p then [page[from..p]] else []
  }

  lemma FrontConcat(page: string, from: nat, p: nat, prints: Prints)
    requires from <= p <= |page|
    ensures Concat(TextPieces(page, from, p) + Printed(Now(prints))) == page[from..p] + Concat(Now(prints))
  {
    hide Printed;
    PrintedConcat(Now(prints));
    ConcatAppend(TextPieces(page, from, p), Printed(Now(prints)));
    if from < p {
      assert [page[from..p]][1..] == [];
    }
  }

  lemma EmittedBefore(page: string, from: nat, p: nat, script: Segment, rest: seq<Segment>, prints: Prints)
    requires from <= p <= |page| && script.kind == SCRIPT
    requires forall s <- Before(from, p) + [script] + rest :: InPage(page, s)
    ensures forall s <- rest :: InPage(page, s)
    ensures Emitted(page, Before(from, p) + [script] + rest, prints)
         == TextPieces(page, from, p) + Printed(Now(prints)) + Emitted(page, rest, Later(prints))
  {
    hide Emitted, Printed;
    assert forall s <- rest :: s in Before(from, p) + [script] + rest;
    EmittedScript(page, script, rest, prints);
    if from < p {
      assert Before(from, p) + [script] + rest == [Text(from, p - from)] + ([script] + rest);
      EmittedText(page, Text(from, p - from), [script] + rest, prints);
    } else {
      assert Before(from, p) + [script] + rest == [script] + rest;
    }
  }

  /** Where the last text of a page begins. */
  function LastText(page: string, from: nat): (l: nat)
    requires from <= |page|
    ensures l <= PageEnd(page, from)
    decreases |page| - from
  {
    var p := NextStop(page, from);
    if !IsOpener(page, p) then from
    else
      var c := NextCloser(page, p + 3);
      if |page| <= c then from else LastText(page, c + 2)
  }

  lemma TextInPage(page: string, from: nat, p: nat)
    requires from <= p <= |page|
    ensures InPage(page, Text(from, p - from))
  {
  }

  lemma EmittedNone(page: string, prints: Prints)
    ensures Emitted(page, [], prints) == []
  {
  }

  lemma EmittedText(page: string, s: Segment, rest: seq<Segment>, prints: Prints)
    requires s.kind == TEXT && forall t <- [s] + rest :: InPage(page, t)
    ensures s in [s] + rest && forall t <- rest :: InPage(page, t)
    ensures Emitted(page, [s] + rest, prints) == [Slice(page, s)] + Emitted(page, rest, prints)
  {
    assert ([s] + rest)[1..] == rest;
    assert forall t <- rest :: t in [s] + rest;
  }

  lemma EmittedScript(page: string, s: Segment, rest: seq<Segment>, prints: Prints)
    requires s.kind == SCRIPT && forall t <- rest :: InPage(page, t)
    ensures forall t <- [s] + rest :: InPage(page, t)
    ensures Emitted(page, [s] + rest, prints) == Printed(Now(prints)) + Emitted(page, rest, Later(prints))
  {
    assert ([s] + rest)[1..] == rest;
  }

  /** Framed and ended, the chunks of a page decode to its meaning.  Behind an empty
      last text, which already ends the body, the final chunk is left over. */
  lemma PageDecodes(page: string, prints: Prints)
    requires Parts(page, 0).Some?
    ensures forall s <- Parts(page, 0).value :: InPage(page, s)
    ensures Decode(Frames(Emitted(page, Parts(page, 0).value, prints)) + Frame(""))
         == Body(Meaning(page, 0, prints),
                 if LastText(page, 0) < PageEnd(page, 0) then "" else Frame(""))
  {
    hide Decode, Frame, Frames, Emitted, Meaning, Parts, LastText, PageEnd;
    var init, last := EmittedMeaning(page, 0, prints);
    var parts := init + [last];
    FramesAppend(init, [last]);
    FramesOne(last);
    if last == "" {
      DecodeFrames(init, Frame(""));
      assert Frames(parts) + Frame("") == Frames(init) + Frame("") + Frame("");
      assert Concat(init) + last == Concat(init);
    } else {
      DecodeFrames(parts, "");
      ConcatAppend(init, [last]);
      assert Concat([last]) == last + Concat([last][1..]) == last;
      assert Frames(parts) + Frame("") + "" == Frames(parts) + Frame("");
    }
  }

  lemma FramesOne(part: string)
    ensures Frames([part]) == Frame(part)
  {
    hide Frame;
    assert [part][1..] == [];
  }

  // ----- The loops ---------------------------------------------------------------------

  /** `PrintLua` over everything one script prints. */
  method PrintAll(sc: Socket, outs: seq<string>)
    requires sc.Valid()
    modifies sc
    ensures sc.Valid() && sc.ideal == old(sc.ideal) + Frames(Printed(outs))
    ensures old(sc.closed) ==> sc.closed && sc.wire == old(sc.wire)
  {
    hide Frames, Pieces, Printed;
    PrintedNone();
    assert outs[0..] == outs;
    var i := 0;
    while i < |outs|
      invariant 0 <= i <= |outs| && sc.Valid()
      invariant sc.ideal + Frames(Printed(outs[i..])) == old(sc.ideal) + Frames(Printed(outs))
      invariant old(sc.closed) ==> sc.closed && sc.wire == old(sc.wire)
    {
      PrintedStep(outs[i..]);
      assert outs[i..][1..] == outs[i + 1..];
      var _ := sc.WriteChunkedSocket(outs[i]);
      i := i + 1;
    }
    assert outs[i..] == [];
  }

  lemma PrintedNone()
    ensures Frames(Printed([])) == ""
  {
  }

  lemma PrintedStep(outs: seq<string>)
    requires outs != []
    ensures Frames(Printed(outs)) == Frames(Pieces(outs[0])) + Frames(Printed(outs[1..]))
  {
    hide Frames, Pieces;
    FramesAppend(Pieces(outs[0]), Printed(outs[1..]));
  }

  /** `EvalLuaFile`: the table ends at the first entry without a kind. */
  method EvalLuaFile(page: string, parsed: array<Segment>, ghost n: nat, sc: Socket, prints: Prints)
    requires sc.Valid() && n < parsed.Length && parsed[n].kind == NONE
    requires forall k :: 0 <= k < n ==> parsed[k].kind != NONE
    requires forall s <- parsed[..n] :: InPage(page, s)
    modifies sc
    ensures sc.Valid() && sc.ideal == old(sc.ideal) + Frames(Emitted(page, parsed[..n], prints))
    ensures old(sc.closed) ==> sc.closed && sc.wire == old(sc.wire)
  {
    hide Frames, Emitted, Printed, InPage, Frame;
    var i, left := 0, prints;
    ghost var all := parsed[..n];
    assert all[0..] == all;
    while parsed[i].kind != NONE
      invariant 0 <= i <= n && sc.Valid()
      invariant forall s <- all[i..] :: InPage(page, s)
      invariant sc.ideal + Frames(Emitted(page, all[i..], left))
             == old(sc.ideal) + Frames(Emitted(page, all, prints))
      invariant old(sc.closed) ==> sc.closed && sc.wire == old(sc.wire)
      decreases n - i
    {
      assert i < n && all[i..] == [all[i]] + all[i + 1..] && all[i] == parsed[i];
      left := EvalSegment(page, parsed[i], sc, left, all[i + 1..]);
      i := i + 1;
    }
    assert all[i..] == [];
    EmittedNone(page, left);
    FramesNone();
  }

  lemma FramesNone()
    ensures Frames([]) == ""
  {
  }

  /** One turn of the loop. */
  method EvalSegment(page: string, s: Segment, sc: Socket, prints: Prints, ghost rest: seq<Segment>)
    returns (left: Prints)
    requires sc.Valid() && s.kind != NONE && forall t <- [s] + rest :: InPage(page, t)
    modifies sc
    ensures forall t <- rest :: InPage(page, t)
    ensures sc.Valid()
    ensures sc.ideal + Frames(Emitted(page, rest, left)) == old(sc.ideal) + Frames(Emitted(page, [s] + rest, prints))
    ensures old(sc.closed) ==> sc.closed && sc.wire == old(sc.wire)
  {
    hide Frames, Emitted, Printed, Frame;
    assert s in [s] + rest && forall t <- rest :: t in [s] + rest;
    if s.kind == TEXT {
      EmittedText(page, s, rest, prints);
      FramesAppend([Slice(page, s)], Emitted(page, rest, prints));
      FramesOne(Slice(page, s));
      var _ := sc.WriteChunk(page[s.offset..s.offset + s.length]);
      left := prints;
    } else {
      EmittedScript(page, s, rest, prints);
      FramesAppend(Printed(Now(prints)), Emitted(page, rest, Later(prints)));
      PrintAll(sc, Now(prints));
      left := Later(prints);
    }
  }

  /** The whole pipeline for a page whose openers are closed: on an open socket the
      bytes sent decode to the meaning of the page; a socket that fails on the way
      holds a prefix of them. */
  method ServePage(page: string, capacity: nat, sc: Socket, prints: Prints)
    requires sc.Valid() && Parts(page, 0).Some? && |Parts(page, 0).value| < capacity
    modifies sc
    ensures sc.Valid() && forall s <- Parts(page, 0).value :: InPage(page, s)
    ensures sc.wire <= old(sc.ideal) + Frames(Emitted(page, Parts(page, 0).value, prints)) + Frame("")
    ensures !sc.closed ==>
      && |old(sc.wire)| <= |sc.wire|
      && Decode(sc.wire[|old(sc.wire)|..])
         == Body(Meaning(page, 0, prints), if LastText(page, 0) < PageEnd(page, 0) then "" else Frame(""))
  {
    hide Decode, Frame, Frames, Emitted, Meaning, Parts, Marks, LastText, PageEnd;
    MarksAreParts(page, 0, 0);
    PartsInPage(page, 0);
    PageDecodes(page, prints);
    var parsed := ParseFile(page, capacity);
    var parts := Parts(page, 0).value;
    MarksKinds(page, 0, 0);
    assert parsed[..|parts|] == parts;
    forall k | 0 <= k < |parts| ensures parsed[k].kind != NONE {
      assert parsed[..|parts|][k] == parts[k];
    }
    EvalLuaFile(page, parsed, |parts|, sc, prints);
    sc.EndResponse();
    assert sc.ideal == old(sc.ideal) + (Frames(Emitted(page, parts, prints)) + Frame(""));
  }

  lemma {:induction false} MarksKinds(page: string, o: nat, l: nat)
    ensures forall k :: 0 <= k < |Marks(page, o, l)| ==> Marks(page, o, l)[k].kind != NONE
    decreases |page| - o
  {
    hide IsCloser, NextStop, NextCloser, Marks;
    MarksAt(page, o, l);
    var p := NextStop(page, o);
    var c := NextCloser(page, p + 3);
    if IsOpener(page, p) {
      if c < |page| { MarksKinds(page, c + 1, c + 2); } else { MarksKinds(page, p + 1, Leftover(page, p)); }
    }
  }
}
