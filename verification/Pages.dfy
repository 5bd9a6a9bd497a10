/**
 Printed pages: texts and scripts in turn, and what parser and evaluation (files.c,
 lws.c) make of them.  Nothing here speaks of the parser's own tests.
 */
module Pages {
  import opened Wrappers
  import opened Str
  import opened Sockets
  import opened Files
  import opened Lws

  /** A page is a text, or a text with a script behind it and more of a page.  One
      white space character opens the script. */
  datatype Page = Tail(text: string) | Scripted(text: string, space: char, script: string, more: Page)

  function Print(pg: Page): string {
    match pg
    case Tail(text) => text
    case Scripted(text, space, script, more) => text + ("<?" + [space] + (script + ("?>" + Print(more))))
  }

  /** Texts have no NUL and open no script; scripts do not close themselves. */
  ghost predicate IsText(t: string) {
    '\0' !in t && forall i :: 0 <= i < |t| - 2 ==> !(t[i] == '<' && t[i + 1] == '?' && White(t[i + 2]))
  }

  ghost predicate IsScript(t: string) {
    forall i :: 0 <= i < |t| - 1 ==> !(t[i] == '?' && t[i + 1] == '>')
  }

  ghost predicate Valid(pg: Page) {
    match pg
    case Tail(text) => IsText(text)
    case Scripted(text, space, script, more) => IsText(text) && White(space) && IsScript(script) && Valid(more)
  }

  /** The ranges of texts and scripts in a page printed at `at`; empty texts in front
      of scripts have none. */
  function Ranges(pg: Page, at: nat): seq<Segment> {
    match pg
    case Tail(text) => [Segment(TEXT, at, |text|)]
    case Scripted(text, _, script, more) =>
      (if text == "" then [] else [Segment(TEXT, at, |text|)])
      + [Segment(SCRIPT, at + |text| + 3, |script|)]
      + Ranges(more, at + |text| + |script| + 5)
  }

  /** The texts with what the scripts print in between. */
  function Rendered(pg: Page, prints: Prints): string {
    match pg
    case Tail(text) => text
    case Scripted(text, _, _, more) => text + Concat(Now(prints)) + Rendered(more, Later(prints))
  }

  /** The text behind the last script. */
  function LastOf(pg: Page): string {
    match pg
    case Tail(text) => text
    case Scripted(_, _, _, more) => LastOf(more)
  }

  /** The parser's end of a page: a NUL or the last byte. */
  predicate EndsAt(page: string, p: nat) {
    p == |page| || (p < |page| && page[p] == '\0')
  }

  /** The text at `o` up to where an opener stands or the page ends. */
  lemma TextEnds(page: string, o: nat, text: string)
    requires Reads(page, o, text) && IsText(text)
    requires var p := o + |text|; EndsAt(page, p) || (p + 2 < |page| && page[p] == '<' && page[p + 1] == '?')
    ensures forall k :: o <= k < o + |text| ==> page[k] != '\0' && !IsOpener(page, k)
  {
    forall k | o <= k < o + |text| ensures page[k] != '\0' && !IsOpener(page, k) {
      ReadsAt(page, o, text, k - o);
      assert text[k - o] in text;
      if k + 1 < o + |text| { ReadsAt(page, o, text, k + 1 - o); }
      if k + 2 < o + |text| { ReadsAt(page, o, text, k + 2 - o); }
    }
  }

  lemma {:induction false} StopIs(page: string, o: nat, p: nat)
    requires o <= p <= |page| && (EndsAt(page, p) || IsOpener(page, p))
    requires forall k :: o <= k < p ==> page[k] != '\0' && !IsOpener(page, k)
    ensures NextStop(page, o) == p
    decreases p - o
  {
    hide IsOpener;
    if o == p {
    } else {
      StopIs(page, o + 1, p);
    }
  }

  lemma {:induction false} CloserIs(page: string, o: nat, c: nat)
    requires o <= c < |page| && IsCloser(page, c) && forall k :: o <= k < c ==> !IsCloser(page, k)
    ensures NextCloser(page, o) == c
    decreases c - o
  {
    hide IsCloser;
    if o == c {
    } else {
      CloserIs(page, o + 1, c);
    }
  }

  /** Where the parser finds the closer of a script. */
  lemma CloserFound(page: string, o: nat, script: string)
    requires Reads(page, o, script) && Reads(page, o + |script|, "?>") && IsScript(script)
    ensures NextCloser(page, o) == o + |script| < |page|
  {
    hide Reads, NextCloser;
    var c := o + |script|;
    ReadsAt(page, c, "?>", 0);
    ReadsAt(page, c, "?>", 1);
    forall k | o <= k < c ensures !IsCloser(page, k) {
      ReadsAt(page, o, script, k - o);
      if k + 1 < c { ReadsAt(page, o, script, k + 1 - o); }
    }
    CloserIs(page, o, c);
  }

  /** And its opener. */
  lemma OpenerFound(page: string, o: nat, text: string, space: char)
    requires Reads(page, o, text) && Reads(page, o + |text|, "<?" + [space]) && IsText(text) && White(space)
    ensures var p := o + |text|; p < |page| && NextStop(page, o) == p && IsOpener(page, p)
  {
    hide Reads, NextStop, IsText;
    var p := o + |text|;
    ReadsAt(page, p, "<?" + [space], 0);
    ReadsAt(page, p, "<?" + [space], 1);
    ReadsAt(page, p, "<?" + [space], 2);
    TextEnds(page, o, text);
    StopIs(page, o, p);
  }

  lemma ScriptFound(page: string, o: nat, text: string, space: char, script: string, rest: string)
    requires Reads(page, o, text + ("<?" + [space] + (script + ("?>" + rest))))
    requires IsText(text) && White(space) && IsScript(script)
    ensures var p, c := o + |text|, o + |text| + 3 + |script|;
            && p < c < |page| && page[o..p] == text && NextStop(page, o) == p && IsOpener(page, p)
            && NextCloser(page, p + 3) == c && Reads(page, c + 2, rest)
  {
    hide Reads, NextStop, NextCloser, IsText, IsScript, IsOpener, White;
    var p, c := o + |text|, o + |text| + 3 + |script|;
    ReadsSplit(page, o, text, "<?" + [space] + (script + ("?>" + rest)));
    ReadsSplit(page, p, "<?" + [space], script + ("?>" + rest));
    ReadsSplit(page, p + 3, script, "?>" + rest);
    ReadsSplit(page, c, "?>", rest);
    OpenerFound(page, o, text, space);
    CloserFound(page, p + 3, script);
    ReadsText(page, o, text);
  }

  lemma ReadsText(page: string, o: nat, text: string)
    requires Reads(page, o, text)
    ensures o + |text| <= |page| && page[o..o + |text|] == text
  {
  }

  lemma RangesAt(pg: Page, o: nat)
    ensures pg.Tail? ==> Ranges(pg, o) == [Text(o, |pg.text|)]
    ensures pg.Scripted? ==>
      var p := o + |pg.text|;
      Ranges(pg, o) == Before(o, p) + [Script(p + 3, |pg.script|)] + Ranges(pg.more, p + 5 + |pg.script|)
  {
  }

  /** Parsing and meaning at a script that was found, and at the last text. */
  lemma ScriptedStep(page: string, o: nat, p: nat, c: nat, prints: Prints)
    requires o <= p && NextStop(page, o) == p && IsOpener(page, p) && NextCloser(page, p + 3) == c < |page|
    requires Parts(page, c + 2).Some?
    ensures Parts(page, o) == Some(Before(o, p) + [Script(p + 3, c - (p + 3))] + Parts(page, c + 2).value)
    ensures c + 2 <= |page|
    ensures Meaning(page, o, prints)
         == page[o..p] + Concat(Now(prints)) + Meaning(page, c + 2, Later(prints))
    ensures LastText(page, o) == LastText(page, c + 2) && PageEnd(page, o) == PageEnd(page, c + 2)
  {
    hide Parts, Meaning, NextStop, NextCloser, IsOpener, IsCloser, Concat, Before, LastText, PageEnd;
    PartsAt(page, o);
    MeaningAt(page, o, prints);
  }

  lemma TailStep(page: string, o: nat, text: string, prints: Prints)
    requires Reads(page, o, text) && EndsAt(page, o + |text|) && IsText(text)
    ensures o <= |page| && Parts(page, o) == Some([Text(o, |text|)]) && Meaning(page, o, prints) == text
    ensures LastText(page, o) == o && PageEnd(page, o) == o + |text|
  {
    hide LastText, PageEnd, Parts, Meaning, NextStop, NextCloser, IsOpener, IsText;
    TextEnds(page, o, text);
    EndIsNone(page, o + |text|);
    StopIs(page, o, o + |text|);
    PartsAt(page, o);
    MeaningAt(page, o, prints);
  }

  /** Parsing and meaning of a printed page, from any offset. */
  lemma {:induction false} PageParsed(page: string, o: nat, pg: Page, prints: Prints)
    requires Reads(page, o, Print(pg)) && EndsAt(page, o + |Print(pg)|) && Valid(pg)
    ensures o <= |page| && Parts(page, o) == Some(Ranges(pg, o))
    ensures Meaning(page, o, prints) == Rendered(pg, prints)
    ensures LastText(page, o) < PageEnd(page, o) <==> LastOf(pg) != ""
    decreases pg
  {
    hide LastText, PageEnd, Parts, Meaning, Reads, NextStop, NextCloser, IsOpener, IsCloser, IsText, IsScript, White,
      Ranges, Before, Concat, EndsAt;
    RangesAt(pg, o);
    ReadsText(page, o, Print(pg));
    match pg {
      case Tail(text) =>
        TailStep(page, o, text, prints);
      case Scripted(text, space, script, more) =>
        ScriptFound(page, o, text, space, script, Print(more));
        var p := o + |text|;
        PageParsed(page, p + |script| + 5, more, Later(prints));
        ScriptedStep(page, o, p, p + 3 + |script|, prints);
    }
  }

  lemma EndIsNone(page: string, p: nat)
    requires EndsAt(page, p)
    ensures !IsOpener(page, p)
  {
  }

  /** A printed page, with nothing or a NUL and anything behind it: the parser marks
      exactly its texts and scripts, and the page means its texts with the prints in
      between. */
  lemma PrintedPage(pg: Page, rest: string, prints: Prints)
    requires Valid(pg) && (rest == "" || rest[0] == '\0')
    ensures Marks(Print(pg) + rest, 0, 0) == Ranges(pg, 0)
    ensures Parts(Print(pg) + rest, 0) == Some(Ranges(pg, 0))
    ensures Meaning(Print(pg) + rest, 0, prints) == Rendered(pg, prints)
    ensures LastText(Print(pg) + rest, 0) < PageEnd(Print(pg) + rest, 0) <==> LastOf(pg) != ""
  {
    hide Parts, Meaning, Marks, Print, LastText, PageEnd;
    var page := Print(pg) + rest;
    assert page[0..0 + |Print(pg)|] == Print(pg);
    PageParsed(page, 0, pg, prints);
    MarksAreParts(page, 0, 0);
  }

  /** Serving a printed page: an open socket receives its texts with the prints in
      between; an empty last text leaves the final chunk over. */
  method ServePrinted(pg: Page, rest: string, capacity: nat, sc: Socket, prints: Prints)
    requires sc.Valid() && Valid(pg) && (rest == "" || rest[0] == '\0') && |Ranges(pg, 0)| < capacity
    modifies sc
    ensures sc.Valid()
    ensures !sc.closed ==>
      && |old(sc.wire)| <= |sc.wire|
      && Decode(sc.wire[|old(sc.wire)|..]) == Body(Rendered(pg, prints), if LastOf(pg) != "" then "" else Frame(""))
  {
    hide *;
    PrintedPage(pg, rest, prints);
    ServePage(Print(pg) + rest, capacity, sc, prints);
  }

  /** Every page without NUL whose openers are closed is a printed one. */
  lemma {:induction false} PageOf(page: string, from: nat) returns (pg: Page)
    requires from <= |page| && '\0' !in page && Parts(page, from).Some?
    ensures Valid(pg) && Print(pg) == page[from..]
    decreases |page| - from
  {
    hide Parts, NextStop, NextCloser, IsOpener, IsCloser, IsText, IsScript;
    PartsAt(page, from);
    var p := NextStop(page, from);
    StopFound(page, from);
    if !IsOpener(page, p) {
      assert page[from..p] == page[from..];
      pg := Tail(page[from..]);
    } else {
      var c := NextCloser(page, p + 3);
      ScriptOf(page, p, c);
      var more := PageOf(page, c + 2);
      pg := Scripted(page[from..p], page[p + 2], page[p + 3..c], more);
      Pieced(page, from, p, c);
    }
  }

  lemma StopFound(page: string, from: nat)
    requires from <= |page| && '\0' !in page
    ensures var p := NextStop(page, from);
            && from <= p <= |page| && IsText(page[from..p])
            && (IsOpener(page, p) ==>
                  p + 2 < |page| && page[p] == '<' && page[p + 1] == '?' && White(page[p + 2]))
            && (!IsOpener(page, p) ==> p == |page|)
  {
    var p := NextStop(page, from);
    if p < |page| { assert page[p] in page; }
    assert forall c <- page[from..p] :: c in page;
    var t := page[from..p];
    forall i | 0 <= i < |t| - 2 ensures !(t[i] == '<' && t[i + 1] == '?' && White(t[i + 2])) {
      assert !IsOpener(page, from + i);
    }
  }

  lemma ScriptOf(page: string, p: nat, c: nat)
    requires p + 3 <= c < |page| && c == NextCloser(page, p + 3)
    ensures IsScript(page[p + 3..c]) && c + 1 < |page| && page[c] == '?' && page[c + 1] == '>'
  {
    var t := page[p + 3..c];
    forall i | 0 <= i < |t| - 1 ensures !(t[i] == '?' && t[i + 1] == '>') {
      assert !IsCloser(page, p + 3 + i);
    }
  }

  lemma Pieced(page: string, from: nat, p: nat, c: nat)
    requires from <= p && p + 3 <= c && c + 1 < |page|
    requires page[p] == '<' && page[p + 1] == '?' && page[c] == '?' && page[c + 1] == '>'
    ensures page[from..p] + ("<?" + [page[p + 2]] + (page[p + 3..c] + ("?>" + page[c + 2..]))) == page[from..]
  {
    assert page[from..] == page[from..p] + page[p..];
    assert page[p..] == "<?" + [page[p + 2]] + page[p + 3..];
    assert page[p + 3..] == page[p + 3..c] + page[c..];
    assert page[c..] == "?>" + page[c + 2..];
  }

  /** The pages without an unclosed opener are the printed ones. */
  lemma ClosedIff(page: string)
    requires '\0' !in page
    ensures Unclosed(page, 0) >= |page| <==> exists pg :: Valid(pg) && Print(pg) == page
  {
    hide Parts, Unclosed, Marks, Meaning;
    UnclosedParts(page, 0);
    if Parts(page, 0).Some? {
      var pg := PageOf(page, 0);
      assert page[0..] == page;
    }
    if pg :| Valid(pg) && Print(pg) == page {
      assert page + "" == page;
      PrintedPage(pg, "", []);
    }
  }
}
