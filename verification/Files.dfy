/**
 Page templates: `parse_file` (files.c) marks the texts and the scripts of a page.
 */
module Files {
  import opened Str
  import opened Sockets
  import opened Wrappers

  datatype Kind = NONE | TEXT | SCRIPT
  datatype Segment = Segment(kind: Kind, offset: int, length: int)

  function Text(offset: int, length: int): Segment {
    Segment(TEXT, offset, length)
  }

  function Script(offset: int, length: int): Segment {
    Segment(SCRIPT, offset, length)
  }

  // ----- Openers and closers ------------------------------------------------------

  predicate IsOpener(page: string, p: nat) {
    At(page, p) == '<' && At(page, p + 1) == '?' && IsSpace(At(page, p + 2))
  }

  predicate IsCloser(page: string, p: nat) {
    At(page, p) == '?' && At(page, p + 1) == '>'
  }

  /** The next opener or NUL at or after `o`, or the end of the page. */
  function NextStop(page: string, o: nat): (p: nat)
    ensures o <= p && (o <= |page| ==> p <= |page|)
    ensures p < |page| ==> page[p] == '\0' || IsOpener(page, p)
    ensures forall k :: o <= k < p && k < |page| ==> page[k] != '\0' && !IsOpener(page, k)
    decreases |page| - o
  {
    if |page| <= o || page[o] == '\0' || IsOpener(page, o) then o else NextStop(page, o + 1)
  }

  /** The next closer at or after `p`, or a position beyond the end. */
  function NextCloser(page: string, p: nat): (c: nat)
    ensures p <= c
    ensures c < |page| ==> c + 1 < |page| && IsCloser(page, c)
    ensures forall k :: p <= k < c && k < |page| ==> !IsCloser(page, k)
    decreases |page| - p
  {
    if |page| <= p || IsCloser(page, p) then p else NextCloser(page, p + 1)
  }

  /** The specification: the parts of a page from offset `from` on, or `None` when
      some opener on the way is never closed. */
  function Parts(page: string, from: nat): Option<seq<Segment>>
    decreases |page| - from
  {
    var p := NextStop(page, from);
    if !IsOpener(page, p) then Some([Text(from, p - from)])
    else
      var c := NextCloser(page, p + 3);
      if |page| <= c then None
      else
        match Parts(page, c + 2)
        case None => None
        case Some(rest) => Some(Before(from, p) + [Script(p + 3, c - (p + 3))] + rest)
  }

  /** The text in front of an opener, unless there is none. */
  function Before(from: int, p: int): seq<Segment> {
    if from < p then [Text(from, p - from)] else []
  }

  /** What remains in `l` after an opener without a closer: a count, not an
      offset. */
  function Leftover(page: string, p: nat): nat {
    if |page| < p + 3 then 0 else |page| - p - 3
  }

  /** What the loop of `parse_file` marks from position `o` on, for every page. */
  function Marks(page: string, o: nat, l: nat): (r: seq<Segment>)
    ensures r != []
    decreases |page| - o
  {
    var p := NextStop(page, o);
    if !IsOpener(page, p) then [Text(l, p - l)]
    else
      var c := NextCloser(page, p + 3);
      if c < |page| then Before(l, p) + [Script(p + 3, c - (p + 3))] + Marks(page, c + 1, c + 2)
      else Before(l, p) + Marks(page, p + 1, Leftover(page, p))
  }

  /** `parse_file` into a table that is long enough and zeroed. */
  method ParseFile(page: string, capacity: nat) returns (parsed: array<Segment>)
    requires |Marks(page, 0, 0)| < capacity
    ensures fresh(parsed) && parsed.Length == capacity
    ensures var n := |Marks(page, 0, 0)|;
            parsed[..n] == Marks(page, 0, 0) && forall k :: n <= k < capacity ==> parsed[k].kind == NONE
  {
    hide Marks, IsOpener;
    parsed := new Segment[capacity](_ => Segment(NONE, 0, 0));
    ghost var all := Marks(page, 0, 0);
    var o: nat, l: nat, i: nat := 0, 0, 0;
    while o < |page| && page[o] != '\0'
      invariant o <= |page| && i <= |all|
      invariant parsed[..i] + Marks(page, o, l) == all
      invariant forall k :: i <= k < capacity ==> parsed[k].kind == NONE
      decreases |page| - o
    {
      MarksStep(page, o, l);
      if IsOpener(page, o) {
        o, l, i := MarkOpener(page, parsed, o, l, i, all);
      }
      o := o + 1;
    }
    MarksEnd(page, o, l);
    var _ := MarkFile(parsed, i, Text(l, o - l), all, []);
    assert parsed[..i + 1] == all;
  }

  /** The loop body at an opener. */
  method MarkOpener(page: string, parsed: array<Segment>, o: nat, l: nat, i: nat, ghost all: seq<Segment>)
    returns (o': nat, l': nat, i': nat)
    requires o < |page| && page[o] != '\0' && IsOpener(page, o) && i <= |all| < parsed.Length
    requires parsed[..i] + Marks(page, o, l) == all
    modifies parsed
    ensures o <= o' < |page| && i' <= |all| && parsed[..i'] + Marks(page, o' + 1, l') == all
    ensures forall k :: i' <= k < parsed.Length && i <= k ==> parsed[k] == old(parsed[k])
    ensures i <= i'
  {
    hide Marks, IsOpener, NextCloser;
    MarksStep(page, o, l);
    l' := CloserDistance(page, o);
    o', i' := o, i;
    var closed := o + l' + 3 < |page|;
    ghost var script := [Script(o + 3, l')];
    ghost var rest := if closed then Marks(page, o + l' + 4, o + l' + 5) else Marks(page, o + 1, l');
    ghost var tail := if closed then script + rest else rest;
    assert parsed[..i] + (Before(l, o) + tail) == parsed[..i] + Before(l, o) + tail;
    if l < o {
      i' := MarkFile(parsed, i, Text(l, o - l), all, tail);
    } else {
      assert parsed[..i] + [] == parsed[..i];
    }
    assert parsed[..i'] + tail == all;
    if closed {
      assert parsed[..i'] + (script + rest) == parsed[..i'] + script + rest;
      i' := MarkFile(parsed, i', Script(o + 3, l'), all, rest);
      o' := o + l' + 3;
      l' := o' + 2;
    }
  }

  /** `mark_file` */
  method MarkFile(parsed: array<Segment>, i: nat, s: Segment, ghost all: seq<Segment>, ghost rest: seq<Segment>)
    returns (i': nat)
    requires i < |all| < parsed.Length && parsed[..i] + [s] + rest == all && s.kind != NONE
    modifies parsed
    ensures i' == i + 1 <= |all| && parsed[..i'] == old(parsed[..i]) + [s]
    ensures forall k :: i' <= k < parsed.Length ==> parsed[k] == old(parsed[k])
  {
    parsed[i] := s;
    return i + 1;
  }

  method CloserDistance(page: string, o: nat) returns (l: nat)
    requires o < |page|
    ensures o + 3 + l == NextCloser(page, o + 3) || (l == Leftover(page, o) && |page| <= NextCloser(page, o + 3))
    ensures o + 3 + l < |page| <==> NextCloser(page, o + 3) < |page|
    ensures |page| <= NextCloser(page, o + 3) ==> l == Leftover(page, o)
  {
    l := 0;
    while o + l + 3 < |page| && !IsCloser(page, o + l + 3)
      invariant o + l + 3 <= |page| || l == 0
      invariant NextCloser(page, o + 3) == NextCloser(page, o + 3 + l)
    {
      l := l + 1;
    }
  }

  /** One unfolding of `Marks`. */
  lemma MarksAt(page: string, o: nat, l: nat)
    ensures var p := NextStop(page, o);
            var c := NextCloser(page, p + 3);
            Marks(page, o, l) == if !IsOpener(page, p) then [Text(l, p - l)]
              else if c < |page| then Before(l, p) + [Script(p + 3, c - (p + 3))] + Marks(page, c + 1, c + 2)
              else Before(l, p) + Marks(page, p + 1, Leftover(page, p))
  {
  }

  lemma MarksStep(page: string, o: nat, l: nat)
    requires o < |page| && page[o] != '\0'
    ensures !IsOpener(page, o) ==> Marks(page, o, l) == Marks(page, o + 1, l)
    ensures IsOpener(page, o) ==>
              var c := NextCloser(page, o + 3);
              Marks(page, o, l) == Before(l, o)
                + if c < |page| then [Script(o + 3, c - (o + 3))] + Marks(page, c + 1, c + 2)
                  else Marks(page, o + 1, Leftover(page, o))
  {
    hide Marks, IsOpener, NextCloser;
    MarksAt(page, o, l);
    MarksAt(page, o + 1, l);
  }

  lemma MarksEnd(page: string, o: nat, l: nat)
    requires |page| <= o || page[o] == '\0'
    ensures Marks(page, o, l) == [Text(l, o - l)]
  {
  }

  // ----- Pages whose openers are closed ------------------------------------------------

  /** The loop position and text offset at the start of the page and behind a
      closer. */
  predicate Resumes(page: string, o: nat, l: nat)
    requires l <= |page|
  {
    o == l || (o + 1 == l && page[o] == '>')
  }

  /** The loop marks exactly the specified parts. */
  lemma {:induction false} MarksAreParts(page: string, o: nat, l: nat)
    requires l <= |page| && Resumes(page, o, l)
    requires Parts(page, l).Some?
    ensures Marks(page, o, l) == Parts(page, l).value
    decreases |page| - o
  {
    hide IsOpener, IsCloser, Resumes, NextStop, NextCloser, Marks, Parts, Before;
    SameStop(page, o, l);
    MarksAt(page, o, l);
    PartsAt(page, l);
    var p := NextStop(page, l);
    if IsOpener(page, p) {
      var c := NextCloser(page, p + 3);
      CloserResumes(page, c);
      MarksAreParts(page, c + 1, c + 2);
    }
  }

  /** One unfolding of `Parts`. */
  lemma PartsAt(page: string, from: nat)
    ensures var p := NextStop(page, from);
            var c := NextCloser(page, p + 3);
            && (!IsOpener(page, p) ==> Parts(page, from) == Some([Text(from, p - from)]))
            && (IsOpener(page, p) && |page| <= c ==> Parts(page, from).None?)
            && (IsOpener(page, p) && c < |page| ==>
                  && (Parts(page, from).Some? <==> Parts(page, c + 2).Some?)
                  && (Parts(page, from).Some? ==>
                        Parts(page, from).value
                        == Before(from, p) + [Script(p + 3, c - (p + 3))] + Parts(page, c + 2).value))
  {
    hide IsOpener, IsCloser, NextStop, NextCloser;
  }

  lemma SameStop(page: string, o: nat, l: nat)
    requires l <= |page| && Resumes(page, o, l)
    ensures NextStop(page, o) == NextStop(page, l)
  {
  }

  lemma CloserResumes(page: string, c: nat)
    requires c + 1 < |page| && IsCloser(page, c)
    ensures Resumes(page, c + 1, c + 2)
  {
  }

  /** Ranges that cover `from` to `to` in order: scripts count three characters in
      front of them and two behind. */
  ghost predicate Tiles(parts: seq<Segment>, from: int, to: int) {
    if parts == [] then from == to
    else
      var s := parts[0];
      && s.length >= 0
      && if s.kind == TEXT then s.offset == from && Tiles(parts[1..], from + s.length, to)
         else s.kind == SCRIPT && s.offset - 3 == from && Tiles(parts[1..], s.offset + s.length + 2, to)
  }

  lemma TilesBefore(from: int, p: int, rest: seq<Segment>, to: int)
    ensures from <= p ==> (Tiles(Before(from, p) + rest, from, to) <==> Tiles(rest, p, to))
  {
    if from < p {
      assert (Before(from, p) + rest)[1..] == rest;
    } else {
      assert Before(from, p) + rest == rest;
    }
  }

  lemma TilesScript(p: int, length: int, rest: seq<Segment>, to: int)
    requires length >= 0
    ensures Tiles([Script(p + 3, length)] + rest, p, to) <==> Tiles(rest, p + length + 5, to)
  {
    assert ([Script(p + 3, length)] + rest)[1..] == rest;
  }

  lemma TilesLast(l: int, p: int, from: int, to: int)
    ensures Tiles([Text(l, p - l)], from, to) <==> l <= p && l == from && p == to
  {
    assert [Text(l, p - l)][1..] == [];
  }

  function Scripts(parts: seq<Segment>): nat {
    if parts == [] then 0 else (if parts[0].kind == SCRIPT then 1 else 0) + Scripts(parts[1..])
  }

  /** Only the last text may be empty. */
  ghost predicate TextsFilled(parts: seq<Segment>) {
    forall k :: 0 <= k < |parts| - 1 ==> parts[k].kind == TEXT ==> parts[k].length > 0
  }

  /** Where the parts of a page end: at the first NUL outside of scripts. */
  function PageEnd(page: string, from: nat): (e: nat)
    ensures from <= |page| ==> from <= e <= |page|
    decreases |page| - from
  {
    var p := NextStop(page, from);
    if !IsOpener(page, p) then p
    else
      var c := NextCloser(page, p + 3);
      if |page| <= c then |page| else PageEnd(page, c + 2)
  }

  /** Tiling: the parts of a page are in order, disjoint and cover it up to the
      first NUL outside of scripts; only the last text may be empty, and it is a
      text; there are at most two parts per script and one more. */
  lemma {:induction false} PartsTile(page: string, from: nat)
    requires from <= |page| && Parts(page, from).Some?
    ensures var parts := Parts(page, from).value;
            && parts != [] && parts[|parts| - 1].kind == TEXT
            && Tiles(parts, from, PageEnd(page, from)) && TextsFilled(parts)
            && |parts| <= 2 * Scripts(parts) + 1
    decreases |page| - from
  {
    hide IsOpener, IsCloser, NextStop, NextCloser, Tiles, Scripts;
    var p := NextStop(page, from);
    if IsOpener(page, p) {
      var c := NextCloser(page, p + 3);
      PartsTile(page, c + 2);
      var rest := Parts(page, c + 2).value;
      var script := Script(p + 3, c - (p + 3));
      assert Before(from, p) + [script] + rest == Before(from, p) + ([script] + rest);
      TilesBefore(from, p, [script] + rest, PageEnd(page, from));
      TilesScript(p, c - (p + 3), rest, PageEnd(page, from));
      ScriptsCons(from, p, script, rest);
    } else {
      TilesLast(from, p, from, p);
      ScriptsText(Text(from, p - from));
    }
  }

  lemma ScriptsText(s: Segment)
    requires s.kind == TEXT
    ensures Scripts([s]) == 0
  {
  }

  lemma ScriptsCons(from: int, p: int, script: Segment, rest: seq<Segment>)
    requires script.kind == SCRIPT
    ensures Scripts(Before(from, p) + [script] + rest) == 1 + Scripts(rest)
  {
    var all := Before(from, p) + [script] + rest;
    if from < p {
      assert all[1..] == [script] + rest && all[1..][1..] == rest;
    } else {
      assert all[1..] == rest;
    }
  }

  lemma {:induction false} NoNulEnd(page: string, from: nat)
    requires from <= |page| && '\0' !in page
    ensures PageEnd(page, from) == |page|
    decreases |page| - from
  {
    var p := NextStop(page, from);
    if p < |page| { assert page[p] in page; }
    if IsOpener(page, p) && NextCloser(page, p + 3) < |page| {
      NoNulEnd(page, NextCloser(page, p + 3) + 2);
    }
  }

  // ----- Exactly which pages are tiled -----------------------------------------------------

  /** The first opener reached that is never closed; the end when all are. */
  function Unclosed(page: string, from: nat): (a: nat)
    ensures a < |page| ==> from <= a && IsOpener(page, a) && |page| <= NextCloser(page, a + 3)
    decreases |page| - from
  {
    var p := NextStop(page, from);
    if !IsOpener(page, p) then |page|
    else
      var c := NextCloser(page, p + 3);
      if |page| <= c then p else Unclosed(page, c + 2)
  }

  /** The one coincidence by which an unclosed opener does no harm: the count left
      in `l` is the position of the first unclosed opener, and at most one more
      opener follows it, too far right for a text to be marked in between. */
  predicate Rejoins(page: string) {
    var a := Unclosed(page, 0);
    var b := NextStop(page, a + 1);
    && a < |page|
    && (if b == |page| then Leftover(page, a) == a
        else Leftover(page, b) == a && b <= Leftover(page, a) && NextStop(page, b + 1) == |page|)
  }

  /** Behind an unclosed opener no opener is closed. */
  lemma CloserMono(page: string, p: nat, q: nat)
    requires |page| <= NextCloser(page, p) && p <= q
    ensures |page| <= NextCloser(page, q)
  {
  }

  lemma StopNoNul(page: string, o: nat)
    requires '\0' !in page && o <= |page|
    ensures NextStop(page, o) <= |page|
    ensures NextStop(page, o) < |page| <==> IsOpener(page, NextStop(page, o))
  {
    var p := NextStop(page, o);
    if p < |page| { assert page[p] in page; }
  }

  /** The first mark of the broken tail starts at or before `l`. */
  lemma {:induction false} BrokenFirst(page: string, o: nat, l: nat)
    requires '\0' !in page && o <= |page|
    requires |page| <= NextCloser(page, o + 2)
    requires Leftover(page, o) <= l
    ensures Marks(page, o, l)[0].offset <= l && Marks(page, o, l)[0].kind == TEXT
    decreases |page| - o
  {
    hide IsOpener, IsCloser, NextStop, NextCloser, Marks;
    MarksAt(page, o, l);
    StopNoNul(page, o);
    var p := NextStop(page, o);
    if IsOpener(page, p) {
      CloserMono(page, o + 2, p + 3);
      BrokenFirst(page, p + 1, Leftover(page, p));
    }
  }

  lemma TilesFirst(parts: seq<Segment>, from: int, to: int)
    requires parts != [] && parts[0].kind == TEXT && parts[0].offset != from
    ensures !Tiles(parts, from, to)
  {
  }

  /** Once three openers stay unclosed the marks never tile. */
  lemma {:induction false} BrokenNever(page: string, o: nat, from: nat, prev: nat)
    requires '\0' !in page && 0 < o <= |page| && |page| <= NextCloser(page, o + 2)
    requires from < prev < o && prev <= Leftover(page, o - 1)
    ensures !Tiles(Marks(page, o, Leftover(page, o - 1)), from, |page|)
    decreases |page| - o
  {
    hide IsOpener, IsCloser, NextStop, NextCloser, Tiles, Marks;
    StopNoNul(page, o);
    var l, p := Leftover(page, o - 1), NextStop(page, o);
    MarksAt(page, o, l);
    if IsOpener(page, p) {
      CloserMono(page, o + 2, p + 3);
      var tail := Marks(page, p + 1, Leftover(page, p));
      if l < p {
        assert (Before(l, p) + tail)[0] == Text(l, p - l);
        TilesFirst(Before(l, p) + tail, from, |page|);
      } else {
        assert Before(l, p) + tail == tail;
        BrokenNever(page, p + 1, from, o - 1);
      }
    } else {
      TilesLast(l, p, from, |page|);
    }
  }

  /** The marks behind the first unclosed opener `a`. */
  lemma BrokenTail(page: string, a: nat)
    requires '\0' !in page && a < |page| && IsOpener(page, a) && |page| <= NextCloser(page, a + 3)
    ensures var b := NextStop(page, a + 1);
            Tiles(Marks(page, a + 1, Leftover(page, a)), a, |page|)
            <==> (if b == |page| then Leftover(page, a) == a
                  else Leftover(page, b) == a && b <= Leftover(page, a) && NextStop(page, b + 1) == |page|)
  {
    hide IsOpener, IsCloser, NextStop, NextCloser, Tiles, Marks, Before;
    OneBefore(Leftover(page, a), NextStop(page, a + 1));
    var n, l, b := |page|, Leftover(page, a), NextStop(page, a + 1);
    StopNoNul(page, a + 1);
    MarksAt(page, a + 1, l);
    if b == n {
      TilesLast(l, n, a, n);
    } else {
      CloserMono(page, a + 3, b + 3);
      var l' := Leftover(page, b);
      var tail := Marks(page, b + 1, l');
      if l < b {
        BrokenFirst(page, b + 1, l');
        if l == a {
          TilesBefore(l, b, tail, n);
          TilesFirst(tail, b, n);
        } else {
          assert (Before(l, b) + tail)[0] == Text(l, b - l);
          TilesFirst(Before(l, b) + tail, a, n);
        }
      } else {
        assert Before(l, b) + tail == tail;
        BrokenThird(page, a, b);
      }
    }
  }

  lemma OneBefore(from: int, p: int)
    ensures Before(from, p) == if from < p then [Text(from, p - from)] else []
  {
  }

  lemma BrokenThird(page: string, a: nat, b: nat)
    requires '\0' !in page && a < b < |page| && |page| <= NextCloser(page, b + 3)
    requires b <= Leftover(page, a)
    ensures Tiles(Marks(page, b + 1, Leftover(page, b)), a, |page|)
        <==> Leftover(page, b) == a && NextStop(page, b + 1) == |page|
  {
    hide IsOpener, IsCloser, NextStop, NextCloser, Tiles, Marks;
    var n, l, c := |page|, Leftover(page, b), NextStop(page, b + 1);
    StopNoNul(page, b + 1);
    MarksAt(page, b + 1, l);
    if c == n {
      TilesLast(l, n, a, n);
    } else {
      CloserMono(page, b + 3, c + 3);
      var tail := Marks(page, c + 1, Leftover(page, c));
      if l < c {
        BrokenFirst(page, c + 1, Leftover(page, c));
        if l == a {
          TilesBefore(l, c, tail, n);
          TilesFirst(tail, c, n);
        } else {
          assert (Before(l, c) + tail)[0] == Text(l, c - l);
          TilesFirst(Before(l, c) + tail, a, n);
        }
      } else {
        assert Before(l, c) + tail == tail;
        BrokenNever(page, c + 1, a, b);
      }
    }
  }

  lemma UnclosedAt(page: string, from: nat)
    ensures var p := NextStop(page, from);
            var c := NextCloser(page, p + 3);
            Unclosed(page, from) == if !IsOpener(page, p) then |page|
                                    else if |page| <= c then p else Unclosed(page, c + 2)
  {
    hide IsOpener, IsCloser, NextStop, NextCloser;
  }

  lemma {:induction false} MarksTileFrom(page: string, o: nat, l: nat)
    requires '\0' !in page && l <= |page| && Resumes(page, o, l)
    ensures var a := Unclosed(page, l);
            Tiles(Marks(page, o, l), l, |page|)
            <==> a >= |page| || Tiles(Marks(page, a + 1, Leftover(page, a)), a, |page|)
    decreases |page| - o
  {
    hide IsOpener, IsCloser, Resumes, NextStop, NextCloser, Tiles, Marks, Unclosed, Before;
    SameStop(page, o, l);
    StopNoNul(page, l);
    MarksAt(page, o, l);
    UnclosedAt(page, l);
    var p, n := NextStop(page, l), |page|;
    if !IsOpener(page, p) {
      TilesLast(l, p, l, n);
    } else {
      var c := NextCloser(page, p + 3);
      if c < n {
        CloserResumes(page, c);
        MarksTileFrom(page, c + 1, c + 2);
        var rest := Marks(page, c + 1, c + 2);
        var script := Script(p + 3, c - (p + 3));
        assert Before(l, p) + [script] + rest == Before(l, p) + ([script] + rest);
        TilesBefore(l, p, [script] + rest, n);
        TilesScript(p, c - (p + 3), rest, n);
      } else {
        TilesBefore(l, p, Marks(page, p + 1, Leftover(page, p)), n);
      }
    }
  }

  /** A page without NUL is tiled by its marks exactly when every opener reached is
      closed, but for one coincidence of lengths. */
  lemma TilesIff(page: string)
    requires '\0' !in page
    ensures Tiles(Marks(page, 0, 0), 0, |page|) <==> Unclosed(page, 0) >= |page| || Rejoins(page)
  {
    hide IsOpener, IsCloser, NextStop, NextCloser, Tiles, Marks, Unclosed, Leftover;
    MarksTileFrom(page, 0, 0);
    var a := Unclosed(page, 0);
    if a < |page| { BrokenTail(page, a); }
  }

  /** A page with an unclosed opener that is not tiled, and one that is by the
      coincidence. */
  lemma UnclosedExamples()
    ensures !Tiles(Marks("ab<? x", 0, 0), 0, 6)
    ensures Tiles(Marks("<? ", 0, 0), 0, 3)
  {
    var p, q := "ab<? x", "<? ";
    assert IsOpener(p, 2) && !IsOpener(p, 0) && !IsOpener(p, 1);
    assert !IsOpener(p, 3) && !IsOpener(p, 4) && !IsOpener(p, 5);
    assert NextStop(p, 2) == NextStop(p, 1) == NextStop(p, 0) == 2;
    assert NextStop(p, 6) == NextStop(p, 5) == NextStop(p, 4) == NextStop(p, 3) == 6;
    assert NextCloser(p, 6) == 6 && !IsCloser(p, 5) && NextCloser(p, 5) == 6;
    assert Unclosed(p, 0) == 2 && Leftover(p, 2) == 1;
    TilesIff(p);
    assert IsOpener(q, 0) && NextStop(q, 0) == 0 && NextCloser(q, 3) == 3;
    assert !IsOpener(q, 1) && !IsOpener(q, 2) && NextStop(q, 3) == NextStop(q, 2) == NextStop(q, 1) == 3;
    assert Unclosed(q, 0) == 0 && Leftover(q, 0) == 0;
    TilesIff(q);
  }

  lemma OpenerInside(page: string, p: nat)
    ensures IsOpener(page, p) ==> p < |page|
  {
  }

  /** The unclosed openers are the pages the specification refuses. */
  lemma {:induction false} UnclosedParts(page: string, from: nat)
    ensures Parts(page, from).Some? <==> Unclosed(page, from) >= |page|
    decreases |page| - from
  {
    hide IsOpener, IsCloser, NextStop, NextCloser, Parts, Unclosed, Before;
    PartsAt(page, from);
    UnclosedAt(page, from);
    var p := NextStop(page, from);
    OpenerInside(page, p);
    if IsOpener(page, p) && NextCloser(page, p + 3) < |page| {
      UnclosedParts(page, NextCloser(page, p + 3) + 2);
    }
  }
}
