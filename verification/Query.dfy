/**
 The query text `QueryLua` builds (lws.c), and where in memory it ends up.  Quoting
 by the database library is a parameter.
 */
module Query {
  import opened Str
  import opened Memory

  /** The specification: from position `i` on, each placeholder takes the next of the
      given texts, everything else is kept, inserted text is not looked at again. */
  function Fill(q: string, i: nat, texts: seq<string>): string
    decreases |q| - i
  {
    if |q| <= i then ""
    else if q[i] == '?' && texts != [] then texts[0] + Fill(q, i + 1, texts[1..])
    else [q[i]] + Fill(q, i + 1, texts)
  }

  function Quoted(args: seq<string>, quote: string -> string): (r: seq<string>)
    ensures |r| == |args|
  {
    seq(|args|, k requires 0 <= k < |args| => quote(args[k]))
  }

  /** What the source builds: the first character is never a placeholder, and one
      placeholder more than there are arguments is filled, with the quoted form of
      the missing stack entry, which prints as `0`. */
  function Built(q: string, args: seq<string>, quote: string -> string): string {
    if q == "" then "" else [q[0]] + Fill(q, 1, Quoted(args, quote) + [quote("0")])
  }

  function Placeholders(q: string, i: nat): nat
    decreases |q| - i
  {
    if |q| <= i then 0 else (if q[i] == '?' then 1 else 0) + Placeholders(q, i + 1)
  }

  lemma {:induction false} FillNone(q: string, i: nat)
    requires i <= |q|
    ensures Fill(q, i, []) == q[i..]
    decreases |q| - i
  {
    if |q| <= i {
    } else {
      FillNone(q, i + 1);
      assert q[i..] == [q[i]] + q[i + 1..];
    }
  }

  /** A text to spare changes nothing exactly when no placeholder is left for it. */
  lemma {:induction false} FillSpare(q: string, i: nat, texts: seq<string>, spare: string)
    requires spare != "" && spare[0] != '?'
    ensures Fill(q, i, texts + [spare]) == Fill(q, i, texts) <==> Placeholders(q, i) <= |texts|
    decreases |q| - i
  {
    if |q| <= i {
    } else {
      if q[i] == '?' {
        if texts == [] {
          assert Fill(q, i, [])[0] == '?';
          assert Fill(q, i, texts + [spare])[0] == spare[0];
        } else {
          assert (texts + [spare])[1..] == texts[1..] + [spare] && (texts + [spare])[0] == texts[0];
          FillSpare(q, i + 1, texts[1..], spare);
          SamePrefix(texts[0], Fill(q, i + 1, texts[1..] + [spare]), Fill(q, i + 1, texts[1..]));
        }
      } else {
        FillSpare(q, i + 1, texts, spare);
        SamePrefix([q[i]], Fill(q, i + 1, texts + [spare]), Fill(q, i + 1, texts));
      }
    }
  }

  lemma SamePrefix(a: string, b: string, c: string)
    ensures a + b == a + c <==> b == c
  {
    if a + b == a + c {
      assert b == (a + b)[|a|..] && c == (a + c)[|a|..];
    }
  }

  /** Every placeholder is replaced by its quoted argument and nothing else changes:
      for a template that does not start with a placeholder, exactly when there are
      no more placeholders than arguments; for one that does, only when there is
      nothing to replace it with and no other placeholder. */
  lemma PlaceholdersIff(q: string, args: seq<string>, quote: string -> string)
    requires quote("0") != "" && quote("0")[0] != '?'
    requires q != "" && q[0] == '?' && args != [] ==> quote(args[0]) != "" && quote(args[0])[0] != '?'
    ensures Built(q, args, quote) == Fill(q, 0, Quoted(args, quote))
       <==> if q != "" && q[0] == '?' then args == [] && Placeholders(q, 1) == 0
            else Placeholders(q, 0) <= |args|
  {
    if q != "" {
      var texts := Quoted(args, quote);
      FillSpare(q, 1, texts, quote("0"));
      SamePrefix([q[0]], Fill(q, 1, texts + [quote("0")]), Fill(q, 1, texts));
      if q[0] == '?' && args != [] {
        assert texts[0] == quote(args[0]);
        assert Fill(q, 0, texts)[0] == quote(args[0])[0];
      }
    }
  }

  lemma FillStep(q: string, i: nat, texts: seq<string>)
    requires i < |q|
    ensures q[i] == '?' && texts != [] ==> Fill(q, i, texts) == texts[0] + Fill(q, i + 1, texts[1..])
    ensures q[i] != '?' ==> Fill(q, i, texts) == [q[i]] + Fill(q, i + 1, texts)
  {
  }

  /** A Lua value as `lua2str` reads it: strings and numbers are views of the
      interpreter's memory, anything else is printed into the arena. */
  datatype Value = Held(text: string) | Printed(text: string)

  function Texts(args: seq<Value>): (r: seq<string>)
    ensures |r| == |args|
  {
    seq(|args|, k requires 0 <= k < |args| => args[k].text)
  }

  /** What `lua2str` finds for argument `j`, counted from 1.  A missing stack entry
      prints as a null pointer. */
  function Argument(args: seq<Value>, j: nat): Value
    requires 0 < j
  {
    if j <= |args| then args[j - 1] else Printed("0")
  }

  lemma NextText(args: seq<Value>, quote: string -> string, j: nat)
    requires 0 < j <= |args| + 1
    ensures var texts := Quoted(Texts(args), quote) + [quote("0")];
            |texts| == |args| + 1 && texts[j - 1] == quote(Argument(args, j).text)
  {
  }

  // ----- Which placeholders are filled ---------------------------------------------

  /** Position `p` holds a placeholder that is filled when there are `n` arguments:
      at most `n` come before it. */
  ghost predicate Filled(q: string, p: int, n: nat) {
    1 <= p < |q| && q[p] == '?' && Placeholders(q, 1) - Placeholders(q, p) <= n
  }

  ghost predicate LastFilled(q: string, p: int, n: nat) {
    Filled(q, p, n) && forall p' :: Filled(q, p', n) ==> p' <= p
  }

  /** At most a header's size of bytes follows the last placeholder that is filled. */
  ghost predicate TailFits(q: string, n: nat) {
    forall p :: LastFilled(q, p, n) ==> |q| - (p + 1) <= HEADER
  }

  /** The loop at position `i`, with argument `j` next and `o` behind the last
      placeholder that was filled, zero if none was. */
  ghost predicate Looked(q: string, i: nat, j: nat, o: nat, n: nat) {
    && 1 <= i && o <= i && 1 <= j <= n + 2
    && (i <= |q| ==> j - 1 == Placeholders(q, 1) - Placeholders(q, i))
    && (o != 0 ==> Filled(q, o - 1, n))
    && (forall p :: Filled(q, p, n) && p < i ==> p < o)
  }

  lemma {:induction false} FewerBehind(q: string, i: nat, p: nat)
    requires i <= p
    ensures Placeholders(q, p) <= Placeholders(q, i)
    decreases p - i
  {
    if p <= i {
    } else {
      FewerBehind(q, i + 1, p);
    }
  }

  lemma LookedOn(q: string, i: nat, j: nat, o: nat, n: nat)
    requires Looked(q, i, j, o, n) && i < |q| && j <= n + 1
    ensures if q[i] == '?' then Looked(q, i + 1, j + 1, i + 1, n) else Looked(q, i + 1, j, o, n)
  {
  }

  /** At the end of the loop nothing more is filled. */
  lemma LookedAll(q: string, i: nat, j: nat, o: nat, n: nat)
    requires Looked(q, i, j, o, n) && (i >= |q| || j == n + 2)
    ensures TailFits(q, n) <==> o == 0 || |q| - o <= HEADER
    ensures o != 0 ==> LastFilled(q, o - 1, n)
  {
    forall p | Filled(q, p, n) ensures p < o {
      if i <= p { FewerBehind(q, i, p); }
    }
    assert o != 0 ==> LastFilled(q, o - 1, n);
  }

  // ----- QueryLua --------------------------------------------------------------------

  /** `lua2str` */
  method ValueText(a: Arena, v: Value) returns (b: Buf)
    requires a.Valid() && a.offset + HEADER + |v.text| + 1 <= a.mem.Length
    modifies a, a.mem
    ensures fresh(b) && b.In(a) && b.addr == old(a.offset)
    ensures b.length == |v.text| && b.Bytes(a) == v.text
    ensures b.place.Inside? ==> b.place.at + b.length < a.offset
    ensures a.offset <= old(a.offset) + HEADER + |v.text| + 1
    ensures SameOutside(old(a.mem[..]), a.mem[..], old(a.offset), a.offset)
  {
    hide SameOutside;
    match v
    case Held(text) => b := View(a, Outside(text), |text|); assert text[..|text|] == text;
    case Printed(text) => b := Print(a, text);
  }

  /** `singlequote`; the library writes a NUL behind the text. */
  method SingleQuote(a: Arena, s: Buf, quote: string -> string) returns (b: Buf)
    requires s.In(a) && |quote(s.Bytes(a))| <= 2 * s.length
    requires a.offset + HEADER + 2 * s.length + 1 <= a.mem.Length
    modifies a, a.mem
    ensures b.In(a) && (b == s || (fresh(b) && b.addr == old(a.offset)))
    ensures b.Bytes(a) == quote(old(s.Bytes(a))) && b.length <= 2 * s.length
    ensures old(a.offset) <= a.offset <= old(a.offset) + HEADER + 2 * s.length
    ensures SameOutside(old(a.mem[..]), a.mem[..], old(a.offset), a.mem.Length)
    ensures old(Unwritten(a.mem[..], a.offset)) ==> Unwritten(a.mem[..], a.offset)
  {
    hide SameOutside, Unwritten, LengthBytes, HeaderAt;
    ghost var m, at := a.mem[..], a.offset;
    if s.length == 0 {
      SameRefl(m, at, a.mem.Length);
      return s;
    }
    var text := quote(s.Bytes(a));
    b := Blank(a, 2 * s.length);
    ghost var blanked := a.mem[..];
    a.Write(b.addr + HEADER, text + "\0");
    b.length := |text|;
    ghost var end := b.addr + HEADER + |text| + 1;
    SameTrans(m, blanked, a.mem[..], at, at + HEADER, end);
    SameGrow(m, a.mem[..], at, end, a.mem.Length);
    if Unwritten(m, at) { QuotedEnd(m, a.mem[..], at, end, a.offset, text); }
    assert b.Bytes(a) == a.mem[b.addr + HEADER..end][..|text|];
  }

  /** The NUL may lie behind what is allocated, but so would have been any. */
  lemma QuotedEnd(m: string, m': string, at: nat, end: nat, top: nat, text: string)
    requires Unwritten(m, at) && SameOutside(m, m', at, end) && end <= top + 1 && at <= top && 0 < end
    requires m'[end - 1] == '\0'
    ensures Unwritten(m', top)
  {
  }

  /** The memory one turn of the loop takes at most, and all turns with what is done
      to the query behind them. */
  function Turn(had: nat, l: nat, v: Value): nat {
    5 * HEADER + 2 + 2 * l + 7 * |v.text| + had
  }

  function Turns(had: nat, l: nat, values: seq<Value>): (r: nat)
    ensures 3 * HEADER + 2 + 3 * l + 2 * had <= r
    decreases |values|
  {
    if values == [] then 3 * HEADER + 2 + 3 * l + 2 * had
    else Turn(had, l, values[0]) + Turns(had + l + 2 * |values[0].text|, l, values[1..])
  }

  /** The template as `lua2str` has left it; no string can start where it ends. */
  ghost predicate Template(a: Arena, qs: Buf, q: string)
    reads a, a.mem, qs
  {
    && qs.In(a) && qs.length == |q| && qs.Bytes(a) == q
    && (qs.place.Inside? ==> qs.place.at + qs.length < a.offset)
  }

  method NewTemplate(a: Arena, query: Value) returns (qs: Buf)
    requires a.Valid() && a.offset + HEADER + |query.text| + 1 <= a.mem.Length
    modifies a, a.mem
    ensures fresh(qs) && Template(a, qs, query.text)
    ensures a.offset <= old(a.offset) + HEADER + |query.text| + 1
    ensures old(Unwritten(a.mem[..], a.offset)) ==> Unwritten(a.mem[..], a.offset)
  {
    hide SameOutside, Unwritten;
    qs := ValueText(a, query);
    ghost var m, at := old(a.mem[..]), old(a.offset);
    if Unwritten(m, at) { StaysUnwritten(m, a.mem[..], at, a.offset, at, a.offset); }
  }

  /** The quoted text of an argument. */
  method QuotedText(a: Arena, v: Value, quote: string -> string) returns (b: Buf)
    requires a.Valid() && |quote(v.text)| <= 2 * |v.text|
    requires a.offset + 2 * HEADER + 2 + 3 * |v.text| <= a.mem.Length
    modifies a, a.mem
    ensures fresh(b) && b.In(a) && old(a.offset) <= b.addr
    ensures b.Bytes(a) == quote(v.text) && b.length <= 2 * |v.text|
    ensures old(a.offset) <= a.offset <= old(a.offset) + 2 * HEADER + 1 + 3 * |v.text|
    ensures SameOutside(old(a.mem[..]), a.mem[..], old(a.offset), a.mem.Length)
    ensures old(Unwritten(a.mem[..], a.offset)) ==> Unwritten(a.mem[..], a.offset)
  {
    hide SameOutside, Text, Unwritten;
    ghost var m, at := a.mem[..], a.offset;
    var text := ValueText(a, v);
    ghost var m1, at1 := a.mem[..], a.offset;
    b := SingleQuote(a, text, quote);
    SameTwice(m, m1, a.mem[..], at, at1, at1, a.mem.Length);
    if Unwritten(m, at) { StaysUnwritten(m, m1, at, at1, at, at1); }
  }

  /** The text since the last placeholder with a text behind it. */
  method JoinParts(a: Arena, qs: Buf, ghost q: string, o: nat, i: nat, quoted: Buf, ghost text: string)
    returns (r: Buf)
    requires Template(a, qs, q) && o <= i <= |q| && quoted != qs
    requires quoted.In(a) && quoted.Bytes(a) == text
    requires qs.place.Inside? ==> qs.place.at + qs.length < quoted.addr
    requires a.offset + 2 * HEADER + |q| + |text| <= a.mem.Length
    modifies a, a.mem, quoted
    ensures fresh(r) && r.Last(a) && old(a.offset) < r.addr
    ensures r.Bytes(a) == q[o..i] + text && r.length <= |q| + |text|
    ensures a.offset <= old(a.offset) + 2 * HEADER + |q| + |text|
    ensures SameOutside(old(a.mem[..]), a.mem[..], old(a.offset), a.offset)
  {
    hide SameOutside, Text;
    ghost var m, at := a.mem[..], a.offset;
    var part := From(a, qs, o, i - o);
    ghost var m1, at1 := a.mem[..], a.offset;
    TextSame(m, m1, quoted.place, quoted.length, at, at1);
    r := Append(a, part, quoted);
    SameTrans(m, m1, a.mem[..], at, at1, a.offset);
  }

  /** The text since the last placeholder with the quoted argument behind it. */
  method Joined(a: Arena, qs: Buf, ghost q: string, o: nat, i: nat, v: Value, quote: string -> string)
    returns (r: Buf)
    requires Template(a, qs, q) && o <= i <= |q|
    requires |quote(v.text)| <= 2 * |v.text|
    requires a.offset + 4 * HEADER + 2 + |q| + 5 * |v.text| <= a.mem.Length
    modifies a, a.mem
    ensures fresh(r) && r.Last(a) && old(a.offset) < r.addr && Template(a, qs, q)
    ensures r.Bytes(a) == q[o..i] + quote(v.text) && r.length <= |q| + 2 * |v.text|
    ensures a.offset <= old(a.offset) + 4 * HEADER + 1 + |q| + 5 * |v.text|
    ensures SameOutside(old(a.mem[..]), a.mem[..], old(a.offset), a.mem.Length)
    ensures old(Unwritten(a.mem[..], a.offset)) ==> Unwritten(a.mem[..], a.offset)
  {
    hide SameOutside, Text, Unwritten;
    ghost var m, at, top := a.mem[..], a.offset, a.mem.Length;
    var quoted := QuotedText(a, v, quote);
    ghost var m1, at1 := a.mem[..], a.offset;
    TextSame(m, m1, qs.place, qs.length, at, top);
    r := JoinParts(a, qs, q, o, i, quoted, quote(v.text));
    SameTwice(m, m1, a.mem[..], at, at1, top, a.offset);
    if Unwritten(m, at) { StaysUnwritten(m1, a.mem[..], at1, a.offset, at1, a.offset); }
    TextSame(m, a.mem[..], qs.place, qs.length, at, top);
  }

  /** The query so far, up to `o` in the template: the newest string of the arena, or
      NULL, of at most `had` bytes. */
  ghost predicate SoFar(a: Arena, qry: Buf?, o: nat, done: string, had: nat)
    reads a, a.mem, qry
  {
    if qry == null then o == 0 && done == ""
    else o != 0 && qry.Last(a) && qry.Bytes(a) == done && |done| <= had
  }

  lemma SoFarNone(a: Arena)
    ensures SoFar(a, null, 0, "", 0)
  {
  }

  /** The body of the loop at a placeholder: the joined text goes to the end of a new
      copy of the query. */
  method FillOne(a: Arena, qs: Buf, ghost q: string, o: nat, i: nat, v: Value, qry: Buf?, quote: string -> string,
        ghost done: string, ghost had: nat)
    returns (r: Buf)
    requires Template(a, qs, q) && o <= i <= |q|
    requires SoFar(a, qry, o, done, had) && qry != qs
    requires |quote(v.text)| <= 2 * |v.text|
    requires a.offset + Turn(had, |q|, v) <= a.mem.Length
    modifies a, a.mem, qry
    ensures fresh(r) && Template(a, qs, q)
    ensures SoFar(a, r, i + 1, done + (q[o..i] + quote(v.text)), had + |q| + 2 * |v.text|)
    ensures a.offset <= old(a.offset) + Turn(had, |q|, v)
    ensures old(Unwritten(a.mem[..], a.offset)) ==> Unwritten(a.mem[..], a.offset)
  {
    hide SameOutside, Text, Unwritten;
    ghost var m, at := a.mem[..], a.offset;
    var joined := Joined(a, qs, q, o, i, v, quote);
    ghost var m1, at1 := a.mem[..], a.offset;
    if qry != null { TextSame(m, m1, qry.place, qry.length, at, a.mem.Length); }
    r := Append(a, qry, joined);
    if qry == null {
      assert a.mem[..] == m1;
    } else {
      TextSame(m1, a.mem[..], qs.place, qs.length, at1, a.offset);
      if Unwritten(m, at) { StaysUnwritten(m1, a.mem[..], at1, a.offset, at1, a.offset); }
    }
  }

  // ----- The text of the query in the loop -------------------------------------------

  /** The loop at position `i`, with `done` built up to `o` and the texts from the
      `j`-th on to come: what follows completes `all`. */
  ghost predicate Written(q: string, i: nat, j: nat, o: nat, done: string, texts: seq<string>, all: string) {
    && o <= i && 1 <= j <= |texts| + 1
    && (q == "" ==> o == 0 && done == all)
    && (q != "" ==> i <= |q| && done + q[o..i] + Fill(q, i, texts[j - 1..]) == all)
  }

  lemma WrittenNone(q: string, args: seq<string>, quote: string -> string)
    ensures Written(q, 1, 1, 0, "", Quoted(args, quote) + [quote("0")], Built(q, args, quote))
  {
    var texts := Quoted(args, quote) + [quote("0")];
    assert texts[0..] == texts;
    if q != "" { assert "" + q[0..1] == [q[0]]; }
  }

  lemma WrittenFill(q: string, i: nat, j: nat, o: nat, done: string, texts: seq<string>, all: string)
    requires Written(q, i, j, o, done, texts, all) && i < |q| && q[i] == '?' && j <= |texts|
    ensures Written(q, i + 1, j + 1, i + 1, done + (q[o..i] + texts[j - 1]), texts, all)
  {
    hide Fill;
    var rest := texts[j - 1..];
    FillStep(q, i, rest);
    assert rest[1..] == texts[j..];
    Assoc(done + q[o..i], texts[j - 1], Fill(q, i + 1, texts[j..]));
    Assoc(done, q[o..i], texts[j - 1]);
    assert done + (q[o..i] + texts[j - 1]) + q[i + 1..i + 1] == done + (q[o..i] + texts[j - 1]);
  }

  lemma WrittenKeep(q: string, i: nat, j: nat, o: nat, done: string, texts: seq<string>, all: string)
    requires Written(q, i, j, o, done, texts, all) && i < |q| && q[i] != '?'
    ensures Written(q, i + 1, j, o, done, texts, all)
  {
    hide Fill;
    FillStep(q, i, texts[j - 1..]);
    Assoc(done + q[o..i], [q[i]], Fill(q, i + 1, texts[j - 1..]));
    Assoc(done, q[o..i], [q[i]]);
    assert q[o..i + 1] == q[o..i] + [q[i]];
  }

  lemma WrittenAll(q: string, i: nat, j: nat, o: nat, done: string, texts: seq<string>, all: string)
    requires Written(q, i, j, o, done, texts, all) && (i >= |q| || j == |texts| + 1)
    ensures o <= |q| && done + q[o..] == all
  {
    hide Fill;
    if q != "" {
      FillEnd(q, i, texts[j - 1..]);
      Assoc(done, q[o..i], q[i..]);
      assert q[o..] == q[o..i] + q[i..];
    }
  }

  /** The whole text: `append` of one turn after the other, and in the end of what
      follows the last placeholder.  That last one is made in place whenever a
      placeholder was filled, since the query then ends where its view's header
      starts. */
  method BuildQuery(a: Arena, query: Value, args: seq<Value>, quote: string -> string) returns (r: Buf)
    requires a.Valid() && forall t :: |quote(t)| <= 2 * |t|
    requires a.offset + HEADER + |query.text| + 1
             + Turns(0, |query.text|, args + [Printed("0")]) <= a.mem.Length
    modifies a, a.mem
    ensures a.Valid() && r.Readable(a) && r.addr + HEADER <= a.offset && (r.Owns() || r.Kept(a))
    ensures r.Bytes(a) == Built(query.text, Texts(args), quote)
    ensures r.Kept(a) <==> TailFits(query.text, |args|)
    ensures !r.Kept(a) ==>
      exists p :: LastFilled(query.text, p, |args|) && Spilled(a, r) == |query.text| - (p + 1) - HEADER
    ensures a.offset + 2 * HEADER + 2 * r.length + 2 <= a.mem.Length
    ensures old(Unwritten(a.mem[..], a.offset)) ==> Unwritten(a.mem[..], End(a, r))
  {
    hide *;
    var q, n := query.text, 1 + |args|;
    ghost var done, had: nat := "", 0;
    var qs := NewTemplate(a, query);
    var qry: Buf? := null;
    var i, j, o := 1, 1, 0;
    StageNone(q, args, quote);
    RoomFirst(|q|, args);
    SoFarNone(a);
    while i < |q| && j <= n
      invariant fresh(qs) && Template(a, qs, q)
      invariant SoFar(a, qry, o, done, had) && qry != qs && (qry != null ==> fresh(qry))
      invariant o <= i && 1 <= i && 1 <= j <= n + 1 && Stage(q, i, j, o, args, quote, done)
      invariant a.offset + Room(had, |q|, args, j) <= a.mem.Length
      invariant old(Unwritten(a.mem[..], a.offset)) ==> Unwritten(a.mem[..], a.offset)
    {
      if q[i] == '?' {
        StageFill(q, i, j, o, args, quote, done);
        RoomStep(had, |q|, args, j);
        var v := Argument(args, j);
        qry := FillOne(a, qs, q, o, i, v, qry, quote, done, had);
        done, had := done + (q[o..i] + quote(v.text)), had + |q| + 2 * |v.text|;
        j, o := j + 1, i + 1;
      } else {
        StageKeep(q, i, j, o, args, quote, done);
      }
      i := i + 1;
    }
    StageAll(q, i, j, o, args, quote, done);
    RoomLeft(had, |q|, args, j);
    r := AppendTail(a, qs, q, qry, o, done, had);
  }

  /** What the turns from argument `j` on take. */
  function Room(had: nat, l: nat, args: seq<Value>, j: nat): nat
    requires 1 <= j <= |args| + 2
  {
    Turns(had, l, (args + [Printed("0")])[j - 1..])
  }

  lemma RoomFirst(l: nat, args: seq<Value>)
    ensures Room(0, l, args, 1) == Turns(0, l, args + [Printed("0")])
  {
    assert (args + [Printed("0")])[0..] == args + [Printed("0")];
  }

  lemma RoomLeft(had: nat, l: nat, args: seq<Value>, j: nat)
    requires 1 <= j <= |args| + 2
    ensures 3 * HEADER + 2 + 3 * l + 2 * had <= Room(had, l, args, j)
  {
  }

  lemma RoomStep(had: nat, l: nat, args: seq<Value>, j: nat)
    requires 1 <= j <= |args| + 1
    ensures var v := Argument(args, j);
            Room(had, l, args, j) == Turn(had, l, v) + Room(had + l + 2 * |v.text|, l, args, j + 1)
  {
    var values := args + [Printed("0")];
    assert values[j - 1..][0] == Argument(args, j) && values[j - 1..][1..] == values[j..];
  }

  // The loop's view of the template and of the text, in one.

  ghost predicate Stage(q: string, i: nat, j: nat, o: nat, args: seq<Value>, quote: string -> string, done: string) {
    && Looked(q, i, j, o, |args|)
    && Written(q, i, j, o, done, Quoted(Texts(args), quote) + [quote("0")], Built(q, Texts(args), quote))
  }

  lemma StageNone(q: string, args: seq<Value>, quote: string -> string)
    ensures Stage(q, 1, 1, 0, args, quote, "")
  {
    hide Written, Built;
    WrittenNone(q, Texts(args), quote);
  }

  lemma StageFill(q: string, i: nat, j: nat, o: nat, args: seq<Value>, quote: string -> string, done: string)
    requires Stage(q, i, j, o, args, quote, done) && o <= i < |q| && q[i] == '?' && 1 <= j <= |args| + 1
    ensures Stage(q, i + 1, j + 1, i + 1, args, quote, done + (q[o..i] + quote(Argument(args, j).text)))
  {
    hide Looked, Written, Built, Quoted, Texts, Argument;
    LookedOn(q, i, j, o, |args|);
    NextText(args, quote, j);
    WrittenFill(q, i, j, o, done, Quoted(Texts(args), quote) + [quote("0")], Built(q, Texts(args), quote));
  }

  lemma StageKeep(q: string, i: nat, j: nat, o: nat, args: seq<Value>, quote: string -> string, done: string)
    requires Stage(q, i, j, o, args, quote, done) && i < |q| && q[i] != '?' && 1 <= j <= |args| + 1
    ensures Stage(q, i + 1, j, o, args, quote, done)
  {
    hide Looked, Written, Built, Quoted, Texts;
    LookedOn(q, i, j, o, |args|);
    WrittenKeep(q, i, j, o, done, Quoted(Texts(args), quote) + [quote("0")], Built(q, Texts(args), quote));
  }

  lemma StageAll(q: string, i: nat, j: nat, o: nat, args: seq<Value>, quote: string -> string, done: string)
    requires Stage(q, i, j, o, args, quote, done) && (i >= |q| || j == |args| + 2)
    ensures o <= |q| && done + q[o..] == Built(q, Texts(args), quote)
    ensures TailFits(q, |args|) <==> o == 0 || |q| - o <= HEADER
    ensures o != 0 ==> LastFilled(q, o - 1, |args|)
  {
    hide Looked, Written, Built, TailFits, LastFilled;
    LookedAll(q, i, j, o, |args|);
    WrittenAll(q, i, j, o, done, Quoted(Texts(args), quote) + [quote("0")], Built(q, Texts(args), quote));
  }

  /** The last `append`. */
  method AppendTail(a: Arena, qs: Buf, ghost q: string, qry: Buf?, o: nat, ghost done: string, ghost had: nat)
    returns (r: Buf)
    requires Template(a, qs, q) && o <= |q|
    requires SoFar(a, qry, o, done, had) && qry != qs
    requires a.offset + 3 * HEADER + 2 + 3 * |q| + 2 * had <= a.mem.Length
    modifies a, a.mem, qry
    ensures a.Valid() && r.Readable(a) && r.addr + HEADER <= a.offset
    ensures r.Bytes(a) == done + q[o..]
    ensures r.Owns() || r.Kept(a)
    ensures r.Kept(a) <==> o == 0 || |q| - o <= HEADER
    ensures !r.Kept(a) ==> o != 0 && Spilled(a, r) == |q| - o - HEADER
    ensures a.offset + 2 * HEADER + 2 * r.length + 2 <= a.mem.Length
    ensures old(Unwritten(a.mem[..], a.offset)) ==> Unwritten(a.mem[..], End(a, r))
  {
    hide SameOutside, Text, Unwritten;
    ghost var m, at := a.mem[..], a.offset;
    var tail := From(a, qs, o, qs.length - o);
    if qry != null { TextSame(m, a.mem[..], qry.place, qry.length, at, a.offset); }
    ghost var m1, at1 := a.mem[..], a.offset;
    r := Append(a, qry, tail);
    if Unwritten(m, at) {
      StaysUnwritten(m, m1, at, at1, at, at1);
      if qry == null {
        assert a.mem[..] == m1;
      } else {
        StaysUnwritten(m1, a.mem[..], at, at + |q| - o, at1, End(a, r));
      }
    }
  }

  // ----- What the database gets -------------------------------------------------------

  /** The end of what is allocated, or of a text that runs behind it. */
  function End(a: Arena, r: Buf): nat
    reads a, r
  {
    if Spilled(a, r) > 0 then a.offset + Spilled(a, r) else a.offset
  }

  predicate IsNul(c: char) {
    c == '\0'
  }

  /** The characters in front of the first NUL, as the database library reads them. */
  function Terminated(m: string, at: nat): string
    requires at <= |m|
  {
    m[at..Until(m, at, IsNul)]
  }

  lemma TerminatedIs(m: string, at: nat, t: string, u: string)
    requires at + |t| < |m| && m[at..at + |t|] == t && m[at + |t|] == '\0' && |u| == |t|
    ensures Terminated(m, at) == u <==> t == u && '\0' !in u
  {
    var e := Until(m, at, IsNul);
    assert e <= at + |t|;
    assert forall i :: 0 <= i < |t| ==> m[at + i] == t[i];
    if '\0' !in t {
      assert forall i :: 0 <= i < |t| ==> t[i] in t;
      UntilIs(m, at, IsNul, at + |t|);
    }
  }

  /** `query`: the text is logged, which makes a first new string, and copied into a
      second one, which the database reads up to the first NUL.  That is the text
      that was handed over exactly if it has no NUL and lies in memory that stays, or
      the length in the log message's header restores what it is written over. */
  method Execute(a: Arena, q: Buf) returns (executed: string)
    requires a.Valid() && q.Readable(a) && q.addr + HEADER <= a.offset && (q.Owns() || q.Kept(a))
    requires a.offset + 2 * HEADER + 2 * q.length + 2 <= a.mem.Length <= REGION_SIZE
    requires Unwritten(a.mem[..], End(a, q))
    modifies a, a.mem
    ensures executed == old(q.Bytes(a))
       <==> && '\0' !in old(q.Bytes(a))
            && (old(q.Kept(a)) || Restores(old(q.Bytes(a)), old(Spilled(a, q)), |old(q.Bytes(a))|))
  {
    hide SameOutside, Text, Unwritten, LengthBytes, HeaderAt, Restores, Terminated;
    ghost var m, at, end, text := a.mem[..], a.offset, End(a, q), q.Bytes(a);
    var message := PrintText(a, q);
    ghost var m1, at1 := a.mem[..], a.offset;
    StaysUnwritten(m, m1, at, at1, end, at1);
    var copy := Blank(a, q.length + 1);
    ghost var m2 := a.mem[..];
    StaysUnwritten(m1, m2, at1, copy.addr + HEADER, at1, copy.addr + HEADER);
    TextSame(m1, m2, q.place, q.length, at1, copy.addr + HEADER);
    var left := q.Bytes(a);
    var start := copy.addr + HEADER;
    a.Write(start, left);
    StaysUnwritten(m2, a.mem[..], start, start + |left|, start, start + |left|);
    executed := Terminated(a.mem[..], start);
    LastNul(a.mem[..], start + |left|);
    assert a.mem[..][start..start + |left|] == left;
    TerminatedIs(a.mem[..], start, left, text);
    if '\0' !in text { HeaderOver(m, m1, q.place, q.length, at, at1, q.length); }
  }

  lemma LastNul(m: string, k: nat)
    requires Unwritten(m, k) && k < |m|
    ensures m[k] == '\0'
  {
  }

  /** The bytes behind the last filled placeholder that do not fit over a header are
      fewer than four, and those of the text's length. */
  ghost predicate Restored(q: string, n: nat, text: string) {
    exists p :: LastFilled(q, p, n) && Restores(text, |q| - (p + 1) - HEADER, |text|)
  }

  /** `QueryLua` up to the database, in a region nothing was written behind: what is
      executed is the text that was built exactly if that has no NUL and at most a
      header's size of bytes follows the last filled placeholder, one coincidence of
      lengths aside. */
  method RunQuery(a: Arena, query: Value, args: seq<Value>, quote: string -> string) returns (executed: string)
    requires a.Valid() && forall t :: |quote(t)| <= 2 * |t|
    requires a.offset + HEADER + |query.text| + 1
             + Turns(0, |query.text|, args + [Printed("0")]) <= a.mem.Length <= REGION_SIZE
    requires Unwritten(a.mem[..], a.offset)
    modifies a, a.mem
    ensures executed == Built(query.text, Texts(args), quote)
       <==> && '\0' !in Built(query.text, Texts(args), quote)
            && (|| TailFits(query.text, |args|)
                || Restored(query.text, |args|, Built(query.text, Texts(args), quote)))
  {
    hide Turns, Built, Texts, Text, TailFits, Unwritten, LastFilled, Restores;
    var r := BuildQuery(a, query, args, quote);
    ghost var text := r.Bytes(a);
    LastOnly(query.text, |args|);
    executed := Execute(a, r);
  }

  lemma LastOnly(q: string, n: nat)
    ensures forall p, p' :: LastFilled(q, p, n) && LastFilled(q, p', n) ==> p == p'
    ensures (exists p :: LastFilled(q, p, n) && |q| - (p + 1) > HEADER) ==> !TailFits(q, n)
  {
  }

  // ----- A query that is destroyed -----------------------------------------------------

  lemma {:induction false} FillKeep(q: string, i: nat, k: nat, texts: seq<string>)
    requires i <= k <= |q| && forall p :: i <= p < k ==> q[p] != '?'
    ensures Fill(q, i, texts) == q[i..k] + Fill(q, k, texts)
    decreases k - i
  {
    hide Fill;
    if i == k {
      assert q[i..k] + Fill(q, k, texts) == Fill(q, k, texts);
    } else {
      FillStep(q, i, texts);
      FillKeep(q, i + 1, k, texts);
      assert q[i..k] == [q[i]] + q[i + 1..k];
      Assoc([q[i]], q[i + 1..k], Fill(q, k, texts));
    }
  }

  /** A template with a single placeholder, and one argument. */
  lemma OnePlaceholder(pre: string, post: string, arg: string, quote: string -> string)
    requires pre != "" && '?' !in pre && '?' !in post
    ensures Built(pre + "?" + post, [arg], quote) == pre + quote(arg) + post
    ensures LastFilled(pre + "?" + post, |pre|, 1)
    ensures TailFits(pre + "?" + post, 1) <==> |post| <= HEADER
    ensures Restored(pre + "?" + post, 1, pre + quote(arg) + post)
       <==> Restores(pre + quote(arg) + post, |post| - HEADER, |pre + quote(arg) + post|)
  {
    hide Restores;
    var q, k := pre + "?" + post, |pre|;
    assert forall p :: 0 <= p < |pre| ==> q[p] == pre[p];
    assert forall p :: 0 <= p < |post| ==> q[k + 1 + p] == post[p];
    forall p | 0 <= p < |q| ensures q[p] == '?' <==> p == k {
      if p < k { assert pre[p] in pre; } else if k < p { assert post[p - k - 1] in post; }
    }
    PlaceholderAt(q, k, arg, quote);
    assert q[..k] == pre && q[k + 1..] == post;
  }

  lemma PlaceholderAt(q: string, k: nat, arg: string, quote: string -> string)
    requires 1 <= k < |q| && forall p :: 0 <= p < |q| ==> (q[p] == '?' <==> p == k)
    ensures Built(q, [arg], quote) == q[..k] + quote(arg) + q[k + 1..]
    ensures LastFilled(q, k, 1)
  {
    var texts := Quoted([arg], quote) + [quote("0")];
    FillKeep(q, 1, k, texts);
    FillKeep(q, k + 1, |q|, texts[1..]);
    assert Fill(q, |q|, texts[1..]) == "";
    assert q[..k] == [q[0]] + q[1..k] && q[k + 1..|q|] == q[k + 1..];
    Assoc([q[0]], q[1..k], quote(arg) + q[k + 1..]);
    Assoc(q[..k], quote(arg), q[k + 1..]);
    assert Filled(q, k, 1) by { CountBehind(q, 1, k); }
  }

  lemma {:induction false} CountBehind(q: string, i: nat, k: nat)
    requires i <= k <= |q| && forall p :: i <= p < k ==> q[p] != '?'
    ensures Placeholders(q, i) == Placeholders(q, k)
    decreases k - i
  {
    if k <= i {
    } else {
      CountBehind(q, i + 1, k);
    }
  }

  /** One argument and thirty bytes behind its placeholder: the query is written over
      before it is executed. */
  method SpilledQuery() returns (built: string, executed: string)
    ensures built == "select " + "7" + " from a_rather_long_table_name" && executed != built
  {
    hide Text, Built, TailFits, Restored, Turns, Unwritten, Restores;
    var quote := (t: string) => t;
    var pre, post := "select ", " from a_rather_long_table_name";
    built := pre + "7" + post;
    OnePlaceholder(pre, post, "7", quote);
    NotRestored(built, |post| - HEADER);
    RoomForOne(38, "7");
    executed := RunFresh(pre + "?" + post, "7", quote);
  }

  lemma NotRestored(t: string, k: int)
    ensures 4 <= k ==> !Restores(t, k, |t|)
    ensures k == 1 && |t| == 57 && t[56] == '9' ==> Restores(t, k, |t|)
  {
    assert |t| == 57 ==> t[56..] == [t[56]];
  }

  /** Seventeen bytes behind it: one is written over, but with the length of the text,
      which has 57 characters and ends with the character of code 57. */
  method RestoredQuery() returns (executed: string)
    ensures executed == "select * from t where stamp > " + "1262304000" + " limit 5 offset 9"
  {
    hide Text, Built, TailFits, Restored, Turns, Unwritten, Restores;
    var quote := (t: string) => t;
    var pre, arg, post := "select * from t where stamp > ", "1262304000", " limit 5 offset 9";
    PlainText(pre, arg, post);
    OnePlaceholder(pre, post, arg, quote);
    NotRestored(pre + arg + post, |post| - HEADER);
    RoomForOne(48, arg);
    executed := RunFresh(pre + "?" + post, arg, quote);
  }

  lemma PlainText(pre: string, arg: string, post: string)
    requires pre == "select * from t where stamp > " && arg == "1262304000" && post == " limit 5 offset 9"
    ensures '?' !in pre && '?' !in post && '\0' !in pre + arg + post
    ensures |pre + arg + post| == 57 && (pre + arg + post)[56] == '9'
  {
    assert '\0' !in pre && '\0' !in arg && '\0' !in post;
  }

  /** A query with one argument in a fresh region. */
  method RunFresh(q: string, arg: string, quote: string -> string) returns (executed: string)
    requires forall t :: |quote(t)| <= 2 * |t|
    requires HEADER + |q| + 1 + Turns(0, |q|, [Held(arg), Printed("0")]) <= 2000
    ensures executed == Built(q, [arg], quote)
       <==> && '\0' !in Built(q, [arg], quote)
            && (TailFits(q, 1) || Restored(q, 1, Built(q, [arg], quote)))
  {
    hide Text, Built, TailFits, Restored, Turns, Unwritten;
    var args := [Held(arg)];
    assert args + [Printed("0")] == [Held(arg), Printed("0")] && Texts(args) == [arg];
    var a := new Arena(2000);
    executed := RunQuery(a, Held(q), args, quote);
  }

  lemma RoomForOne(l: nat, arg: string)
    requires l <= 50 && |arg| <= 10
    ensures HEADER + l + 1 + Turns(0, l, [Held(arg), Printed("0")]) <= 2000
  {
    assert [Held(arg), Printed("0")][1..] == [Printed("0")] && [Printed("0")][1..] == [];
  }

  lemma FillEnd(q: string, i: nat, rest: seq<string>)
    requires i <= |q| && (i == |q| || rest == [])
    ensures Fill(q, i, rest) == q[i..]
  {
    if i < |q| { FillNone(q, i); }
  }
}
