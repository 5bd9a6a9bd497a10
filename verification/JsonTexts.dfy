/**
 The JSON texts of RFC 8259 as trees that keep their white space, what the reader
 makes of each of them, and when that is what the text means.
 */
module JsonTexts {
  import opened Wrappers
  import opened Str
  import opened Headers
  import opened LuaJson

  /** A value as written.  An atom is a number or a literal name; the body of a
      quoted string is what stands between its quotes, escapes included. */
  datatype Json =
    | Atom(text: string)
    | Quoted(body: string)
    | Array(items: Items)
    | Object(members: Members)

  datatype Items =
    | NoItems(ws: string)
    | Item(pre: string, item: Json, post: string, more: Items)
    | LastItem(pre: string, item: Json, post: string)

  datatype Members =
    | NoMembers(ws: string)
    | Member(pre: string, key: string, mid: string, gap: string, value: Json, post: string, more: Members)
    | LastMember(pre: string, key: string, mid: string, gap: string, value: Json, post: string)

  // ----- Printing ---------------------------------------------------------------

  function Print(t: Json): string {
    match t
    case Atom(text) => text
    case Quoted(body) => "\"" + body + "\""
    case Array(items) => "[" + PrintItems(items)
    case Object(members) => "{" + PrintMembers(members)
  }

  /** The elements with the closing bracket. */
  function PrintItems(items: Items): string {
    match items
    case NoItems(ws) => ws + "]"
    case Item(pre, item, post, more) => pre + (Print(item) + (post + ("," + PrintItems(more))))
    case LastItem(pre, item, post) => pre + (Print(item) + (post + "]"))
  }

  function PrintKey(key: string, mid: string, gap: string): string {
    "\"" + key + "\"" + mid + ":" + gap
  }

  function PrintMembers(members: Members): string {
    match members
    case NoMembers(ws) => ws + "}"
    case Member(pre, key, mid, gap, value, post, more) =>
      pre + (PrintKey(key, mid, gap) + (Print(value) + (post + ("," + PrintMembers(more)))))
    case LastMember(pre, key, mid, gap, value, post) =>
      pre + (PrintKey(key, mid, gap) + (Print(value) + (post + "}")))
  }

  // ----- The grammar ---------------------------------------------------------------

  /** White space by section 2 of RFC 8259. */
  predicate Spaces(ws: string) {
    forall c <- ws :: c == ' ' || c == '\t' || c == '\n' || c == '\r'
  }

  predicate IsDigits(s: string) {
    s != "" && forall c <- s :: '0' <= c <= '9'
  }

  /** The parts of a number by section 6 of RFC 8259. */
  predicate IsInt(s: string) {
    s == "0" || (IsDigits(s) && s[0] != '0')
  }

  predicate IsFrac(s: string) {
    s == "" || (s[0] == '.' && IsDigits(s[1..]))
  }

  predicate IsExp(s: string) {
    s == "" || ((s[0] == 'e' || s[0] == 'E')
                && (IsDigits(s[1..]) || (|s| > 1 && (s[1] == '+' || s[1] == '-') && IsDigits(s[2..]))))
  }

  ghost predicate NumberOf(text: string, minus: string, whole: string, frac: string, exp: string) {
    && text == minus + whole + frac + exp
    && (minus == "" || minus == "-") && IsInt(whole) && IsFrac(frac) && IsExp(exp)
  }

  /** The literal names of section 3 of RFC 8259, and numbers. */
  ghost predicate IsAtom(text: string) {
    || text == "true" || text == "false" || text == "null"
    || exists minus, whole, frac, exp :: NumberOf(text, minus, whole, frac, exp)
  }

  /** Every backslash is followed by a character, no quote is bare. */
  predicate WellQuoted(body: string, i: nat)
    decreases |body| - i
  {
    |body| <= i
    || (if body[i] == '\\' then i + 1 < |body| && WellQuoted(body, i + 2)
        else body[i] != '"' && WellQuoted(body, i + 1))
  }

  ghost predicate Valid(t: Json) {
    match t
    case Atom(text) => IsAtom(text)
    case Quoted(body) => WellQuoted(body, 0)
    case Array(items) => ValidItems(items)
    case Object(members) => ValidMembers(members)
  }

  ghost predicate ValidItems(items: Items) {
    match items
    case NoItems(ws) => Spaces(ws)
    case Item(pre, item, post, more) =>
      Spaces(pre) && Valid(item) && Spaces(post) && !more.NoItems? && ValidItems(more)
    case LastItem(pre, item, post) => Spaces(pre) && Valid(item) && Spaces(post)
  }

  ghost predicate ValidMembers(members: Members) {
    match members
    case NoMembers(ws) => Spaces(ws)
    case Member(pre, key, mid, gap, value, post, more) =>
      Spaces(pre) && WellQuoted(key, 0) && Spaces(mid) && Spaces(gap) && Valid(value) && Spaces(post)
      && !more.NoMembers? && ValidMembers(more)
    case LastMember(pre, key, mid, gap, value, post) =>
      Spaces(pre) && WellQuoted(key, 0) && Spaces(mid) && Spaces(gap) && Valid(value) && Spaces(post)
  }

  // ----- What the reader makes of a text ----------------------------------------------

  /** The stored form of a string body: an escape leaves a gap where its backslash
      was, and keeps the character behind it. */
  function Gapped(body: string, i: nat): (r: string)
    ensures i <= |body| ==> |r| == |body| - i
    decreases |body| - i
  {
    if |body| <= i then ""
    else if body[i] == '\\' && i + 1 < |body| then [GAP, body[i + 1]] + Gapped(body, i + 2)
    else [body[i]] + Gapped(body, i + 1)
  }

  /** An empty string is read as nil. */
  function Stored(body: string): Value {
    if body == "" then Nil else Text(Gapped(body, 0))
  }

  /** The value read; `None` is the Lua error for an empty key. */
  function Actual(t: Json): (r: Option<Value>) {
    match t
    case Atom(text) => Some(Text(text))
    case Quoted(body) => Some(Stored(body))
    case Array(items) => ToTable(ActualItems(items, 0, map[]))
    case Object(members) => ToTable(ActualMembers(members, map[]))
  }

  function ToTable(m: Option<map<Key, Value>>): Option<Value> {
    if m.None? then None else Some(Table(m.value))
  }

  function ActualItems(items: Items, j: nat, t: map<Key, Value>): Option<map<Key, Value>> {
    match items
    case NoItems(_) => Some(t)
    case Item(_, item, _, more) =>
      var v := Actual(item);
      if v.None? then None else ActualItems(more, j + 1, Set(t, Index(j + 1), v.value))
    case LastItem(_, item, _) =>
      var v := Actual(item);
      if v.None? then None else Some(Set(t, Index(j + 1), v.value))
  }

  function SetMember(t: map<Key, Value>, key: string, v: Option<Value>): Option<map<Key, Value>> {
    if v.None? || key == "" then None else Some(Set(t, Name(Gapped(key, 0)), v.value))
  }

  function ActualMembers(members: Members, t: map<Key, Value>): Option<map<Key, Value>> {
    match members
    case NoMembers(_) => Some(t)
    case Member(_, key, _, _, value, _, more) =>
      var t' := SetMember(t, key, Actual(value));
      if t'.None? then None else ActualMembers(more, t'.value)
    case LastMember(_, key, _, _, value, _) => SetMember(t, key, Actual(value))
  }

  /** The outcome of a parser that pushes `v` and stops at `o`. */
  function OutcomeOf(v: Option<Value>, o: nat): Outcome {
    if v.None? then LuaError else Parsed(v.value, o)
  }

  // ----- The reader on printed texts ------------------------------------------------------

  /** One step of the loop, and of the stored form. */
  lemma QuoteStep(s: string, b: nat, data: string, blank: string, body: string)
    requires |data| < |body| && WellQuoted(body, |data|)
    requires b + |data| < |s| && s[b + |data|] == body[|data|]
    ensures body[|data|] == '\\' ==> |data| + 1 < |body| && WellQuoted(body, |data| + 2)
    ensures body[|data|] != '\\' ==> WellQuoted(body, |data| + 1)
    ensures var i := |data|;
            var kept := if body[i] == '\\' then [GAP, body[i + 1]] else [body[i]];
            && Gapped(body, i) == kept + Gapped(body, i + |kept|)
            && (b + i + |kept| <= |s| && s[b + i + |kept| - 1] == body[i + |kept| - 1] ==>
                  QuoteFrom(s, b, data, blank) == QuoteFrom(s, b, data + kept, blank))
  {
  }

  lemma {:induction false} QuoteReads(s: string, b: nat, body: string, data: string, blank: string)
    requires |data| <= |body| && Reads(s, b, body + "\"") && WellQuoted(body, |data|)
    ensures var all := data + Gapped(body, |data|);
            QuoteFrom(s, b, data, blank) == (if all != "" then Text(all) else Nil, b + |body|)
    decreases |body| - |data|
  {
    hide Reads, QuoteFrom, Gapped, WellQuoted;
    var i := |data|;
    ReadsAt(s, b, body + "\"", i);
    if i < |body| {
      QuoteStep(s, b, data, blank, body);
      var kept := if body[i] == '\\' then [GAP, body[i + 1]] else [body[i]];
      ReadsAt(s, b, body + "\"", i + |kept| - 1);
      QuoteReads(s, b, body, data + kept, blank);
      Assoc(data, kept, Gapped(body, i + |kept|));
    } else {
      QuoteEnd(s, b, data, blank, body);
    }
  }

  lemma QuoteEnd(s: string, b: nat, data: string, blank: string, body: string)
    requires |data| == |body| && b + |data| < |s| && s[b + |data|] == '"'
    ensures data + Gapped(body, |data|) == data
    ensures QuoteFrom(s, b, data, blank) == (if data != "" then Text(data) else Nil, b + |data|)
  {
  }

  /** A quoted string is stored without its quotes; the cursor stays on the closing
      one. */
  lemma QuotedReads(s: string, q: nat, body: string)
    requires Reads(s, q, "\"" + body + "\"") && WellQuoted(body, 0)
    ensures Quote(s, q) == (Stored(body), q + 1 + |body|)
    ensures s[q] == '"' && s[q + 1 + |body|] == '"'
  {
    hide Blank, Gapped, QuoteFrom, WellQuoted, Reads;
    assert "\"" + body + "\"" == "\"" + (body + "\"");
    ReadsSplit(s, q, "\"", body + "\"");
    ReadsSplit(s, q + 1, body, "\"");
    ReadsAt(s, q, "\"", 0);
    ReadsAt(s, q + 1 + |body|, "\"", 0);
    QuoteReads(s, q + 1, body, "", Blank(|s| - q));
    assert "" + Gapped(body, 0) == Gapped(body, 0);
  }

  /** The characters of atoms: none of them ends a token. */
  lemma AtomChars(text: string)
    requires IsAtom(text)
    ensures text != "" && forall c <- text :: !TokenEnd(c)
  {
    if minus, whole, frac, exp :| NumberOf(text, minus, whole, frac, exp) {
      NumberChars(minus, whole, frac, exp);
    }
  }

  predicate NumberChar(c: char) {
    '0' <= c <= '9' || c == '-' || c == '+' || c == '.' || c == 'e' || c == 'E'
  }

  lemma NumberChars(minus: string, whole: string, frac: string, exp: string)
    requires (minus == "" || minus == "-") && IsInt(whole) && IsFrac(frac) && IsExp(exp)
    ensures whole != "" && forall c <- minus + whole + frac + exp :: NumberChar(c)
  {
    assert frac != "" ==> frac == [frac[0]] + frac[1..];
    assert exp != "" ==> exp == [exp[0]] + exp[1..];
    assert |exp| > 1 ==> exp[1..] == [exp[1]] + exp[2..];
  }

  /** A token is everything up to the first quote, colon, comma, bracket of any kind or
      white space. */
  lemma TokenReads(s: string, q: nat, text: string, next: char)
    requires Reads(s, q, text + [next]) && text != ""
    requires (forall c <- text :: c !in "\":,{}[]() \t\r\n") && next in "\":,{}[]() \t\r\n"
    ensures Token(s, q) == (Text(text), q + |text|)
  {
    var ends := "\":,{}[]() \t\r\n";
    assert forall c :: c in ends <==> TokenEnd(c);
    TokenStops(s, q, text, next);
  }

  lemma TokenStops(s: string, q: nat, text: string, next: char)
    requires Reads(s, q, text + [next]) && text != "" && (forall c <- text :: !TokenEnd(c)) && TokenEnd(next)
    ensures Token(s, q) == (Text(text), q + |text|) && !TokenEnd(s[q])
  {
    ReadsSplit(s, q, text, [next]);
    ReadsAt(s, q + |text|, [next], 0);
    forall k | q <= k < q + |text| ensures !TokenEnd(s[k]) {
      ReadsAt(s, q, text, k - q);
      assert text[k - q] in text;
    }
    UntilIs(s, q, TokenEnd, q + |text|);
    assert s[q..q + |text|] == text;
  }

  /** An atom ends where something that ends a token follows. */
  lemma AtomReads(s: string, q: nat, text: string, next: char)
    requires Reads(s, q, text + [next]) && IsAtom(text) && TokenEnd(next)
    ensures Token(s, q) == (Text(text), q + |text|) && !TokenEnd(s[q])
  {
    AtomChars(text);
    TokenStops(s, q, text, next);
  }

  /** Scanning over white space, perhaps behind a closing quote. */
  lemma SpacesUntil(s: string, q: nat, ws: string, next: char, stop: char -> bool, quoted: bool)
    requires Reads(s, q, ws) && Spaces(ws) && q + |ws| < |s| && s[q + |ws|] == next && stop(next)
    requires forall c :: JsonSpace(c) ==> !stop(c)
    requires quoted ==> q > 0 && s[q - 1] == '"' && !stop('"')
    ensures Until(s, if quoted then q - 1 else q, stop) == q + |ws|
  {
    forall k | q <= k < q + |ws| ensures !stop(s[k]) {
      ReadsAt(s, q, ws, k - q);
      assert ws[k - q] in ws;
    }
    UntilIs(s, if quoted then q - 1 else q, stop, q + |ws|);
  }

  lemma SpacesTail(ws: string)
    requires ws != "" && Spaces(ws)
    ensures ws == ws[..1] + ws[1..] && JsonSpace(ws[0]) && Spaces(ws[1..])
  {
    assert ws[0] in ws && forall c <- ws[1..] :: c in ws;
  }

  lemma {:induction false} ArraySpaces(s: string, q: nat, ws: string, j: nat, t: map<Key, Value>)
    requires Reads(s, q, ws) && Spaces(ws)
    ensures ArrayLoop(s, q, j, t) == ArrayLoop(s, q + |ws|, j, t)
    decreases |ws|
  {
    hide ArrayLoop, Reads, JsonSpace;
    if ws == "" {
    } else {
      ReadsAt(s, q, ws, 0);
      SpacesTail(ws);
      ReadsSplit(s, q, ws[..1], ws[1..]);
      ArrayAt(s, q, j, t);
      ArraySpaces(s, q + 1, ws[1..], j, t);
    }
  }

  lemma {:induction false} ObjectSpaces(s: string, q: nat, ws: string, t: map<Key, Value>)
    requires Reads(s, q, ws) && Spaces(ws)
    ensures ObjectLoop(s, q, t) == ObjectLoop(s, q + |ws|, t)
    decreases |ws|
  {
    hide ObjectLoop, Reads, JsonSpace;
    if ws == "" {
    } else {
      ReadsAt(s, q, ws, 0);
      SpacesTail(ws);
      ReadsSplit(s, q, ws[..1], ws[1..]);
      ObjectAt(s, q, t);
      ObjectSpaces(s, q + 1, ws[1..], t);
    }
  }

  /** Where the cursor stands behind a value: on the closing quote of a string, else
      just past the value. */
  function Behind(t: Json, q: nat): nat {
    if t.Quoted? then q + |t.body| + 1 else q + |Print(t)|
  }

  /** The first character of a value, and the parser it selects. */
  lemma FirstChar(s: string, q: nat, t: Json, next: char)
    requires Reads(s, q, Print(t) + [next]) && Valid(t)
    ensures q < |s| && !JsonSpace(s[q]) && s[q] != ']' && s[q] != '}'
    ensures s[q] == '"' <==> t.Quoted?
    ensures IsBracket(s[q]) <==> t.Array? || t.Object?
    ensures t.Array? ==> s[q] == '['
    ensures t.Object? ==> s[q] == '{'
  {
    hide Reads, IsAtom;
    ReadsSplit(s, q, Print(t), [next]);
    FirstPrinted(t);
    ReadsAt(s, q, Print(t), 0);
  }

  lemma FirstPrinted(t: Json)
    requires Valid(t)
    ensures Print(t) != ""
    ensures t.Atom? ==> !TokenEnd(Print(t)[0])
    ensures t.Quoted? ==> Print(t)[0] == '"'
    ensures t.Array? ==> Print(t)[0] == '['
    ensures t.Object? ==> Print(t)[0] == '{'
  {
    hide IsAtom;
    if t.Atom? {
      AtomChars(t.text);
      assert t.text[0] in t.text;
    }
  }

  /** The parser choice on a printed value. */
  lemma {:induction false} ValueReads(s: string, q: nat, t: Json, next: char)
    requires Reads(s, q, Print(t) + [next]) && Valid(t) && TokenEnd(next)
    ensures ParseValue(s, q) == OutcomeOf(Actual(t), Behind(t, q))
    decreases t, 0
  {
    hide ArrayLoop, ObjectLoop, PrintItems, PrintMembers;
    FirstChar(s, q, t, next);
    match t {
      case Atom(text) =>
        AtomReads(s, q, text, next);
      case Quoted(body) =>
        ReadsSplit(s, q, Print(t), [next]);
        QuotedReads(s, q, body);
      case Array(items) =>
        ReadsSplit(s, q, Print(t), [next]);
        ReadsSplit(s, q, "[", PrintItems(items));
        ItemsRead(s, q + 1, items, 0, map[]);
      case Object(members) =>
        ReadsSplit(s, q, Print(t), [next]);
        ReadsSplit(s, q, "{", PrintMembers(members));
        MembersRead(s, q + 1, members, map[]);
    }
  }

  /** A value with the white space behind it, up to its separator. */
  lemma ItemEnds(s: string, q: nat, t: Json, post: string, end: char, stop: char -> bool)
    requires Reads(s, q, Print(t) + (post + [end])) && Valid(t) && Spaces(post) && stop(end)
    requires forall c :: JsonSpace(c) || c == '"' ==> !stop(c)
    ensures Until(s, Behind(t, q), stop) == q + |Print(t)| + |post|
    ensures s[q + |Print(t)| + |post|] == end
  {
    hide Reads, Quote, Stored;
    ReadsSplit(s, q, Print(t), post + [end]);
    ReadsSplit(s, q + |Print(t)|, post, [end]);
    ReadsAt(s, q + |Print(t)| + |post|, [end], 0);
    if t.Quoted? { QuotedReads(s, q, t.body); }
    SpacesUntil(s, q + |Print(t)|, post, end, stop, t.Quoted?);
  }

  /** What directly follows a value ends a token. */
  lemma NextChar(s: string, q: nat, t: Json, post: string, end: char)
    requires Reads(s, q, Print(t) + (post + [end])) && Spaces(post) && TokenEnd(end)
    ensures var next := (post + [end])[0]; TokenEnd(next) && Reads(s, q, Print(t) + [next])
  {
    var rest := post + [end];
    if post != "" { assert post[0] in post; }
    assert rest == [rest[0]] + rest[1..];
    assert Print(t) + rest == (Print(t) + [rest[0]]) + rest[1..];
    ReadsSplit(s, q, Print(t) + [rest[0]], rest[1..]);
  }

  /** One element, up to its separator or the closing bracket. */
  lemma {:induction false} ItemReads(s: string, q: nat, pre: string, item: Json, post: string, end: char, j: nat,
        t: map<Key, Value>)
    requires Reads(s, q, pre + (Print(item) + (post + [end])))
    requires Spaces(pre) && Valid(item) && Spaces(post) && ItemEnd(end)
    ensures var e := q + |pre| + |Print(item)| + |post|;
            var v := Actual(item);
            ArrayLoop(s, q, j, t) ==
              if v.None? then LuaError
              else if end == ']' then Parsed(Table(Set(t, Index(j + 1), v.value)), e + 1)
              else ArrayLoop(s, e + 1, j + 1, Set(t, Index(j + 1), v.value))
    decreases item, 1
  {
    hide ArrayLoop, Print, Valid, Actual, ParseValue, Set;
    ReadsSplit(s, q, pre, Print(item) + (post + [end]));
    ArraySpaces(s, q, pre, j, t);
    var q' := q + |pre|;
    NextChar(s, q', item, post, end);
    FirstChar(s, q', item, (post + [end])[0]);
    ValueReads(s, q', item, (post + [end])[0]);
    ItemEnds(s, q', item, post, end, ItemEnd);
    ArrayAt(s, q', j, t);
  }

  lemma {:induction false} ItemsRead(s: string, q: nat, items: Items, j: nat, t: map<Key, Value>)
    requires Reads(s, q, PrintItems(items)) && ValidItems(items)
    ensures ArrayLoop(s, q, j, t) == OutcomeOf(ToTable(ActualItems(items, j, t)), q + |PrintItems(items)|)
    decreases items, 0
  {
    hide ArrayLoop, Print, Valid, Actual, Set;
    match items {
      case NoItems(ws) =>
        ReadsSplit(s, q, ws, "]");
        ArraySpaces(s, q, ws, j, t);
        ReadsAt(s, q + |ws|, "]", 0);
        ArrayAt(s, q + |ws|, j, t);
      case Item(pre, item, post, more) =>
        var rest := PrintItems(more);
        assert PrintItems(items) == (pre + (Print(item) + (post + [',']))) + rest;
        ReadsSplit(s, q, pre + (Print(item) + (post + [','])), rest);
        ItemReads(s, q, pre, item, post, ',', j, t);
        if Actual(item).Some? {
          ItemsRead(s, q + |pre| + |Print(item)| + |post| + 1, more, j + 1, Set(t, Index(j + 1), Actual(item).value));
        }
      case LastItem(pre, item, post) =>
        ItemReads(s, q, pre, item, post, ']', j, t);
    }
  }

  /** A key with its colon and the white space around it. */
  lemma KeyReads(s: string, q: nat, key: string, mid: string, gap: string, rest: string)
    requires Reads(s, q, PrintKey(key, mid, gap) + rest)
    requires WellQuoted(key, 0) && Spaces(mid) && Spaces(gap) && rest != "" && !JsonSpace(rest[0])
    ensures q < |s| && s[q] == '"' && Quote(s, q) == (Stored(key), q + 1 + |key|)
    ensures Until(s, Until(s, q + 1 + |key|, IsColon) + 1, NotJsonSpace) == q + |PrintKey(key, mid, gap)|
  {
    hide Quote, WellQuoted, Stored, Reads, Until, Spaces, PrintKey;
    KeyPieces(s, q, key, mid, gap, rest);
    var n := |key| + 2;
    QuotedReads(s, q, key);
    SpacesUntil(s, q + n, mid, ':', IsColon, true);
    SpacesUntil(s, q + n + |mid| + 1, gap, rest[0], NotJsonSpace, false);
  }

  lemma KeyPieces(s: string, q: nat, key: string, mid: string, gap: string, rest: string)
    requires Reads(s, q, PrintKey(key, mid, gap) + rest) && rest != ""
    ensures var n, w := |key| + 2, q + |PrintKey(key, mid, gap)|;
            && Reads(s, q, "\"" + key + "\"") && Reads(s, q + n, mid) && Reads(s, q + n + |mid| + 1, gap)
            && q < |s| && s[q] == '"' && q + n + |mid| < |s| && s[q + n + |mid|] == ':'
            && w == q + n + |mid| + 1 + |gap| < |s| && s[w] == rest[0]
  {
    hide Reads;
    var k := "\"" + key + "\"";
    ReadsSplit(s, q, PrintKey(key, mid, gap), rest);
    ReadsAt(s, q + |PrintKey(key, mid, gap)|, rest, 0);
    ReadsSplit(s, q, k + mid + ":", gap);
    ReadsSplit(s, q, k + mid, ":");
    ReadsAt(s, q + |k| + |mid|, ":", 0);
    ReadsSplit(s, q, k, mid);
    ReadsAt(s, q, k, 0);
  }

  lemma {:induction false} MemberReads(s: string, q: nat, pre: string, key: string, mid: string, gap: string,
                                       value: Json, post: string, end: char, t: map<Key, Value>)
    requires Reads(s, q, pre + (PrintKey(key, mid, gap) + (Print(value) + (post + [end]))))
    requires Spaces(pre) && WellQuoted(key, 0) && Spaces(mid) && Spaces(gap)
    requires Valid(value) && Spaces(post) && MemberEnd(end)
    ensures var e := q + |pre| + |PrintKey(key, mid, gap)| + |Print(value)| + |post|;
            var t' := SetMember(t, key, Actual(value));
            ObjectLoop(s, q, t) ==
              if t'.None? then LuaError
              else if end == '}' then Parsed(Table(t'.value), e + 1)
              else ObjectLoop(s, e + 1, t'.value)
    decreases value, 1
  {
    hide ObjectLoop, Print, Valid, Actual, ParseValue, Set, PrintKey, Quote, Gapped, WellQuoted, Behind, SetMember,
      Stored, Reads, Spaces, ObjectMember, NotJsonSpace, KeyOf, ValueStart, Until;
    var k, tail := PrintKey(key, mid, gap), post + [end];
    var rest := Print(value) + tail;
    ReadsSplit(s, q, pre, k + rest);
    ObjectSpaces(s, q, pre, t);
    var q' := q + |pre|;
    var w := q' + |k|;
    ReadsSplit(s, q', k, rest);
    ValueStarts(s, w, value, tail, rest);
    NextChar(s, w, value, post, end);
    KeyReads(s, q', key, mid, gap, rest);
    ValueReads(s, w, value, tail[0]);
    ItemEnds(s, w, value, post, end, MemberEnd);
    MemberAt(s, q', key, w, t);
    MemberIs(s, key, Actual(value), Behind(value, w), w + |Print(value)| + |post|, end, t);
  }

  lemma QuoteIsNoSpace()
    ensures !JsonSpace('"')
  {
  }

  lemma MemberAt(s: string, q: nat, key: string, w: nat, t: map<Key, Value>)
    requires q < |s| && s[q] == '"' && Quote(s, q) == (Stored(key), q + 1 + |key|)
    requires Until(s, Until(s, q + 1 + |key|, IsColon) + 1, NotJsonSpace) == w
    ensures ObjectLoop(s, q, t) == ObjectMember(s, Stored(key), ParseValue(s, w), t)
  {
    hide *;
    QuoteIsNoSpace();
    ObjectAt(s, q, t);
    MemberStarts(s, q);
  }

  /** A key in quotes. */
  lemma MemberStarts(s: string, q: nat)
    requires q < |s| && s[q] == '"'
    ensures KeyOf(s, q) == Quote(s, q)
    ensures ValueStart(s, q) == Until(s, Until(s, Quote(s, q).1, IsColon) + 1, NotJsonSpace)
  {
    hide Quote, Until;
  }

  lemma MemberIs(s: string, key: string, v: Option<Value>, o: nat, e: nat, end: char, t: map<Key, Value>)
    requires Until(s, o, MemberEnd) == e < |s| && s[e] == end && MemberEnd(end)
    ensures var t' := SetMember(t, key, v);
            ObjectMember(s, Stored(key), OutcomeOf(v, o), t) ==
              if t'.None? then LuaError
              else if end == '}' then Parsed(Table(t'.value), e + 1)
              else ObjectLoop(s, e + 1, t'.value)
  {
    hide ObjectLoop, Set, Gapped;
  }

  lemma ValueStarts(s: string, w: nat, value: Json, tail: string, rest: string)
    requires Valid(value) && rest == Print(value) + tail
    ensures rest != "" && !JsonSpace(rest[0])
  {
    if value.Atom? {
      AtomChars(value.text);
      assert value.text[0] in value.text;
    }
  }

  lemma {:induction false} MembersRead(s: string, q: nat, members: Members, t: map<Key, Value>)
    requires Reads(s, q, PrintMembers(members)) && ValidMembers(members)
    ensures ObjectLoop(s, q, t) == OutcomeOf(ToTable(ActualMembers(members, t)), q + |PrintMembers(members)|)
    decreases members, 0
  {
    hide ObjectLoop, Print, Valid, Actual, PrintKey, SetMember;
    match members {
      case NoMembers(ws) =>
        ReadsSplit(s, q, ws, "}");
        ObjectSpaces(s, q, ws, t);
        ReadsAt(s, q + |ws|, "}", 0);
        ObjectAt(s, q + |ws|, t);
      case Member(pre, key, mid, gap, value, post, more) =>
        var rest := PrintMembers(more);
        var here := pre + (PrintKey(key, mid, gap) + (Print(value) + (post + [','])));
        assert PrintMembers(members) == here + rest;
        ReadsSplit(s, q, here, rest);
        MemberReads(s, q, pre, key, mid, gap, value, post, ',', t);
        var t' := SetMember(t, key, Actual(value));
        if t'.Some? {
          MembersRead(s, q + |here|, more, t'.value);
        }
      case LastMember(pre, key, mid, gap, value, post) =>
        MemberReads(s, q, pre, key, mid, gap, value, post, '}', t);
    }
  }

  /** The reader on every RFC 8259 array or object, in any white space and with
      anything behind it: the value is `Actual`, the cursor just past the bracket. */
  lemma ReadsText(s: string, o: nat, t: Json)
    requires Reads(s, o, Print(t)) && Valid(t) && (t.Array? || t.Object?)
    ensures o < |s| && ParseJson(s, o) == OutcomeOf(Actual(t), o + |Print(t)|)
  {
    hide ArrayLoop, ObjectLoop, PrintItems, PrintMembers;
    ReadsAt(s, o, Print(t), 0);
    match t {
      case Array(items) =>
        ReadsSplit(s, o, "[", PrintItems(items));
        ItemsRead(s, o + 1, items, 0, map[]);
      case Object(members) =>
        ReadsSplit(s, o, "{", PrintMembers(members));
        MembersRead(s, o + 1, members, map[]);
    }
  }
}
