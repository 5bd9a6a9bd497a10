/**
 The JSON reader (lua_json.c): mutually recursive scanners with a shared cursor
 that build tables on the Lua stack.  The texts it is meant for are those of
 RFC 8259, sections 2, 4, 5 and 7.
 */
module LuaJson {
  import opened Str

  /** The byte at a place of fresh arena memory that is never written. */
  const GAP := '\0'

  datatype Key = Index(n: nat) | Name(s: string)

  /** Lua values, tables as maps. */
  datatype Value = Nil | Text(s: string) | Number(n: nat) | Table(entries: map<Key, Value>)

  /** The result of a parser: the Lua error for a nil table key, or the value
      pushed and the cursor. */
  datatype Outcome = LuaError | Parsed(v: Value, o: nat)

  // ----- Character tests ----------------------------------------------------------

  predicate JsonSpace(c: char) {
    c == ' ' || c == '\r' || c == '\n' || c == '\t'
  }

  predicate NotJsonSpace(c: char) {
    !JsonSpace(c)
  }

  predicate IsBracket(c: char) {
    c == '{' || c == '(' || c == '[' || c == '}' || c == ']' || c == ')'
  }

  predicate TokenEnd(c: char) {
    c == '"' || c == ':' || JsonSpace(c) || IsBracket(c) || c == ','
  }

  predicate ItemEnd(c: char) {
    c == ']' || c == ','
  }

  predicate MemberEnd(c: char) {
    c == '}' || c == ','
  }

  // ----- Lua tables ----------------------------------------------------------------

  /** `lua_settable` with a non-nil key: a nil value removes the entry. */
  function Set(t: map<Key, Value>, k: Key, v: Value): map<Key, Value> {
    if v.Nil? then t - {k} else t[k := v]
  }

  function ToKey(v: Value): Key
    requires v.Text? || v.Number?
  {
    if v.Text? then Name(v.s) else Index(v.n)
  }

  // ----- What the scanners compute ----------------------------------------------------

  function Blank(n: nat): string {
    seq(n, _ => GAP)
  }

  /** The loop of `quoted_string` behind the opening quote: `i` characters are
      consumed, `data` is what is stored, `blank` the untouched buffer. */
  function QuoteFrom(s: string, b: nat, data: string, blank: string): (r: (Value, nat))
    ensures r.1 >= b + |data|
    decreases |s| - b - |data|
  {
    var i := |data|;
    if |s| <= b + i || s[b + i] == '"' then (if i > 0 then Text(data) else Nil, b + i)
    else if s[b + i] == '\\' then
      if b + i + 1 < |s| then QuoteFrom(s, b, data + [GAP, s[b + i + 1]], blank)
      else (Text(if i > 0 then data else blank), b + i + 2)
    else QuoteFrom(s, b, data + [s[b + i]], blank)
  }

  function Quote(s: string, o: nat): (Value, nat) {
    QuoteFrom(s, if At(s, o) == '"' then o + 1 else o, "", Blank(if o < |s| then |s| - o else 0))
  }

  function Token(s: string, o: nat): (Value, nat) {
    var e := Until(s, o, TokenEnd);
    (if o < e then Text(s[o..e]) else Nil, e)
  }

  function ParseValue(s: string, q: nat): (r: Outcome)
    ensures r.Parsed? ==> q <= r.o
    decreases |s| - q, 1
  {
    if IsBracket(At(s, q)) then ParseJson(s, q)
    else if At(s, q) == '"' then var (v, o) := Quote(s, q); Parsed(v, o)
    else var (v, o) := Token(s, q); Parsed(v, o)
  }

  /** `parse_json_object`, which hands over to `parse_array` at a `[`. */
  function ParseJson(s: string, o: nat): (r: Outcome)
    requires o < |s|
    ensures r.Parsed? ==> o < r.o && r.v.Table?
    decreases |s| - o, 0
  {
    if s[o] == '[' then ArrayLoop(s, o + 1, 0, map[]) else ObjectLoop(s, o + 1, map[])
  }

  /** The loop of `parse_array` from position `q` with `j` elements so far. */
  function ArrayLoop(s: string, q: nat, j: nat, t: map<Key, Value>): (r: Outcome)
    ensures r.Parsed? ==> q <= r.o && r.v.Table?
    decreases |s| - q, 3
  {
    if |s| <= q then Parsed(Table(t), q)
    else if JsonSpace(s[q]) then ArrayLoop(s, q + 1, j, t)
    else if s[q] == ']' then Parsed(Table(t), q + 1)
    else ArrayItem(s, ParseValue(s, q), j, t)
  }

  /** The same behind an element. */
  function ArrayItem(s: string, item: Outcome, j: nat, t: map<Key, Value>): (r: Outcome)
    ensures r.Parsed? ==> item.Parsed? && item.o < r.o && r.v.Table?
    decreases if item.Parsed? && item.o <= |s| then |s| - item.o else 0, 2
  {
    if item.LuaError? then LuaError
    else
      var t' := Set(t, Index(j + 1), item.v);
      var e := Until(s, item.o, ItemEnd);
      if At(s, e) == ']' then Parsed(Table(t'), e + 1) else ArrayLoop(s, e + 1, j + 1, t')
  }

  /** The loop of `parse_json_object` from position `q`. */
  function ObjectLoop(s: string, q: nat, t: map<Key, Value>): (r: Outcome)
    ensures r.Parsed? ==> q <= r.o && r.v.Table?
    decreases |s| - q, 3
  {
    if |s| <= q then Parsed(Table(t), q)
    else if JsonSpace(s[q]) then ObjectLoop(s, q + 1, t)
    else if s[q] == '}' then Parsed(Table(t), q + 1)
    else ObjectMember(s, KeyOf(s, q).0, ParseValue(s, ValueStart(s, q)), t)
  }

  /** The key of a member, and where its value starts. */
  function KeyOf(s: string, q: nat): (r: (Value, nat))
    ensures q <= r.1
  {
    if At(s, q) == '"' then Quote(s, q) else Token(s, q)
  }

  function ValueStart(s: string, q: nat): (w: nat)
    ensures q < w
  {
    Until(s, Until(s, KeyOf(s, q).1, IsColon) + 1, NotJsonSpace)
  }

  /** The same behind a member. */
  function ObjectMember(s: string, key: Value, value: Outcome, t: map<Key, Value>): (r: Outcome)
    ensures r.Parsed? ==> value.Parsed? && value.o < r.o && r.v.Table?
    decreases if value.Parsed? && value.o <= |s| then |s| - value.o else 0, 2
  {
    if value.LuaError? || !key.Text? then LuaError
    else
      var t' := Set(t, Name(key.s), value.v);
      var e := Until(s, value.o, MemberEnd);
      if At(s, e) == '}' then Parsed(Table(t'), e + 1) else ObjectLoop(s, e + 1, t')
  }

  // ----- How much of the stack they take ------------------------------------------------

  function Max(a: nat, b: nat): nat {
    if a < b then b else a
  }

  /** The most slots the parser of a value has in use at once.  A table that is being
      filled takes one, and one more for the key while its value is parsed. */
  function ValueSlots(s: string, q: nat): nat
    decreases |s| - q, 1
  {
    if IsBracket(At(s, q)) then JsonSlots(s, q) else 1
  }

  function JsonSlots(s: string, o: nat): nat
    requires o < |s|
    decreases |s| - o, 0
  {
    1 + if s[o] == '[' then ArraySlots(s, o + 1) else ObjectSlots(s, o + 1)
  }

  /** The same of the loops, above their table. */
  function ArraySlots(s: string, q: nat): nat
    decreases |s| - q, 2
  {
    if |s| <= q || s[q] == ']' then 0
    else if JsonSpace(s[q]) then ArraySlots(s, q + 1)
    else
      var item := ParseValue(s, q);
      var e := if item.Parsed? then Until(s, item.o, ItemEnd) else |s|;
      Max(1 + ValueSlots(s, q), if item.LuaError? || At(s, e) == ']' then 0 else ArraySlots(s, e + 1))
  }

  function ObjectSlots(s: string, q: nat): nat
    decreases |s| - q, 2
  {
    if |s| <= q || s[q] == '}' then 0
    else if JsonSpace(s[q]) then ObjectSlots(s, q + 1)
    else
      var w := ValueStart(s, q);
      var value := ParseValue(s, w);
      var e := if value.Parsed? then Until(s, value.o, MemberEnd) else |s|;
      Max(1 + ValueSlots(s, w),
          if value.LuaError? || !KeyOf(s, q).0.Text? || At(s, e) == '}' then 0 else ObjectSlots(s, e + 1))
  }

  // ----- The scanners themselves --------------------------------------------------------

  /** The Lua stack, and the highest it has been. */
  class Lua {
    var stack: seq<Value>
    ghost var peak: nat

    method Push(v: Value)
      modifies this
      ensures stack == old(stack) + [v] && peak == Max(old(peak), |stack|)
    {
      stack := stack + [v];
      peak := Max(peak, |stack|);
    }

    /** `lua_settable(n)`, with only the key and the value above the table: both are
        popped; `false` is the Lua error for a nil key. */
    method SetTable(n: nat) returns (ok: bool)
      requires |stack| == n + 3 && stack[n].Table?
      requires stack[n + 1].Text? || stack[n + 1].Number? || stack[n + 1].Nil?
      modifies this
      ensures peak == old(peak)
      ensures ok <==> !old(stack)[n + 1].Nil?
      ensures ok ==>
        stack == old(stack)[..n] + [Table(Set(old(stack)[n].entries, ToKey(old(stack)[n + 1]), old(stack)[n + 2]))]
    {
      var k, v := stack[n + 1], stack[n + 2];
      if k.Nil? { return false; }
      stack := stack[..n] + [Table(Set(stack[n].entries, ToKey(k), v))];
      return true;
    }

    /** `quoted_string` */
    method QuotedString(s: string, o: nat) returns (o': nat)
      requires o < |s|
      modifies this
      ensures o <= o' && stack == old(stack) + [Quote(s, o).0] && o' == Quote(s, o).1
      ensures peak == Max(old(peak), |old(stack)| + 1)
    {
      var b := if At(s, o) == '"' then o + 1 else o;
      var blank := Blank(|s| - o);
      var data, i := "", 0;
      while b + i < |s|
        invariant |data| == i && QuoteFrom(s, b, data, blank) == Quote(s, o)
        decreases |s| - i
      {
        if At(s, b + i) == '"' { break; }
        if At(s, b + i) == '\\' {
          i := i + 1;
          if b + i >= |s| {
            Push(Text(if i > 1 then data else blank));
            return b + i + 1;
          }
          data := data + [GAP, At(s, b + i)];
        } else {
          data := data + [At(s, b + i)];
        }
        i := i + 1;
      }
      Push(if i > 0 then Text(data) else Nil);
      return b + i;
    }

    /** `token` */
    method ReadToken(s: string, o: nat) returns (o': nat)
      modifies this
      ensures o <= o' && stack == old(stack) + [Token(s, o).0] && o' == Token(s, o).1
      ensures peak == Max(old(peak), |old(stack)| + 1)
    {
      var i := 0;
      while o + i < |s| && !TokenEnd(At(s, o + i))
        invariant o + i <= |s| || i == 0
        invariant forall k :: o <= k < o + i ==> !TokenEnd(s[k])
      {
        i := i + 1;
      }
      if o + i <= |s| { UntilIs(s, o, TokenEnd, o + i); }
      Push(if i > 0 then Text(s[o..o + i]) else Nil);
      return o + i;
    }

    /** The choice between the three parsers; `false` is a Lua error, which unwinds
        the whole call. */
    method ReadValue(s: string, q: nat) returns (ok: bool, o: nat)
      modifies this
      ensures ok <==> ParseValue(s, q).Parsed?
      ensures ok ==> q <= o && stack == old(stack) + [ParseValue(s, q).v] && o == ParseValue(s, q).o
      ensures peak == Max(old(peak), |old(stack)| + ValueSlots(s, q))
      decreases |s| - q, 2
    {
      hide Quote, Token, ParseJson, JsonSlots;
      if IsBracket(At(s, q)) {
        ok, o := ReadObject(s, q);
      } else if At(s, q) == '"' {
        o := QuotedString(s, q);
        ok := true;
      } else {
        o := ReadToken(s, q);
        ok := true;
      }
    }

    /** `parse_array` */
    method ReadArray(s: string, o: nat) returns (ok: bool, o': nat)
      requires o < |s|
      modifies this
      ensures ok <==> ArrayLoop(s, o + 1, 0, map[]).Parsed?
      ensures ok ==> o < o' && stack == old(stack) + [ArrayLoop(s, o + 1, 0, map[]).v]
      ensures ok ==> o' == ArrayLoop(s, o + 1, 0, map[]).o
      ensures peak == Max(old(peak), |old(stack)| + 1 + ArraySlots(s, o + 1))
      decreases |s| - o, 0
    {
      hide ParseValue, Set, ArrayLoop, ArraySlots, ValueSlots;
      o' := o;
      ghost var all := ArrayLoop(s, o + 1, 0, map[]);
      Push(Table(map[]));
      var n := |stack| - 1;
      ghost var t: map<Key, Value> := map[];
      var q: nat, j: nat, done := o + 1, 0, false;
      while q < |s| && !done
        invariant o < q && |stack| == n + 1 && stack[..n] == old(stack) && stack[n] == Table(t)
        invariant all == if done then Parsed(Table(t), q) else ArrayLoop(s, q, j, t)
        invariant Max(old(peak), |old(stack)| + 1 + ArraySlots(s, o + 1))
               == Max(peak, |old(stack)| + 1 + if done then 0 else ArraySlots(s, q)) && n < peak
        decreases |s| - q, !done
      {
        ArrayAt(s, q, j, t);
        ArraySlotsAt(s, q);
        if JsonSpace(At(s, q)) {
          q := q + 1;
        } else if At(s, q) == ']' {
          q, done := q + 1, true;
        } else {
          j := j + 1;
          Push(Number(j));
          var off;
          ok, off := ReadValue(s, q);
          if !ok { return; }
          var e := SkipTo(s, off, ItemEnd);
          var _ := SetTable(n);
          t := Set(t, Index(j), ParseValue(s, q).v);
          done := At(s, e) == ']';
          q := e + 1;
        }
      }
      ArrayAt(s, q, j, t);
      ArraySlotsAt(s, q);
      return true, q;
    }

    /** `parse_json_object` */
    method ReadObject(s: string, o: nat) returns (ok: bool, o': nat)
      requires o < |s|
      modifies this
      ensures ok <==> ParseJson(s, o).Parsed?
      ensures ok ==> o < o' && stack == old(stack) + [ParseJson(s, o).v] && o' == ParseJson(s, o).o
      ensures peak == Max(old(peak), |old(stack)| + JsonSlots(s, o))
      decreases |s| - o, 1
    {
      hide ParseValue, Set, ObjectLoop, ArrayLoop, ObjectMember, ArraySlots, ObjectSlots, ValueSlots;
      o' := o;
      if s[o] == '[' {
        ok, o' := ReadArray(s, o);
        return;
      }
      ghost var all := ObjectLoop(s, o + 1, map[]);
      Push(Table(map[]));
      var n := |stack| - 1;
      ghost var t: map<Key, Value> := map[];
      var q: nat, done := o + 1, false;
      while q < |s| && !done
        invariant o < q && |stack| == n + 1 && stack[..n] == old(stack) && stack[n] == Table(t)
        invariant all == if done then Parsed(Table(t), q) else ObjectLoop(s, q, t)
        invariant Max(old(peak), |old(stack)| + 1 + ObjectSlots(s, o + 1))
               == Max(peak, |old(stack)| + 1 + if done then 0 else ObjectSlots(s, q)) && n < peak
        decreases |s| - q, !done
      {
        ObjectAt(s, q, t);
        ObjectSlotsAt(s, q);
        if JsonSpace(At(s, q)) {
          q := q + 1;
        } else if At(s, q) == '}' {
          q, done := q + 1, true;
        } else {
          ok, q, done := ReadMember(s, q, n, t);
          if !ok { return; }
          t := stack[n].entries;
        }
      }
      ObjectAt(s, q, t);
      ObjectSlotsAt(s, q);
      return true, q;
    }

    /** One turn of its loop at a member. */
    method ReadMember(s: string, q: nat, n: nat, ghost t: map<Key, Value>) returns (ok: bool, q': nat, done: bool)
      requires q < |s| && !JsonSpace(s[q]) && s[q] != '}' && |stack| == n + 1 && stack[n] == Table(t)
      modifies this
      ensures !ok ==> ObjectLoop(s, q, t).LuaError?
      ensures ok ==> q < q' && |stack| == n + 1 && stack[..n] == old(stack)[..n] && stack[n].Table?
      ensures ok && done ==> ObjectLoop(s, q, t) == Parsed(stack[n], q')
      ensures ok && !done ==> ObjectLoop(s, q, t) == ObjectLoop(s, q', stack[n].entries)
      ensures old(peak) <= peak
      ensures Max(old(peak), n + 1 + ObjectSlots(s, q))
           == Max(peak, n + 1 + if ok && !done then ObjectSlots(s, q') else 0)
      decreases |s| - q, 3
    {
      hide ParseValue, Set, ObjectLoop, ObjectSlots, ValueSlots, KeyOf, ValueStart;
      ObjectAt(s, q, t);
      ObjectSlotsAt(s, q);
      q', done := q, false;
      var off;
      ok, off := ReadPair(s, q);
      if !ok { return; }
      KeyKinds(s, q);
      ok := SetTable(n);
      if !ok { return; }
      var e := SkipTo(s, off, MemberEnd);
      done := At(s, e) == '}';
      q' := e + 1;
    }

    /** Key and value of a member. */
    method ReadPair(s: string, q: nat) returns (ok: bool, o: nat)
      requires q < |s|
      modifies this
      ensures ok <==> ParseValue(s, ValueStart(s, q)).Parsed?
      ensures ok ==> stack == old(stack) + [KeyOf(s, q).0, ParseValue(s, ValueStart(s, q)).v]
      ensures ok ==> q < o == ParseValue(s, ValueStart(s, q)).o
      ensures peak == Max(old(peak), |old(stack)| + 1 + ValueSlots(s, ValueStart(s, q)))
      decreases |s| - q, 2
    {
      hide ParseValue, ValueSlots, Quote, Token;
      SlotsPositive(s, ValueStart(s, q));
      if At(s, q) == '"' {
        o := QuotedString(s, q);
      } else {
        o := ReadToken(s, q);
      }
      o := SkipTo(s, o, IsColon);
      o := SkipTo(s, o + 1, NotJsonSpace);
      ok, o := ReadValue(s, o);
    }

    /** `parse_json_string`: `none` when the text has no bracket at all. */
    method ReadText(s: string) returns (ok: bool, none: bool)
      modifies this
      ensures none <==> |s| <= Until(s, 0, IsBracket)
      ensures none ==> stack == old(stack)
      ensures !none ==> var r := ParseJson(s, Until(s, 0, IsBracket));
                        (ok <==> r.Parsed?) && (ok ==> stack == old(stack) + [r.v])
      ensures none ==> peak == old(peak)
      ensures !none ==> peak == Max(old(peak), |old(stack)| + JsonSlots(s, Until(s, 0, IsBracket)))
    {
      hide ParseJson, JsonSlots;
      var o := SkipTo(s, 0, IsBracket);
      if o >= |s| { return true, true; }
      ok, o := ReadObject(s, o);
      none := false;
    }
  }

  /** One unfolding of the slots each loop takes. */
  lemma ArraySlotsAt(s: string, q: nat)
    ensures |s| <= q || s[q] == ']' ==> ArraySlots(s, q) == 0
    ensures q < |s| && JsonSpace(s[q]) ==> ArraySlots(s, q) == ArraySlots(s, q + 1)
    ensures q < |s| && !JsonSpace(s[q]) && s[q] != ']' ==>
              var item := ParseValue(s, q);
              ArraySlots(s, q) == Max(1 + ValueSlots(s, q),
                if item.LuaError? || At(s, Until(s, item.o, ItemEnd)) == ']' then 0
                else ArraySlots(s, Until(s, item.o, ItemEnd) + 1))
  {
  }

  lemma ObjectSlotsAt(s: string, q: nat)
    ensures |s| <= q || s[q] == '}' ==> ObjectSlots(s, q) == 0
    ensures q < |s| && JsonSpace(s[q]) ==> ObjectSlots(s, q) == ObjectSlots(s, q + 1)
    ensures q < |s| && !JsonSpace(s[q]) && s[q] != '}' ==>
              var value := ParseValue(s, ValueStart(s, q));
              ObjectSlots(s, q) == Max(1 + ValueSlots(s, ValueStart(s, q)),
                if value.LuaError? || !KeyOf(s, q).0.Text? || At(s, Until(s, value.o, MemberEnd)) == '}' then 0
                else ObjectSlots(s, Until(s, value.o, MemberEnd) + 1))
  {
    hide ParseValue, ValueSlots, KeyOf, ValueStart, Until, Max;
  }

  /** The brackets at or behind `q`. */
  function Brackets(s: string, q: nat): nat
    decreases |s| - q
  {
    if |s| <= q then 0 else (if IsBracket(s[q]) then 1 else 0) + Brackets(s, q + 1)
  }

  lemma {:induction false} BracketsFewer(s: string, q: nat, e: nat)
    requires q <= e
    ensures Brackets(s, e) <= Brackets(s, q)
    decreases e - q
  {
    if q == e {
    } else {
      BracketsFewer(s, q + 1, e);
    }
  }

  /** Two slots a bracket and one more are enough, on arbitrary bytes. */
  lemma {:induction false} SlotsBound(s: string, q: nat)
    ensures ValueSlots(s, q) <= 2 * Brackets(s, q) + 1
    decreases |s| - q, 1
  {
    hide ArraySlots, ObjectSlots, ParseValue, JsonSpace;
    if IsBracket(At(s, q)) {
      LoopSlots(s, q + 1);
    }
  }

  lemma {:induction false} LoopSlots(s: string, q: nat)
    ensures ArraySlots(s, q) <= 2 * Brackets(s, q) + 2 && ObjectSlots(s, q) <= 2 * Brackets(s, q) + 2
    decreases |s| - q, 2
  {
    hide ArraySlots, ObjectSlots, ParseValue, ValueSlots, JsonSpace, Brackets, KeyOf;
    ArraySlotsAt(s, q);
    ObjectSlotsAt(s, q);
    if q < |s| {
      var item, w := ParseValue(s, q), ValueStart(s, q);
      var value := ParseValue(s, w);
      SlotsBound(s, q);
      SlotsBound(s, w);
      BracketsFewer(s, q, w);
      LoopSlots(s, q + 1);
      BracketsFewer(s, q, q + 1);
      if item.Parsed? {
        var e := Until(s, item.o, ItemEnd);
        LoopSlots(s, e + 1);
        BracketsFewer(s, q, e + 1);
      }
      if value.Parsed? {
        var e := Until(s, value.o, MemberEnd);
        LoopSlots(s, e + 1);
        BracketsFewer(s, q, e + 1);
      }
    }
  }

  /** And needed: nested arrays take two slots each, up to the innermost element. */
  lemma {:induction false} DeepSlots(s: string, q: nat)
    requires q < |s| && s[|s| - 1] == 'x' && forall k :: q <= k < |s| - 1 ==> s[k] == '['
    ensures ValueSlots(s, q) == 2 * (|s| - 1 - q) + 1
    decreases |s| - q
  {
    hide ArraySlots, ParseValue;
    if q == |s| - 1 {
    } else {
      DeepSlots(s, q + 1);
      ArraySlotsAt(s, q + 1);
      DeepEnd(s, q + 1);
      ArraySlotsAt(s, Until(s, ParseValue(s, q + 1).o, ItemEnd) + 1);
    }
  }

  /** Nothing is left behind the innermost element. */
  lemma {:induction false} DeepEnd(s: string, q: nat)
    requires q < |s| && s[|s| - 1] == 'x' && forall k :: q <= k < |s| - 1 ==> s[k] == '['
    ensures ParseValue(s, q).Parsed? && |s| <= ParseValue(s, q).o
    ensures |s| <= Until(s, ParseValue(s, q).o, ItemEnd)
    decreases |s| - q
  {
    hide ArrayLoop, ArrayItem, Set;
    if q == |s| - 1 {
      UntilIs(s, q, TokenEnd, |s|);
    } else {
      DeepEnd(s, q + 1);
      ArrayAt(s, q + 1, 0, map[]);
      DeepItem(s, ParseValue(s, q + 1));
    }
  }

  lemma DeepItem(s: string, item: Outcome)
    requires item.Parsed? && |s| <= item.o && |s| <= Until(s, item.o, ItemEnd)
    ensures ArrayItem(s, item, 0, map[]).Parsed? && |s| <= ArrayItem(s, item, 0, map[]).o
  {
  }

  lemma SlotsPositive(s: string, q: nat)
    ensures 1 <= ValueSlots(s, q)
  {
    hide ArraySlots, ObjectSlots;
  }

  /** A key is a text or nil. */
  lemma KeyKinds(s: string, q: nat)
    ensures KeyOf(s, q).0.Text? || KeyOf(s, q).0.Nil?
  {
    hide Blank;
    QuoteKind(s, if At(s, q) == '"' then q + 1 else q, "", Blank(if q < |s| then |s| - q else 0));
  }

  lemma {:induction false} QuoteKind(s: string, b: nat, data: string, blank: string)
    ensures QuoteFrom(s, b, data, blank).0.Text? || QuoteFrom(s, b, data, blank).0.Nil?
    decreases |s| - b - |data|
  {
    var i := b + |data|;
    if i < |s| && s[i] == '\\' {
      if i + 1 < |s| { QuoteKind(s, b, data + [GAP, s[i + 1]], blank); }
    } else if i < |s| && s[i] != '"' {
      QuoteKind(s, b, data + [s[i]], blank);
    }
  }

  /** The scanning loops between values. */
  method SkipTo(s: string, q: nat, stop: char -> bool) returns (e: nat)
    ensures e == Until(s, q, stop)
  {
    e := q;
    while e < |s| && !stop(At(s, e))
      invariant q <= e && (e <= |s| || e == q)
      invariant forall k :: q <= k < e ==> !stop(s[k])
    {
      e := e + 1;
    }
    if e <= |s| { UntilIs(s, q, stop, e); }
  }

  /** One unfolding of each loop. */
  lemma ArrayAt(s: string, q: nat, j: nat, t: map<Key, Value>)
    ensures |s| <= q ==> ArrayLoop(s, q, j, t) == Parsed(Table(t), q)
    ensures q < |s| && JsonSpace(s[q]) ==> ArrayLoop(s, q, j, t) == ArrayLoop(s, q + 1, j, t)
    ensures q < |s| && s[q] == ']' ==> ArrayLoop(s, q, j, t) == Parsed(Table(t), q + 1)
    ensures q < |s| && !JsonSpace(s[q]) && s[q] != ']' ==>
              ArrayLoop(s, q, j, t) == ArrayItem(s, ParseValue(s, q), j, t)
  {
  }

  lemma ObjectAt(s: string, q: nat, t: map<Key, Value>)
    ensures |s| <= q ==> ObjectLoop(s, q, t) == Parsed(Table(t), q)
    ensures q < |s| && JsonSpace(s[q]) ==> ObjectLoop(s, q, t) == ObjectLoop(s, q + 1, t)
    ensures q < |s| && s[q] == '}' ==> ObjectLoop(s, q, t) == Parsed(Table(t), q + 1)
    ensures q < |s| && !JsonSpace(s[q]) && s[q] != '}' ==>
              ObjectLoop(s, q, t) == ObjectMember(s, KeyOf(s, q).0, ParseValue(s, ValueStart(s, q)), t)
  {
  }
}
