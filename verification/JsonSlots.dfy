/**
 How much of the Lua stack the JSON reader (lua_json.c) takes on the texts of
 RFC 8259: two slots for each level of nesting.
 */
module JsonSlots {
  import opened Str
  import opened LuaJson
  import opened JsonTexts

  /** How deep arrays and objects are nested. */
  function Depth(t: Json): nat {
    match t
    case Atom(_) => 0
    case Quoted(_) => 0
    case Array(items) => 1 + ItemsDepth(items)
    case Object(members) => 1 + MembersDepth(members)
  }

  function ItemsDepth(items: Items): nat {
    match items
    case NoItems(_) => 0
    case Item(_, item, _, more) => Max(Depth(item), ItemsDepth(more))
    case LastItem(_, item, _) => Depth(item)
  }

  function MembersDepth(members: Members): nat {
    match members
    case NoMembers(_) => 0
    case Member(_, _, _, _, value, _, more) => Max(Depth(value), MembersDepth(more))
    case LastMember(_, _, _, _, value, _) => Depth(value)
  }

  lemma {:induction false} SpacesSlots(s: string, q: nat, ws: string)
    requires Reads(s, q, ws) && Spaces(ws)
    ensures ArraySlots(s, q) == ArraySlots(s, q + |ws|) && ObjectSlots(s, q) == ObjectSlots(s, q + |ws|)
    decreases |ws|
  {
    hide ArraySlots, ObjectSlots, Reads, JsonSpace, ParseValue, ValueSlots;
    if ws == "" {
    } else {
      ReadsAt(s, q, ws, 0);
      SpacesTail(ws);
      ReadsSplit(s, q, ws[..1], ws[1..]);
      ArraySlotsAt(s, q);
      ObjectSlotsAt(s, q);
      SpacesSlots(s, q + 1, ws[1..]);
    }
  }

  lemma {:induction false} DepthBound(s: string, q: nat, t: Json, next: char)
    requires Reads(s, q, Print(t) + [next]) && Valid(t) && TokenEnd(next)
    ensures ValueSlots(s, q) <= 2 * Depth(t) + 1
    decreases t, 0
  {
    hide ArraySlots, ObjectSlots, PrintItems, PrintMembers;
    FirstChar(s, q, t, next);
    match t {
      case Atom(_) =>
      case Quoted(_) =>
      case Array(items) =>
        ReadsSplit(s, q, Print(t), [next]);
        ReadsSplit(s, q, "[", PrintItems(items));
        ItemsBound(s, q + 1, items);
      case Object(members) =>
        ReadsSplit(s, q, Print(t), [next]);
        ReadsSplit(s, q, "{", PrintMembers(members));
        MembersBound(s, q + 1, members);
    }
  }

  lemma {:induction false} ItemBound(s: string, q: nat, pre: string, item: Json, post: string, end: char)
    requires Reads(s, q, pre + (Print(item) + (post + [end])))
    requires Spaces(pre) && Valid(item) && Spaces(post) && ItemEnd(end)
    ensures var e := q + |pre| + |Print(item)| + |post|;
            ArraySlots(s, q) <= Max(2 * Depth(item) + 2, if end == ']' then 0 else ArraySlots(s, e + 1))
    decreases item, 1
  {
    hide ArraySlots, ObjectSlots, Print, Valid, Actual, ParseValue, ValueSlots, Depth, Until, Reads, Spaces, Behind;
    ReadsSplit(s, q, pre, Print(item) + (post + [end]));
    SpacesSlots(s, q, pre);
    var q' := q + |pre|;
    NextChar(s, q', item, post, end);
    FirstChar(s, q', item, (post + [end])[0]);
    ValueReads(s, q', item, (post + [end])[0]);
    ItemEnds(s, q', item, post, end, ItemEnd);
    DepthBound(s, q', item, (post + [end])[0]);
    ArraySlotsAt(s, q');
  }

  lemma {:induction false} ItemsBound(s: string, q: nat, items: Items)
    requires Reads(s, q, PrintItems(items)) && ValidItems(items)
    ensures ArraySlots(s, q) <= 2 * ItemsDepth(items) + 2
    decreases items, 0
  {
    hide ArraySlots, Print, Valid, Depth, Reads, ValueSlots, ParseValue;
    match items {
      case NoItems(ws) =>
        ReadsSplit(s, q, ws, "]");
        SpacesSlots(s, q, ws);
        ReadsAt(s, q + |ws|, "]", 0);
        ArraySlotsAt(s, q + |ws|);
      case Item(pre, item, post, more) =>
        var rest := PrintItems(more);
        assert PrintItems(items) == (pre + (Print(item) + (post + [',']))) + rest;
        ReadsSplit(s, q, pre + (Print(item) + (post + [','])), rest);
        ItemBound(s, q, pre, item, post, ',');
        ItemsBound(s, q + |pre| + |Print(item)| + |post| + 1, more);
      case LastItem(pre, item, post) =>
        ItemBound(s, q, pre, item, post, ']');
    }
  }

  lemma {:induction false} MemberBound(s: string, q: nat, pre: string, key: string, mid: string, gap: string,
        value: Json, post: string, end: char)
    requires Reads(s, q, pre + (PrintKey(key, mid, gap) + (Print(value) + (post + [end]))))
    requires Spaces(pre) && WellQuoted(key, 0) && Spaces(mid) && Spaces(gap)
    requires Valid(value) && Spaces(post) && MemberEnd(end)
    ensures var e := q + |pre| + |PrintKey(key, mid, gap)| + |Print(value)| + |post|;
            ObjectSlots(s, q) <= Max(2 * Depth(value) + 2, if end == '}' then 0 else ObjectSlots(s, e + 1))
    decreases value, 1
  {
    hide ArraySlots, ObjectSlots, Print, Valid, Actual, ParseValue, ValueSlots, Depth, PrintKey, Quote, WellQuoted,
      Behind, Stored, Reads, Spaces, NotJsonSpace, KeyOf, ValueStart, Until;
    var k, tail := PrintKey(key, mid, gap), post + [end];
    var rest := Print(value) + tail;
    ReadsSplit(s, q, pre, k + rest);
    SpacesSlots(s, q, pre);
    var q' := q + |pre|;
    var w := q' + |k|;
    ReadsSplit(s, q', k, rest);
    ValueStarts(s, w, value, tail, rest);
    NextChar(s, w, value, post, end);
    MemberPlaces(s, q', key, mid, gap, rest);
    ValueReads(s, w, value, tail[0]);
    ItemEnds(s, w, value, post, end, MemberEnd);
    DepthBound(s, w, value, tail[0]);
    ObjectSlotsAt(s, q');
  }

  /** Where a member starts, and where its value does. */
  lemma MemberPlaces(s: string, q: nat, key: string, mid: string, gap: string, rest: string)
    requires Reads(s, q, PrintKey(key, mid, gap) + rest)
    requires WellQuoted(key, 0) && Spaces(mid) && Spaces(gap) && rest != "" && !JsonSpace(rest[0])
    ensures q < |s| && s[q] == '"' && !JsonSpace(s[q]) && ValueStart(s, q) == q + |PrintKey(key, mid, gap)|
  {
    hide *;
    KeyReads(s, q, key, mid, gap, rest);
    MemberStarts(s, q);
    QuoteIsNoSpace();
  }

  lemma {:induction false} MembersBound(s: string, q: nat, members: Members)
    requires Reads(s, q, PrintMembers(members)) && ValidMembers(members)
    ensures ObjectSlots(s, q) <= 2 * MembersDepth(members) + 2
    decreases members, 0
  {
    hide ObjectSlots, ArraySlots, Print, Valid, PrintKey, Depth, Reads, ValueSlots, ParseValue, KeyOf, ValueStart;
    match members {
      case NoMembers(ws) =>
        ReadsSplit(s, q, ws, "}");
        SpacesSlots(s, q, ws);
        ReadsAt(s, q + |ws|, "}", 0);
        ObjectSlotsAt(s, q + |ws|);
      case Member(pre, key, mid, gap, value, post, more) =>
        var rest := PrintMembers(more);
        var here := pre + (PrintKey(key, mid, gap) + (Print(value) + (post + [','])));
        assert PrintMembers(members) == here + rest;
        ReadsSplit(s, q, here, rest);
        MemberBound(s, q, pre, key, mid, gap, value, post, ',');
        MembersBound(s, q + |here|, more);
      case LastMember(pre, key, mid, gap, value, post) =>
        MemberBound(s, q, pre, key, mid, gap, value, post, '}');
    }
  }

  /** An array or object of RFC 8259, in any white space and with anything behind it,
      takes at most two slots for each level and one more. */
  lemma TextBound(s: string, o: nat, t: Json)
    requires Reads(s, o, Print(t)) && Valid(t) && (t.Array? || t.Object?)
    ensures o < |s| && JsonSlots(s, o) <= 2 * Depth(t) + 1
  {
    hide ArraySlots, ObjectSlots, PrintItems, PrintMembers;
    ReadsAt(s, o, Print(t), 0);
    match t {
      case Array(items) =>
        ReadsSplit(s, o, "[", PrintItems(items));
        ItemsBound(s, o + 1, items);
      case Object(members) =>
        ReadsSplit(s, o, "{", PrintMembers(members));
        MembersBound(s, o + 1, members);
    }
  }
}
