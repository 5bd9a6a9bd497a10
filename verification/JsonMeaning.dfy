/**
 What a JSON text means by section 7 of RFC 8259, and exactly which texts the
 reader understands: those without empty strings and without escapes.
 */
module JsonMeaning {
  import opened Wrappers
  import Str
  import opened LuaJson
  import opened JsonTexts

  // ----- Strings -------------------------------------------------------------------

  /** The UTF-8 bytes of a code point. */
  function Utf8(cp: nat): (r: string)
    ensures |r| <= 4
  {
    if cp < 0x80 then [cp as char]
    else if cp < 0x800 then [(0xC0 + cp / 0x40) as char, (0x80 + cp % 0x40) as char]
    else if cp < 0x1_0000 then
      [(0xE0 + cp / 0x1000) as char, (0x80 + cp / 0x40 % 0x40) as char, (0x80 + cp % 0x40) as char]
    else
      [(0xF0 + cp / 0x4_0000 % 8) as char, (0x80 + cp / 0x1000 % 0x40) as char,
       (0x80 + cp / 0x40 % 0x40) as char, (0x80 + cp % 0x40) as char]
  }

  /** The character behind a backslash, other than `u`. */
  function Control(c: char): char {
    match c
    case 'b' => 8 as char
    case 'f' => 12 as char
    case 'n' => '\n'
    case 'r' => '\r'
    case 't' => '\t'
    case _ => c
  }

  function CodeUnit(body: string, i: nat): nat
    requires i + 6 <= |body|
  {
    Str.Value(body[i + 2..i + 6], 16)
  }

  /** Whether a surrogate pair is written at `i`. */
  predicate IsPair(body: string, i: nat) {
    && i + 12 <= |body| && body[i + 6] == '\\' && body[i + 7] == 'u'
    && 0xD800 <= CodeUnit(body, i) < 0xDC00 && 0xDC00 <= CodeUnit(body, i + 6) < 0xE000
  }

  /** The string a body denotes, from position `i` on, as UTF-8 bytes. */
  function Unescape(body: string, i: nat): string
    decreases |body| - i
  {
    if |body| <= i then ""
    else if body[i] != '\\' then [body[i]] + Unescape(body, i + 1)
    else if |body| <= i + 1 then ""
    else if body[i + 1] == 'u' && i + 6 <= |body| then
      if IsPair(body, i) then
        Utf8(0x1_0000 + (CodeUnit(body, i) - 0xD800) * 0x400 + (CodeUnit(body, i + 6) - 0xDC00))
        + Unescape(body, i + 12)
      else Utf8(CodeUnit(body, i)) + Unescape(body, i + 6)
    else [Control(body[i + 1])] + Unescape(body, i + 2)
  }

  predicate NoEscape(body: string) {
    '\\' !in body
  }

  lemma {:induction false} PlainText(body: string, i: nat)
    requires i <= |body| && NoEscape(body)
    ensures Unescape(body, i) == body[i..] && Gapped(body, i) == body[i..]
    decreases |body| - i
  {
    if |body| <= i {
    } else {
      assert body[i] in body;
      PlainText(body, i + 1);
      assert body[i..] == [body[i]] + body[i + 1..];
    }
  }

  /** An escape always takes more characters than it denotes. */
  lemma {:induction false} EscapeShrinks(body: string, i: nat)
    requires i <= |body|
    ensures |Unescape(body, i)| <= |body| - i
    ensures '\\' in body[i..] ==> |Unescape(body, i)| < |body| - i
    decreases |body| - i
  {
    if |body| <= i {
    } else {
      if body[i] != '\\' {
        EscapeShrinks(body, i + 1);
        assert body[i..] == [body[i]] + body[i + 1..];
      } else if i + 1 < |body| {
        if body[i + 1] == 'u' && i + 6 <= |body| {
          EscapeShrinks(body, if IsPair(body, i) then i + 12 else i + 6);
        } else {
          EscapeShrinks(body, i + 2);
        }
      }
    }
  }

  /** A string is stored as what it denotes exactly when it is not empty and has no
      escape. */
  lemma StoredIff(body: string)
    ensures Stored(body) == Text(Unescape(body, 0)) <==> body != "" && NoEscape(body)
    ensures NoEscape(body) <==> |Unescape(body, 0)| == |body|
    ensures |Unescape(body, 0)| <= |body|
  {
    assert body[0..] == body;
    EscapeShrinks(body, 0);
    if NoEscape(body) { PlainText(body, 0); }
  }

  // ----- Trees -----------------------------------------------------------------------

  /** What a text means: arrays keyed from 1, atoms as strings, and of several
      members with one name the last. */
  function Meaning(t: Json): Value {
    match t
    case Atom(text) => Text(text)
    case Quoted(body) => Text(Unescape(body, 0))
    case Array(items) => Table(MeantItems(items, 0, map[]))
    case Object(members) => Table(MeantMembers(members, map[]))
  }

  function MeantItems(items: Items, j: nat, t: map<Key, Value>): map<Key, Value> {
    match items
    case NoItems(_) => t
    case Item(_, item, _, more) => MeantItems(more, j + 1, t[Index(j + 1) := Meaning(item)])
    case LastItem(_, item, _) => t[Index(j + 1) := Meaning(item)]
  }

  function MeantMembers(members: Members, t: map<Key, Value>): map<Key, Value> {
    match members
    case NoMembers(_) => t
    case Member(_, key, _, _, value, _, more) => MeantMembers(more, t[Name(Unescape(key, 0)) := Meaning(value)])
    case LastMember(_, key, _, _, value, _) => t[Name(Unescape(key, 0)) := Meaning(value)]
  }

  /** Neither an empty string nor an escape, in keys and in values. */
  predicate Plain(t: Json) {
    match t
    case Atom(_) => true
    case Quoted(body) => body != "" && NoEscape(body)
    case Array(items) => PlainItems(items)
    case Object(members) => PlainMembers(members)
  }

  predicate PlainItems(items: Items) {
    match items
    case NoItems(_) => true
    case Item(_, item, _, more) => Plain(item) && PlainItems(more)
    case LastItem(_, item, _) => Plain(item)
  }

  predicate PlainMembers(members: Members) {
    match members
    case NoMembers(_) => true
    case Member(_, key, _, _, value, _, more) =>
      key != "" && NoEscape(key) && Plain(value) && PlainMembers(more)
    case LastMember(_, key, _, _, value, _) => key != "" && NoEscape(key) && Plain(value)
  }

  /** The keys of an object, as written. */
  function Keys(members: Members): seq<string> {
    match members
    case NoMembers(_) => []
    case Member(_, key, _, _, _, _, more) => [key] + Keys(more)
    case LastMember(_, key, _, _, _, _) => [key]
  }

  /** The names of an object, and the forms they are stored in. */
  function Names(keys: seq<string>): seq<string> {
    seq(|keys|, k requires 0 <= k < |keys| => Unescape(keys[k], 0))
  }

  function StoredNames(keys: seq<string>): seq<string> {
    seq(|keys|, k requires 0 <= k < |keys| => Gapped(keys[k], 0))
  }

  ghost predicate Distinct(names: seq<string>) {
    forall a, b :: 0 <= a < b < |names| ==> names[a] != names[b]
  }

  /** Names within an object differ, which section 4 of RFC 8259 asks for. */
  ghost predicate DistinctNames(t: Json) {
    match t
    case Atom(_) => true
    case Quoted(_) => true
    case Array(items) => DistinctItems(items)
    case Object(members) => Distinct(Names(Keys(members))) && DistinctMembers(members)
  }

  ghost predicate DistinctItems(items: Items) {
    match items
    case NoItems(_) => true
    case Item(_, item, _, more) => DistinctNames(item) && DistinctItems(more)
    case LastItem(_, item, _) => DistinctNames(item)
  }

  ghost predicate DistinctMembers(members: Members) {
    match members
    case NoMembers(_) => true
    case Member(_, _, _, _, value, _, more) => DistinctNames(value) && DistinctMembers(more)
    case LastMember(_, _, _, _, value, _) => DistinctNames(value)
  }

  // ----- Plain texts are understood -------------------------------------------------------

  lemma {:induction false} PlainUnderstood(t: Json)
    requires Plain(t)
    ensures Actual(t) == Some(Meaning(t))
    decreases t, 0
  {
    match t {
      case Atom(text) =>
      case Quoted(body) => StoredIff(body);
      case Array(items) => PlainItemsUnderstood(items, 0, map[]);
      case Object(members) => PlainMembersUnderstood(members, map[]);
    }
  }

  lemma {:induction false} PlainItemsUnderstood(items: Items, j: nat, t: map<Key, Value>)
    requires PlainItems(items)
    ensures ActualItems(items, j, t) == Some(MeantItems(items, j, t))
    decreases items, 0
  {
    hide Actual, Meaning, Plain;
    match items {
      case NoItems(_) =>
      case Item(_, item, _, more) =>
        PlainUnderstood(item);
        NeverNil(item);
        PlainItemsUnderstood(more, j + 1, t[Index(j + 1) := Meaning(item)]);
      case LastItem(_, item, _) =>
        PlainUnderstood(item);
        NeverNil(item);
    }
  }

  lemma NeverNil(t: Json)
    ensures !Meaning(t).Nil?
  {
  }

  lemma {:induction false} PlainMembersUnderstood(members: Members, t: map<Key, Value>)
    requires PlainMembers(members)
    ensures ActualMembers(members, t) == Some(MeantMembers(members, t))
    decreases members, 0
  {
    hide Actual, Meaning, Plain, Gapped, Unescape;
    match members {
      case NoMembers(_) =>
      case Member(_, key, _, _, value, _, more) =>
        PlainUnderstood(value);
        NeverNil(value);
        StoredIff(key);
        PlainMembersUnderstood(more, t[Name(Unescape(key, 0)) := Meaning(value)]);
      case LastMember(_, key, _, _, value, _) =>
        PlainUnderstood(value);
        NeverNil(value);
        StoredIff(key);
    }
  }

  // ----- Only plain texts are ---------------------------------------------------------------

  /** Entries below the running index stay. */
  lemma {:induction false} ItemsKeep(items: Items, j: nat, t: map<Key, Value>, k: Key)
    requires k.Index? ==> k.n <= j
    ensures var m := ActualItems(items, j, t);
            m.Some? ==> (k in m.value <==> k in t) && (k in t ==> m.value[k] == t[k])
    ensures var m := MeantItems(items, j, t);
            (k in m <==> k in t) && (k in t ==> m[k] == t[k])
    decreases items
  {
    hide Actual, Meaning;
    match items {
      case NoItems(_) =>
      case Item(_, item, _, more) =>
        if Actual(item).Some? { ItemsKeep(more, j + 1, Set(t, Index(j + 1), Actual(item).value), k); }
        ItemsKeep(more, j + 1, t[Index(j + 1) := Meaning(item)], k);
      case LastItem(_, item, _) =>
    }
  }

  lemma {:induction false} UnderstoodPlain(t: Json)
    requires DistinctNames(t) && Actual(t) == Some(Meaning(t))
    ensures Plain(t)
    decreases t, 0
  {
    match t {
      case Atom(text) =>
      case Quoted(body) => StoredIff(body);
      case Array(items) => UnderstoodItems(items, 0, map[]);
      case Object(members) => UnderstoodObject(members);
    }
  }

  lemma {:induction false} UnderstoodItems(items: Items, j: nat, t: map<Key, Value>)
    requires DistinctItems(items) && ActualItems(items, j, t) == Some(MeantItems(items, j, t))
    ensures PlainItems(items)
    decreases items, 0
  {
    hide Actual, Meaning, Plain, DistinctNames;
    match items {
      case NoItems(_) =>
      case Item(_, item, _, more) =>
        var k, v := Index(j + 1), Actual(item).value;
        ItemsKeep(more, j + 1, Set(t, k, v), k);
        ItemsKeep(more, j + 1, t[k := Meaning(item)], k);
        NeverNil(item);
        assert v == Meaning(item);
        UnderstoodPlain(item);
        UnderstoodItems(more, j + 1, t[k := v]);
      case LastItem(_, item, _) =>
        var k, v := Index(j + 1), Actual(item).value;
        NeverNil(item);
        assert MeantItems(items, j, t)[k] == Meaning(item);
        assert v == Meaning(item);
        UnderstoodPlain(item);
    }
  }

  // Objects: first the names must agree, then the values.

  function Total(names: seq<string>): nat {
    if names == [] then 0 else |names[0]| + Total(names[1..])
  }

  function Without(names: seq<string>, k: nat): seq<string>
    requires k < |names|
  {
    names[..k] + names[k + 1..]
  }

  lemma {:induction false} TotalWithout(names: seq<string>, k: nat)
    requires k < |names|
    ensures Total(names) == |names[k]| + Total(Without(names, k))
    decreases k
  {
    if k == 0 {
      assert Without(names, 0) == names[1..];
    } else {
      assert Without(names, k) == [names[0]] + Without(names[1..], k - 1);
      assert Without(names, k)[1..] == Without(names[1..], k - 1);
      TotalWithout(names[1..], k - 1);
    }
  }

  /** Distinct names that all occur in an equally long list have its total length. */
  lemma {:induction false} SameTotal(a: seq<string>, b: seq<string>)
    requires |a| == |b| && Distinct(a) && forall x <- a :: x in b
    ensures Total(a) == Total(b)
  {
    if a == [] {
    } else {
      assert a[0] in a;
      var k :| 0 <= k < |b| && b[k] == a[0];
      var b' := Without(b, k);
      forall x | x in a[1..] ensures x in b' {
        assert x in a && x != a[0];
        var i :| 0 <= i < |b| && b[i] == x;
        assert if i < k then b'[i] == x else b'[i - 1] == x;
      }
      SameTotal(a[1..], b');
      TotalWithout(b, k);
    }
  }

  lemma {:induction false} TotalsPlain(keys: seq<string>)
    ensures Total(Names(keys)) <= Total(StoredNames(keys))
    ensures Total(Names(keys)) == Total(StoredNames(keys)) ==> forall k <- keys :: NoEscape(k)
  {
    hide Unescape, Gapped;
    if keys == [] {
    } else {
      StoredIff(keys[0]);
      TotalsPlain(keys[1..]);
      assert Names(keys)[1..] == Names(keys[1..]) && StoredNames(keys)[1..] == StoredNames(keys[1..]);
      assert |Gapped(keys[0], 0)| == |keys[0]|;
      if Total(Names(keys)) == Total(StoredNames(keys)) {
        forall k | k in keys ensures NoEscape(k) { assert k == keys[0] || k in keys[1..]; }
      }
    }
  }

  /** Every name meant is a key of the meaning; every key read is a stored name. */
  lemma {:induction false} MembersKeys(members: Members, t: map<Key, Value>, n: string)
    ensures n in Names(Keys(members)) || Name(n) in t ==> Name(n) in MeantMembers(members, t)
    ensures var m := ActualMembers(members, t);
            m.Some? && Name(n) in m.value ==> n in StoredNames(Keys(members)) || Name(n) in t
    decreases members
  {
    hide Actual, Meaning, Gapped, Unescape;
    match members {
      case NoMembers(_) =>
      case Member(_, key, _, _, value, _, more) =>
        var t' := SetMember(t, key, Actual(value));
        MembersKeys(more, t[Name(Unescape(key, 0)) := Meaning(value)], n);
        NamesCons(key, Keys(more));
        if t'.Some? { MembersKeys(more, t'.value, n); }
      case LastMember(_, key, _, _, value, _) =>
        NamesCons(key, []);
    }
  }

  lemma NamesCons(key: string, keys: seq<string>)
    ensures Names([key] + keys) == [Unescape(key, 0)] + Names(keys)
    ensures StoredNames([key] + keys) == [Gapped(key, 0)] + StoredNames(keys)
    ensures [key] + [] == [key]
  {
    hide Unescape, Gapped;
  }

  /** A name that does not come again keeps its entry. */
  lemma {:induction false} MembersKeep(members: Members, t: map<Key, Value>, n: string)
    ensures var m := ActualMembers(members, t);
            m.Some? && n !in StoredNames(Keys(members)) ==>
              (Name(n) in m.value <==> Name(n) in t) && (Name(n) in t ==> m.value[Name(n)] == t[Name(n)])
    ensures var m := MeantMembers(members, t);
            n !in Names(Keys(members)) ==>
              (Name(n) in m <==> Name(n) in t) && (Name(n) in t ==> m[Name(n)] == t[Name(n)])
    decreases members
  {
    hide Actual, Meaning, Gapped, Unescape;
    match members {
      case NoMembers(_) =>
      case Member(_, key, _, _, value, _, more) =>
        var t' := SetMember(t, key, Actual(value));
        NamesCons(key, Keys(more));
        MembersKeep(more, t[Name(Unescape(key, 0)) := Meaning(value)], n);
        if t'.Some? { MembersKeep(more, t'.value, n); }
      case LastMember(_, key, _, _, value, _) =>
        NamesCons(key, []);
    }
  }

  lemma {:induction false} UnderstoodObject(members: Members)
    requires Distinct(Names(Keys(members))) && DistinctMembers(members)
    requires ActualMembers(members, map[]) == Some(MeantMembers(members, map[]))
    ensures PlainMembers(members)
    decreases members, 2
  {
    hide MeantMembers, ActualMembers, Names, StoredNames, DistinctMembers, PlainMembers;
    var keys := Keys(members);
    NamesLength(keys);
    forall n | n in Names(keys) ensures n in StoredNames(keys) {
      MembersKeys(members, map[], n);
    }
    SameTotal(Names(keys), StoredNames(keys));
    TotalsPlain(keys);
    UnderstoodMembers(members, map[]);
  }

  lemma NamesLength(keys: seq<string>)
    ensures |Names(keys)| == |StoredNames(keys)| == |keys|
  {
  }

  lemma {:induction false} UnderstoodMembers(members: Members, t: map<Key, Value>)
    requires Distinct(Names(Keys(members))) && DistinctMembers(members)
    requires forall k <- Keys(members) :: NoEscape(k)
    requires ActualMembers(members, t) == Some(MeantMembers(members, t))
    ensures PlainMembers(members)
    decreases members, 0
  {
    hide Actual, Meaning, Gapped, Unescape, Plain, NoEscape, DistinctNames;
    match members {
      case NoMembers(_) =>
      case Member(_, key, _, _, value, _, more) =>
        NamesCons(key, Keys(more));
        assert forall k <- Keys(more) :: k in Keys(members);
        DistinctTail(Unescape(key, 0), Names(Keys(more)));
        UnderstoodFirst(key, value, more, t);
        UnderstoodPlain(value);
        UnderstoodMembers(more, t[Name(Unescape(key, 0)) := Meaning(value)]);
      case LastMember(_, key, _, _, value, _) =>
        SameName(key);
        NeverNil(value);
        assert MeantMembers(members, t)[Name(Unescape(key, 0))] == Meaning(value);
        assert Actual(value).value == Meaning(value);
        UnderstoodPlain(value);
    }
  }

  lemma SameName(key: string)
    requires NoEscape(key)
    ensures Gapped(key, 0) == Unescape(key, 0)
  {
    PlainText(key, 0);
  }

  lemma DistinctTail(n: string, names: seq<string>)
    requires Distinct([n] + names)
    ensures Distinct(names) && n !in names
  {
    var all := [n] + names;
    forall a, b | 0 <= a < b < |names| ensures names[a] != names[b] {
      assert all[a + 1] == names[a] && all[b + 1] == names[b];
    }
    forall k | 0 <= k < |names| ensures names[k] != n {
      assert all[0] == n && all[k + 1] == names[k];
    }
  }

  /** The first member of an understood object is understood. */
  lemma UnderstoodFirst(key: string, value: Json, more: Members, t: map<Key, Value>)
    requires NoEscape(key) && (forall k <- Keys(more) :: NoEscape(k))
    requires Unescape(key, 0) !in Names(Keys(more))
    requires var t' := SetMember(t, key, Actual(value));
             t'.Some? && ActualMembers(more, t'.value)
                         == Some(MeantMembers(more, t[Name(Unescape(key, 0)) := Meaning(value)]))
    ensures key != "" && Actual(value) == Some(Meaning(value))
    ensures SetMember(t, key, Actual(value)) == Some(t[Name(Unescape(key, 0)) := Meaning(value)])
  {
    hide Actual, Meaning, Gapped, Unescape, ActualMembers, MeantMembers;
    SameName(key);
    SameNames(Keys(more));
    NeverNil(value);
    var n := Name(Unescape(key, 0));
    MembersKeep(more, SetMember(t, key, Actual(value)).value, Unescape(key, 0));
    MembersKeep(more, t[n := Meaning(value)], Unescape(key, 0));
  }

  lemma SameNames(keys: seq<string>)
    requires forall k <- keys :: NoEscape(k)
    ensures StoredNames(keys) == Names(keys)
  {
    forall k | 0 <= k < |keys| ensures Gapped(keys[k], 0) == Unescape(keys[k], 0) {
      assert keys[k] in keys;
      SameName(keys[k]);
    }
  }

  // ----- The main result ------------------------------------------------------------------------

  /** The reader on every RFC 8259 array or object with distinct names, in any white
      space and with anything behind it: it pushes what the text means, with the
      cursor just past the closing bracket, exactly when no string and no key in it
      is empty or holds an escape. */
  lemma JsonRoundTripIff(s: string, o: nat, t: Json)
    requires Str.Reads(s, o, Print(t)) && Valid(t) && (t.Array? || t.Object?) && DistinctNames(t)
    ensures o < |s|
    ensures ParseJson(s, o) == Parsed(Meaning(t), o + |Print(t)|) <==> Plain(t)
  {
    hide *;
    ReadsText(s, o, t);
    OutcomeIs(Actual(t), o + |Print(t)|, Meaning(t));
    if Plain(t) {
      PlainUnderstood(t);
    } else if ParseJson(s, o) == Parsed(Meaning(t), o + |Print(t)|) {
      UnderstoodPlain(t);
    }
  }

  /** `parse_json_string` starts at the first bracket: white space in front of a text
      is skipped. */
  lemma TextStarts(pre: string, t: Json, post: string)
    requires Spaces(pre) && (t.Array? || t.Object?)
    ensures var s := pre + Print(t) + post;
            Str.Until(s, 0, IsBracket) == |pre| && Str.Reads(s, |pre|, Print(t))
  {
    var s := pre + Print(t) + post;
    Str.ReadsMiddle(pre, Print(t), post);
    Str.ReadsAt(s, |pre|, Print(t), 0);
    forall k | 0 <= k < |pre| ensures !IsBracket(s[k]) {
      assert s[k] == pre[k] && pre[k] in pre;
    }
    Str.UntilIs(s, 0, IsBracket, |pre|);
  }

  lemma OutcomeIs(v: Option<Value>, o: nat, w: Value)
    ensures OutcomeOf(v, o) == Parsed(w, o) <==> v == Some(w)
  {
  }

  /** An empty string is lost and an escape is stored with a gap. */
  lemma NotPlainExamples()
    ensures Actual(Array(LastItem("", Quoted(""), ""))) == Some(Table(map[]))
    ensures Actual(Quoted("\\n")) == Some(Text([GAP, 'n'])) && Meaning(Quoted("\\n")) == Text("\n")
    ensures Actual(Object(LastMember("", "", "", "", Atom("1"), ""))).None?
  {
    var b := "\\n";
    assert |b| == 2 && b[0] == '\\' && b[1] == 'n';
    assert Gapped(b, 2) == "" && Unescape(b, 2) == "";
    assert Gapped(b, 0) == [GAP, 'n'];
    assert Unescape(b, 0) == [Control('n')];
  }
}
