/**
 Header lists, the incremental head parser and the head printer (headers.c).
 The grammar they should agree on is sections 3 and 3.2 of RFC 7230.
 */
module Headers {
  import opened Wrappers
  import opened Str
  import opened Sockets

  const MAX_HEADERS := 250

  datatype Slot = Slot(key: Option<string>, value: Option<string>)

  /** What the head parser makes of a buffer: no line break at all, a head whose
      end has not been seen, or a head and the offset of its body. */
  datatype Head = NoLine | Partial(slots: seq<Slot>) | Complete(slots: seq<Slot>, body: nat)

  // ----- Lists ---------------------------------------------------------------

  /** The first value stored under `key`. */
  function Lookup(slots: seq<Slot>, key: string): Option<string> {
    if slots == [] then None
    else if slots[0].key == Some(key) then slots[0].value
    else Lookup(slots[1..], key)
  }

  predicate HasKey(slots: seq<Slot>, key: string) {
    exists s <- slots :: s.key == Some(key)
  }

  /** A key in the front of a list, with or without a value, hides the rest; a key
      that is not there is looked up in the rest. */
  lemma {:induction false} LookupAppend(a: seq<Slot>, b: seq<Slot>, key: string)
    ensures Lookup(a + b, key) == Lookup(if HasKey(a, key) then a else b, key)
    ensures !HasKey(a, key) ==> Lookup(a, key) == None
  {
    if a == [] {
      assert a + b == b;
    } else {
      assert (a + b)[1..] == a[1..] + b;
      LookupAppend(a[1..], b, key);
      assert HasKey(a, key) <==> a[0].key == Some(key) || HasKey(a[1..], key);
    }
  }

  /** The first slot with the key, by its position. */
  ghost predicate FirstAt(slots: seq<Slot>, key: string, k: int) {
    0 <= k < |slots| && slots[k].key == Some(key) && forall j :: 0 <= j < k ==> slots[j].key != Some(key)
  }

  lemma {:induction false} LookupFirst(slots: seq<Slot>, key: string)
    ensures forall k :: FirstAt(slots, key, k) ==> Lookup(slots, key) == slots[k].value
    ensures (exists k :: FirstAt(slots, key, k)) <==> HasKey(slots, key)
    ensures !HasKey(slots, key) ==> Lookup(slots, key) == None
  {
    if slots == [] {
    } else if slots[0].key == Some(key) {
      assert FirstAt(slots, key, 0);
    } else {
      LookupFirst(slots[1..], key);
      forall k | FirstAt(slots, key, k) ensures FirstAt(slots[1..], key, k - 1) {
        assert forall j :: 0 <= j < k - 1 ==> slots[1..][j] == slots[j + 1];
      }
      forall k | FirstAt(slots[1..], key, k) ensures FirstAt(slots, key, k + 1) {
        assert forall j :: 0 < j < k + 1 ==> slots[j] == slots[1..][j - 1];
      }
      assert HasKey(slots, key) <==> HasKey(slots[1..], key);
    }
  }

  lemma LookupOther(a: seq<Slot>, b: seq<Slot>, key: string)
    requires !HasKey(b, key)
    ensures Lookup(a + b, key) == Lookup(a, key)
  {
    LookupAppend(a, b, key);
    LookupAppend(b, [], key);
  }

  /** The source's fixed table of slots; `nslots` of them are in use. */
  class Table {
    var nslots: nat
    const slots: array<Slot>

    ghost predicate Valid()
      reads this
    {
      slots.Length == MAX_HEADERS && nslots <= MAX_HEADERS
    }

    ghost function List(): seq<Slot>
      requires Valid()
      reads this, slots
    {
      slots[..nslots]
    }

    /** `new_headers` */
    constructor ()
      ensures Valid() && fresh(slots) && nslots == 0
    {
      nslots := 0;
      slots := new Slot[MAX_HEADERS](_ => Slot(None, None));
    }

    /** `append_header`.  With the table full the source spins forever, which is
        the answer `false` here. */
    method Append(key: string, value: Option<string>) returns (ok: bool)
      requires Valid()
      modifies this, slots
      ensures Valid()
      ensures ok <==> old(nslots) < MAX_HEADERS
      ensures List() == if ok then old(List()) + [Slot(Some(key), value)] else old(List())
    {
      if nslots >= MAX_HEADERS { return false; }
      slots[nslots] := Slot(Some(key), value);
      nslots := nslots + 1;
      return true;
    }

    /** A key without a value yet, as the parser stores it. */
    method AddKey(key: string)
      requires Valid() && nslots < MAX_HEADERS
      modifies this, slots
      ensures Valid() && List() == old(List()) + [Slot(Some(key), None)]
    {
      slots[nslots] := Slot(Some(key), None);
      nslots := nslots + 1;
    }

    method SetValue(i: nat, value: string)
      requires Valid() && i < nslots
      modifies slots
      ensures Valid() && List() == old(List())[i := old(List())[i].(value := Some(value))]
    {
      slots[i] := slots[i].(value := Some(value));
    }

    /** `find_header` */
    method Find(key: string) returns (value: Option<string>)
      requires Valid()
      ensures value == Lookup(List(), key)
    {
      var i := 0;
      while i < nslots
        invariant 0 <= i <= nslots
        invariant Lookup(List(), key) == Lookup(List()[i..], key)
      {
        assert List()[i..][1..] == List()[i + 1..];
        if slots[i].key.Some? {
          var same := Cmp(slots[i].key.value, key);
          if same { return slots[i].value; }
        }
        i := i + 1;
      }
      return None;
    }
  }

  // ----- The parser ------------------------------------------------------------

  /** The end of the value that starts at `v`.  A value that no line break ends
      loses its last character. */
  function ValueEnd(buf: string, v: nat): (e: nat)
    ensures v <= e
    ensures v < |buf| ==> e < |buf|
    ensures v < |buf| <= Until(buf, v + 1, IsEol) ==> e + 1 == |buf|
    ensures |buf| <= v ==> e == v
  {
    if |buf| <= v then v
    else
      var e := Until(buf, v + 1, IsEol);
      if e < |buf| then e else |buf| - 1
  }

  /** The slot list with the value of slot `i` filled in. */
  function WithValue(slots: seq<Slot>, i: nat, buf: string, v: nat): seq<Slot>
    requires i < |slots|
    ensures |WithValue(slots, i, buf, v)| == |slots|
  {
    var text := if |buf| <= v then "" else buf[v..ValueEnd(buf, v)];
    slots[i := slots[i].(value := Some(text))]
  }

  /** The parser's main loop from position `o`.  `i` is the slot being filled: it
      holds a key without a value when `i < |slots|`.  `reset` says that a line
      break was seen since the last value, `count` how many in a row. */
  function Scan(buf: string, o: nat, slots: seq<Slot>, i: nat, reset: bool, count: nat): (h: Head)
    requires i <= |slots| <= i + 1
    ensures !h.NoLine?
    ensures |slots| <= |h.slots| && slots[..i] == h.slots[..i]
    decreases |buf| - o
  {
    if MAX_HEADERS <= i || |buf| <= o then Partial(slots)
    else if IsEol(buf[o]) then
      if count + 1 > 2 then Complete(slots, o + 1)
      else Scan(buf, o + 1, slots, i, true, count + 1)
    else
      var starts := reset && i == |slots|;
      var o' := if starts then Until(buf, o + 1, IsColon) - 1 else o;
      var slots' := if starts then slots + [Slot(Some(buf[o..o' + 1]), None)] else slots;
      if reset && buf[o'] == ':' then
        var v := Until(buf, o' + 1, NotSpace);
        Scan(buf, ValueEnd(buf, v) + 1, WithValue(slots', i, buf, v), i + 1, false, 0)
      else
        Scan(buf, o' + 1, slots', i, reset, 0)
  }

  function ParseHead(buf: string): Head {
    var o := Until(buf, 0, IsEol);
    if |buf| <= o then NoLine else Scan(buf, o, [], 0, false, 0)
  }

  // Single steps of the loop.

  lemma ScanEol(buf: string, o: nat, slots: seq<Slot>, i: nat, reset: bool, count: nat)
    requires i <= |slots| <= i + 1
    requires i < MAX_HEADERS && o < |buf| && IsEol(buf[o])
    ensures Scan(buf, o, slots, i, reset, count)
         == if count + 1 > 2 then Complete(slots, o + 1) else Scan(buf, o + 1, slots, i, true, count + 1)
  {
  }

  lemma ScanEnd(buf: string, o: nat, slots: seq<Slot>, i: nat, reset: bool, count: nat)
    requires i <= |slots| <= i + 1
    requires MAX_HEADERS <= i || |buf| <= o
    ensures Scan(buf, o, slots, i, reset, count) == Partial(slots)
  {
  }

  /** The loop body for a character that is no line break; `o'` is where it has
      moved to when it looks for a colon. */
  lemma ScanWord(buf: string, o: nat, slots: seq<Slot>, i: nat, reset: bool, count: nat, o': nat, slots': seq<Slot>)
    requires i <= |slots| <= i + 1
    requires i < MAX_HEADERS && o < |buf| && !IsEol(buf[o])
    requires o' == if reset && i == |slots| then Until(buf, o + 1, IsColon) - 1 else o
    requires slots' == if reset && i == |slots| then slots + [Slot(Some(buf[o..o' + 1]), None)] else slots
    ensures Scan(buf, o, slots, i, reset, count)
         == if reset && buf[o'] == ':' then ScanFromColon(buf, o', slots', i)
            else Scan(buf, o' + 1, slots', i, reset, 0)
  {
  }

  function ScanFromColon(buf: string, o: nat, slots: seq<Slot>, i: nat): Head
    requires |slots| == i + 1
  {
    var v := Until(buf, o + 1, NotSpace);
    Scan(buf, ValueEnd(buf, v) + 1, WithValue(slots, i, buf, v), i + 1, false, 0)
  }

  /** A key that runs to the end of the buffer takes one slot and ends the scan. */
  lemma ScanLastKey(buf: string, o: nat, slots: seq<Slot>, i: nat, count: nat)
    requires |slots| == i < MAX_HEADERS && o < |buf| && !IsEol(buf[o])
    requires Until(buf, o + 1, IsColon) == |buf|
    ensures var h := Scan(buf, o, slots, i, true, count); h.Partial? && |h.slots| == |slots| + 1
  {
  }

  lemma ScanKeyCounts(buf: string, o: nat, slots: seq<Slot>, i: nat, count: nat)
    requires |slots| == i < MAX_HEADERS && o < |buf| && !IsEol(buf[o])
    ensures |Scan(buf, o, slots, i, true, count).slots| > |slots|
  {
  }

  /** `parse_headers`: no table when the buffer has no line break; a body offset
      of zero stands for `*body` left unset. */
  method ParseHeaders(buf: string) returns (headers: Table?, body: nat)
    ensures headers == null <==> ParseHead(buf).NoLine?
    ensures headers != null ==> fresh(headers) && fresh(headers.slots) && headers.Valid()
    ensures headers != null ==> headers.List() == ParseHead(buf).slots
    ensures body == if ParseHead(buf).Complete? then ParseHead(buf).body else 0
  {
    hide Scan;
    body := 0;
    var h := new Table();
    var o: nat := 0;
    while o < |buf| && !IsEol(buf[o])
      invariant o <= |buf|
      invariant forall k :: 0 <= k < o ==> !IsEol(buf[k])
    {
      o := o + 1;
    }
    UntilIs(buf, 0, IsEol, o);
    if o >= |buf| { return null, 0; }
    var i: nat, reset, count: nat := 0, false, 0;
    while i < MAX_HEADERS && o < |buf|
      invariant h.Valid() && fresh(h) && fresh(h.slots) && i <= h.nslots <= i + 1
      invariant Scan(buf, o, h.List(), i, reset, count) == ParseHead(buf)
      decreases |buf| - o
    {
      if IsEol(At(buf, o)) {
        ScanEol(buf, o, h.List(), i, reset, count);
        reset := true;
        count := count + 1;
        if count > 2 { return h, o + 1; }
        o := o + 1;
      } else {
        o, i, reset := ParseWord(h, buf, o, i, reset, count);
        count := 0;
      }
    }
    ScanEnd(buf, o, h.List(), i, reset, count);
    return h, 0;
  }

  /** The part of the loop body that reads keys and values. */
  method ParseWord(h: Table, buf: string, o: nat, i: nat, reset: bool, ghost count: nat)
    returns (o': nat, i': nat, reset': bool)
    requires h.Valid() && i <= h.nslots <= i + 1
    requires i < MAX_HEADERS && o < |buf| && !IsEol(buf[o])
    modifies h, h.slots
    ensures h.Valid() && o < o' && i <= i' && i' <= h.nslots <= i' + 1 && i' <= MAX_HEADERS
    ensures Scan(buf, o', h.List(), i', reset', 0) == Scan(buf, o, old(h.List()), i, reset, count)
  {
    hide Scan, ValueEnd, WithValue;
    o', i', reset' := o, i, reset;
    var c := At(buf, o);
    if reset && i == h.nslots {
      var l := KeyLength(buf, o);
      h.AddKey(buf[o..o + l]);
      o' := o + l - 1;
      c := At(buf, o');
    }
    ScanWord(buf, o, old(h.List()), i, reset, count, o', h.List());
    if reset && c == ':' {
      o' := FillValue(h, buf, o', i);
      reset' := false;
      i' := i + 1;
    }
    o' := o' + 1;
  }

  /** The value behind the colon at `o`, stored in slot `i`. */
  method FillValue(h: Table, buf: string, o: nat, i: nat) returns (e: nat)
    requires h.Valid() && i < h.nslots && o < |buf|
    modifies h.slots
    ensures h.Valid() && o < e
    ensures var v := Until(buf, o + 1, NotSpace);
            e == ValueEnd(buf, v) && h.List() == WithValue(old(h.List()), i, buf, v)
  {
    var v;
    v, e := ValueRange(buf, o);
    h.SetValue(i, if |buf| <= v then "" else buf[v..e]);
  }

  /** The nested scan for the colon behind a key. */
  method KeyLength(buf: string, o: nat) returns (l: nat)
    requires o < |buf|
    ensures 1 <= l && o + l == Until(buf, o + 1, IsColon)
  {
    l := 1;
    while o + l < |buf| && At(buf, o + l) != ':'
      invariant 1 <= l && o + l <= |buf|
      invariant forall k :: o + 1 <= k < o + l ==> !IsColon(buf[k])
    {
      l := l + 1;
    }
    UntilIs(buf, o + 1, IsColon, o + l);
  }

  /** The nested scans for the start and the end of a value. */
  method ValueRange(buf: string, o: nat) returns (v: nat, e: nat)
    requires o < |buf|
    ensures v == Until(buf, o + 1, NotSpace) && e == ValueEnd(buf, v)
  {
    v := o + 1;
    var c := At(buf, v);
    while IsSpace(c)
      invariant o + 1 <= v <= |buf|
      invariant c == At(buf, v)
      invariant forall k :: o + 1 <= k < v ==> !NotSpace(buf[k])
      decreases |buf| - v
    {
      v := v + 1;
      c := At(buf, v);
    }
    UntilIs(buf, o + 1, NotSpace, v);
    var l := 1;
    while v + l < |buf| && c != '\r' && c != '\n'
      invariant 1 <= l && (v < |buf| ==> v + l <= |buf| && c == buf[v + l - 1])
      invariant |buf| <= v ==> l == 1
      invariant forall k :: v + 1 <= k < v + l - 1 && k < |buf| ==> !IsEol(buf[k])
      decreases |buf| - v - l
    {
      c := At(buf, v + l);
      l := l + 1;
    }
    e := v + l - 1;
    if v < |buf| && 1 < l && IsEol(c) {
      UntilIs(buf, v + 1, IsEol, e);
    }
  }

  // ----- Prefix stability --------------------------------------------------------

  /** How the parse `h'` of a longer buffer relates to the parse `h` from position
      `o` of its first `n` bytes. */
  ghost predicate Extends(h: Head, h': Head, o: nat, n: nat) {
    && !h.NoLine? && !h'.NoLine?
    && (h.Complete? ==> h' == h && o < h.body <= n)
    && |h.slots| <= |h'.slots|
  }

  /** A complete parse looks at nothing behind the body offset; a partial one
      never has more slots than the parse of a longer buffer. */
  lemma {:induction false} ScanStable(p: string, x: string, o: nat, slots: seq<Slot>, i: nat, reset: bool, count: nat)
    requires i <= |slots| <= i + 1
    ensures var h := Scan(p, o, slots, i, reset, count);
            var h' := Scan(p + x, o, slots, i, reset, count);
            Extends(h, h', o, |p|)
    decreases |p| - o
  {
    if i < MAX_HEADERS && o < |p| {
      assert (p + x)[o] == p[o];
      if IsEol(p[o]) {
        if count + 1 <= 2 { ScanStable(p, x, o + 1, slots, i, true, count + 1); }
      } else {
        ScanStableWord(p, x, o, slots, i, reset, count);
      }
    }
  }

  lemma {:induction false} ScanStableWord(p: string, x: string, o: nat, slots: seq<Slot>, i: nat, reset: bool,
        count: nat)
    requires i <= |slots| <= i + 1
    requires i < MAX_HEADERS && o < |p| && !IsEol(p[o])
    ensures var h := Scan(p, o, slots, i, reset, count);
            var h' := Scan(p + x, o, slots, i, reset, count);
            Extends(h, h', o, |p|)
    decreases |p| - o, 1
  {
    hide Scan;
    var starts := reset && i == |slots|;
    var o' := if starts then Until(p, o + 1, IsColon) - 1 else o;
    var slots' := if starts then slots + [Slot(Some(p[o..o' + 1]), None)] else slots;
    UntilStable(p, x, o + 1, IsColon);
    if starts && o' + 1 == |p| {
      ScanLastKey(p, o, slots, i, count);
      ScanKeyCounts(p + x, o, slots, i, count);
    } else {
      assert (p + x)[o'] == p[o'];
      assert (p + x)[o..o' + 1] == p[o..o' + 1];
      ScanWord(p, o, slots, i, reset, count, o', slots');
      ScanWord(p + x, o, slots, i, reset, count, o', slots');
      if reset && p[o'] == ':' {
        ScanStableValue(p, x, o', slots', i);
      } else {
        ScanStable(p, x, o' + 1, slots', i, reset, 0);
      }
    }
  }

  lemma {:induction false} ScanStableValue(p: string, x: string, o: nat, slots: seq<Slot>, i: nat)
    requires |slots| == i + 1 && o < |p|
    ensures Extends(ScanFromColon(p, o, slots, i), ScanFromColon(p + x, o, slots, i), o, |p|)
    decreases |p| - o, 0
  {
    hide Scan, ValueEnd, WithValue;
    var v := Until(p, o + 1, NotSpace);
    var slots' := WithValue(slots, i, p, v);
    UntilStable(p, x, o + 1, NotSpace);
    if v < |p| && Until(p, v + 1, IsEol) < |p| {
      ValueStable(p, x, v, slots, i);
      ScanStable(p, x, ValueEnd(p, v) + 1, slots', i + 1, false, 0);
    } else {
      ScanEnd(p, ValueEnd(p, v) + 1, slots', i + 1, false, 0);
    }
  }

  lemma ValueStable(p: string, x: string, v: nat, slots: seq<Slot>, i: nat)
    requires v < |p| && Until(p, v + 1, IsEol) < |p| && i < |slots|
    ensures ValueEnd(p + x, v) == ValueEnd(p, v)
    ensures WithValue(slots, i, p + x, v) == WithValue(slots, i, p, v)
  {
    UntilStable(p, x, v + 1, IsEol);
    var e := Until(p, v + 1, IsEol);
    assert (p + x)[v..e] == p[v..e];
  }

  /** Prefix stability: once the head of a buffer is complete, more bytes change
      neither the headers nor the offset of the body, which lies inside the
      buffer. */
  lemma PrefixStable(p: string, x: string)
    ensures ParseHead(p).Complete? ==> ParseHead(p + x) == ParseHead(p) && 0 < ParseHead(p).body <= |p|
    ensures !ParseHead(p).NoLine? ==>
              !ParseHead(p + x).NoLine? && |ParseHead(p).slots| <= |ParseHead(p + x).slots|
  {
    var o := Until(p, 0, IsEol);
    UntilStable(p, x, 0, IsEol);
    if o < |p| {
      ScanStable(p, x, o, [], 0, false, 0);
    }
  }

  // ----- The printer and the round trip ----------------------------------------------

  function Bytes(s: Option<string>): string {
    if s.Some? then s.value else ""
  }

  /** The line `send_headers` emits for one slot. */
  function Line(s: Slot): string {
    if s.key.None? then "" else s.key.value + ": " + Bytes(s.value) + CRLF
  }

  function Lines(slots: seq<Slot>): string {
    if slots == [] then "" else Line(slots[0]) + Lines(slots[1..])
  }

  /** The whole head behind the request line. */
  function HeadBytes(slots: seq<Slot>): string {
    Lines(slots) + CRLF
  }

  lemma {:induction false} LinesAppend(a: seq<Slot>, b: seq<Slot>)
    ensures Lines(a + b) == Lines(a) + Lines(b)
  {
    hide Line;
    if a == [] {
      assert a + b == b;
    } else {
      assert (a + b)[1..] == a[1..] + b;
      LinesAppend(a[1..], b);
    }
  }

  /** `send_headers`: a slot without a key is skipped. */
  method SendHeaders(sc: Socket, headers: Table)
    requires sc.Valid() && headers.Valid()
    modifies sc
    ensures sc.Valid() && sc.ideal == old(sc.ideal) + HeadBytes(headers.List())
    ensures old(sc.closed) ==> sc.closed
  {
    hide Line;
    var i := 0;
    ghost var all := headers.List();
    assert Lines([]) == "" && all[..0] == [];
    hide Lines;
    while i < headers.nslots
      invariant 0 <= i <= headers.nslots && sc.Valid() && headers.Valid()
      invariant headers.List() == all
      invariant sc.ideal == old(sc.ideal) + Lines(all[..i])
      invariant old(sc.closed) ==> sc.closed
    {
      assert all[..i + 1] == all[..i] + [all[i]];
      LinesAppend(all[..i], [all[i]]);
      LinesOne(all[i]);
      assert Lines(all[..i + 1]) == Lines(all[..i]) + Line(headers.slots[i]);
      SendSlot(sc, headers.slots[i]);
      i := i + 1;
    }
    assert all[..i] == all;
    var _ := sc.WriteToSocket(CRLF);
  }

  method SendSlot(sc: Socket, s: Slot)
    requires sc.Valid()
    modifies sc
    ensures sc.Valid() && sc.ideal == old(sc.ideal) + Line(s)
    ensures old(sc.closed) ==> sc.closed
  {
    if s.key.None? { return; }
    var _ := sc.WriteToSocket(s.key.value);
    var _ := sc.WriteToSocket(": ");
    var _ := sc.WriteToSocket(Bytes(s.value));
    var _ := sc.WriteToSocket(CRLF);
  }

  lemma LinesOne(s: Slot)
    ensures Lines([s]) == Line(s)
  {
    assert [s][1..] == [];
  }

  /** The headers the printer and the parser agree on: a key whose only colon may
      be its first of several characters and that starts a line, a value that is
      neither empty nor starts with white space nor holds a line break. */
  predicate KeyShape(k: string) {
    |k| > 0 && k[0] != '\r' && k[0] != '\n' && forall j :: 1 <= j < |k| ==> k[j] != ':'
  }

  predicate ValueShape(v: string) {
    |v| > 0 && !White(v[0]) && forall j :: 0 <= j < |v| ==> v[j] != '\r' && v[j] != '\n'
  }

  predicate Shaped(s: Slot) {
    s.key.Some? && s.value.Some? && KeyShape(s.key.value) && ValueShape(s.value.value)
  }

  predicate Clean(s: Slot) {
    Shaped(s) && s.key.value != ":"
  }

  /** The pieces of a line in a buffer. */
  ghost predicate ReadsLine(buf: string, o: nat, k: string, v: string) {
    && Reads(buf, o, k) && Reads(buf, o + |k|, ": ")
    && Reads(buf, o + |k|, ":") && Reads(buf, o + |k| + 1, " ")
    && Reads(buf, o + |k| + 2, v) && Reads(buf, o + |k| + 2 + |v|, CRLF)
  }

  lemma LineSplit(buf: string, o: nat, s: Slot)
    requires Reads(buf, o, Line(s)) && s.key.Some? && s.value.Some?
    ensures ReadsLine(buf, o, s.key.value, s.value.value)
    ensures |Line(s)| == |s.key.value| + |s.value.value| + 4
  {
    hide Reads;
    var k, v := s.key.value, s.value.value;
    ReadsSplit(buf, o, k + ": " + v, CRLF);
    ReadsSplit(buf, o, k + ": ", v);
    ReadsSplit(buf, o, k, ": ");
    assert ": " == ":" + " ";
    ReadsSplit(buf, o + |k|, ":", " ");
  }

  /** A field line by section 3.2 of RFC 7230, with the optional white space in front
      of its value. */
  datatype Field = Field(key: string, gap: string, value: string)

  function FieldLine(f: Field): string {
    f.key + ":" + f.gap + f.value + CRLF
  }

  function FieldLines(fs: seq<Field>): string {
    if fs == [] then "" else FieldLine(fs[0]) + FieldLines(fs[1..])
  }

  predicate FieldShape(f: Field) {
    && Clean(FieldSlot(f))
    && forall c <- f.gap :: c == ' ' || c == '\t'
  }

  function FieldSlot(f: Field): Slot {
    Slot(Some(f.key), Some(f.value))
  }

  function FieldSlots(fs: seq<Field>): (r: seq<Slot>)
    ensures |r| == |fs|
  {
    seq(|fs|, k requires 0 <= k < |fs| => FieldSlot(fs[k]))
  }

  ghost predicate ReadsField(buf: string, o: nat, f: Field) {
    var c := o + |f.key|;
    && Reads(buf, o, f.key) && Reads(buf, c, ":") && Reads(buf, c + 1, f.gap)
    && Reads(buf, c + 1 + |f.gap|, f.value) && Reads(buf, c + 1 + |f.gap| + |f.value|, CRLF)
  }

  lemma FieldSplit(buf: string, o: nat, f: Field)
    requires Reads(buf, o, FieldLine(f))
    ensures ReadsField(buf, o, f)
    ensures |FieldLine(f)| == |f.key| + |f.gap| + |f.value| + 3
  {
    hide Reads;
    ReadsSplit(buf, o, f.key + ":" + f.gap + f.value, CRLF);
    ReadsSplit(buf, o, f.key + ":" + f.gap, f.value);
    ReadsSplit(buf, o, f.key + ":", f.gap);
    ReadsSplit(buf, o, f.key, ":");
  }

  /** The printer's line is one with a single blank. */
  lemma LineIsField(s: Slot)
    requires s.key.Some? && s.value.Some?
    ensures Line(s) == FieldLine(Field(s.key.value, " ", s.value.value))
  {
    assert s.key.value + ": " == s.key.value + ":" + " ";
  }

  /** The value part of a line: the parser takes exactly the value, whatever white
      space is in front of it, and stops in front of the line break. */
  lemma ScanValue(buf: string, c: nat, gap: string, v: string)
    requires Reads(buf, c, ":") && Reads(buf, c + 1, gap) && forall d <- gap :: White(d)
    requires var o := c + 1 + |gap|; Reads(buf, o, v) && Reads(buf, o + |v|, CRLF) && ValueShape(v)
    ensures c < |buf| && buf[c] == ':'
    ensures var o := c + 1 + |gap|;
            && Until(buf, c + 1, NotSpace) == o && ValueEnd(buf, o) == o + |v|
            && o + |v| + 1 < |buf| && buf[o..o + |v|] == v && buf[o + |v| + 1] == '\n'
  {
    var o := c + 1 + |gap|;
    ReadsAt(buf, c, ":", 0);
    forall k | c + 1 <= k < o ensures !NotSpace(buf[k]) {
      ReadsAt(buf, c + 1, gap, k - c - 1);
      assert gap[k - c - 1] in gap;
    }
    ReadsAt(buf, o, v, 0);
    UntilIs(buf, c + 1, NotSpace, o);
    forall k | o + 1 <= k < o + |v| ensures !IsEol(buf[k]) {
      ReadsAt(buf, o, v, k - o);
    }
    ReadsAt(buf, o + |v|, CRLF, 0);
    ReadsAt(buf, o + |v|, CRLF, 1);
    UntilIs(buf, o + 1, IsEol, o + |v|);
  }

  /** From the first character of a key to the colon behind it. */
  lemma ScanKey(buf: string, o: nat, k: string, slots: seq<Slot>, count: nat)
    requires Reads(buf, o, k) && Reads(buf, o + |k|, ":")
    requires KeyShape(k) && k != ":" && |slots| < MAX_HEADERS
    ensures Scan(buf, o, slots, |slots|, true, count)
         == Scan(buf, o + |k|, slots + [Slot(Some(k), None)], |slots|, true, 0)
  {
    hide Scan;
    var c := o + |k|;
    ReadsAt(buf, c, ":", 0);
    ReadsAt(buf, o, k, 0);
    forall j | o + 1 <= j < c ensures !IsColon(buf[j]) {
      ReadsAt(buf, o, k, j - o);
    }
    UntilIs(buf, o + 1, IsColon, c);
    ReadsAt(buf, o, k, |k| - 1);
    assert buf[c - 1] != ':';
    assert buf[o..c] == k;
    ScanWord(buf, o, slots, |slots|, true, count, c - 1, slots + [Slot(Some(k), None)]);
  }

  /** From the colon to the line feed that ends the line. */
  lemma ScanColon(buf: string, c: nat, gap: string, v: string, slots: seq<Slot>, i: nat)
    requires Reads(buf, c, ":") && Reads(buf, c + 1, gap) && forall d <- gap :: White(d)
    requires var o := c + 1 + |gap|; Reads(buf, o, v) && Reads(buf, o + |v|, CRLF) && ValueShape(v)
    requires |slots| == i + 1 <= MAX_HEADERS
    ensures var e := c + 2 + |gap| + |v|;
            && Scan(buf, c, slots, i, true, 0)
               == Scan(buf, e, slots[i := slots[i].(value := Some(v))], i + 1, false, 0)
            && e < |buf| && buf[e] == '\n'
  {
    hide Reads, Scan, ValueShape, ValueEnd;
    ScanValue(buf, c, gap, v);
    ScanWord(buf, c, slots, i, true, 0, c, slots);
  }

  /** The parser's state before and after the line of one clean header, with any
      white space in front of the value. */
  lemma ScanField(buf: string, o: nat, f: Field, slots: seq<Slot>, count: nat)
    requires Reads(buf, o, FieldLine(f)) && FieldShape(f) && |slots| + 1 < MAX_HEADERS
    ensures Scan(buf, o, slots, |slots|, true, count)
         == Scan(buf, o + |FieldLine(f)|, slots + [FieldSlot(f)], |slots| + 1, true, 1)
  {
    hide Scan, Reads, KeyShape, ValueShape, FieldLine;
    var k, v, s, i := f.key, f.value, FieldSlot(f), |slots|;
    FieldSplit(buf, o, f);
    ScanKey(buf, o, k, slots, count);
    ScanColon(buf, o + |k|, f.gap, v, slots + [Slot(Some(k), None)], i);
    assert (slots + [Slot(Some(k), None)])[i := s] == slots + [s];
    ScanEol(buf, o + |k| + 2 + |f.gap| + |v|, slots + [s], i + 1, false, 0);
  }

  lemma ScanLine(buf: string, o: nat, s: Slot, slots: seq<Slot>, count: nat)
    requires Reads(buf, o, Line(s)) && Clean(s) && |slots| + 1 < MAX_HEADERS
    ensures Scan(buf, o, slots, |slots|, true, count)
         == Scan(buf, o + |Line(s)|, slots + [s], |slots| + 1, true, 1)
  {
    hide Scan, Reads, KeyShape, ValueShape, Line, FieldLine;
    LineIsField(s);
    ScanField(buf, o, Field(s.key.value, " ", s.value.value), slots, count);
  }

  lemma {:induction false} ScanFields(buf: string, o: nat, fs: seq<Field>, slots: seq<Slot>, count: nat)
    requires Reads(buf, o, FieldLines(fs)) && (forall f <- fs :: FieldShape(f)) && |slots| + |fs| < MAX_HEADERS
    ensures Scan(buf, o, slots, |slots|, true, count)
         == Scan(buf, o + |FieldLines(fs)|, slots + FieldSlots(fs), |slots| + |fs|, true, if fs == [] then count else 1)
    decreases |fs|
  {
    hide Scan, FieldLine, FieldShape, Reads;
    if fs == [] {
      assert slots + FieldSlots(fs) == slots;
    } else {
      assert fs[0] in fs && forall f <- fs[1..] :: f in fs;
      ReadsSplit(buf, o, FieldLine(fs[0]), FieldLines(fs[1..]));
      ScanField(buf, o, fs[0], slots, count);
      ScanFields(buf, o + |FieldLine(fs[0])|, fs[1..], slots + [FieldSlot(fs[0])], 1);
      assert slots + [FieldSlot(fs[0])] + FieldSlots(fs[1..]) == slots + FieldSlots(fs);
    }
  }

  lemma {:induction false} ScanLines(buf: string, o: nat, hs: seq<Slot>, slots: seq<Slot>, count: nat)
    requires Reads(buf, o, Lines(hs)) && (forall s <- hs :: Clean(s)) && |slots| + |hs| < MAX_HEADERS
    ensures Scan(buf, o, slots, |slots|, true, count)
         == Scan(buf, o + |Lines(hs)|, slots + hs, |slots| + |hs|, true, if hs == [] then count else 1)
    decreases |hs|
  {
    hide Scan, Line, Clean, Reads;
    if hs == [] {
      assert slots + hs == slots;
    } else {
      assert hs[0] in hs && forall s <- hs[1..] :: s in hs;
      ReadsSplit(buf, o, Line(hs[0]), Lines(hs[1..]));
      ScanLine(buf, o, hs[0], slots, count);
      ScanLines(buf, o + |Line(hs[0])|, hs[1..], slots + [hs[0]], 1);
      assert slots + [hs[0]] + hs[1..] == slots + hs;
    }
  }

  /** The first line of a request is skipped with its line break. */
  lemma SkipFirstLine(line: string, rest: string)
    requires OneLine(line)
    ensures ParseHead(line + CRLF + rest) == Scan(line + CRLF + rest, |line| + 2, [], 0, true, 2)
  {
    var buf := line + CRLF + rest;
    assert buf[|line|] == '\r' && buf[|line| + 1] == '\n';
    UntilIs(buf, 0, IsEol, |line|);
    assert Scan(buf, |line|, [], 0, false, 0) == Scan(buf, |line| + 1, [], 0, true, 1);
  }

  /** Header round trip: clean headers, at least one and fewer than 250, are
      parsed back in order, and the body offset is the first body byte. */
  lemma HeadRoundTrip(line: string, hs: seq<Slot>, body: string)
    requires OneLine(line)
    requires 1 <= |hs| < MAX_HEADERS && forall s <- hs :: Clean(s)
    ensures ParseHead(line + CRLF + HeadBytes(hs) + body)
         == Complete(hs, |line + CRLF + HeadBytes(hs)|)
  {
    hide Scan, Lines, Clean, ParseHead, Reads;
    var rest := HeadBytes(hs) + body;
    var buf := line + CRLF + rest;
    var o := |line| + 2;
    assert buf == line + CRLF + HeadBytes(hs) + body;
    SkipFirstLine(line, rest);
    ReadsMiddle(line + CRLF, HeadBytes(hs), body);
    ReadsSplit(buf, o, Lines(hs), CRLF);
    ScanLines(buf, o, hs, [], 2);
    assert [] + hs == hs;
    ScanBlank(buf, o + |Lines(hs)|, hs);
  }

  /** The field lines of section 3.2 of RFC 7230: with any blanks and tabs, or none,
      in front of each value the headers are read as they are, and the body offset is
      the first body byte.  White space behind a value is part of it. */
  lemma FieldsRoundTrip(line: string, fs: seq<Field>, body: string)
    requires OneLine(line)
    requires 1 <= |fs| < MAX_HEADERS && forall f <- fs :: FieldShape(f)
    ensures ParseHead(line + CRLF + (FieldLines(fs) + CRLF) + body)
         == Complete(FieldSlots(fs), |line + CRLF + (FieldLines(fs) + CRLF)|)
  {
    hide Scan, FieldLines, FieldShape, ParseHead, Reads;
    var head := FieldLines(fs) + CRLF;
    var buf := line + CRLF + (head + body);
    var o := |line| + 2;
    assert buf == line + CRLF + head + body;
    SkipFirstLine(line, head + body);
    ReadsMiddle(line + CRLF, head, body);
    ReadsSplit(buf, o, FieldLines(fs), CRLF);
    ScanFields(buf, o, fs, [], 2);
    assert [] + FieldSlots(fs) == FieldSlots(fs);
    ScanBlank(buf, o + |FieldLines(fs)|, FieldSlots(fs));
  }

  /** The empty line ends the head. */
  lemma ScanBlank(buf: string, e: nat, hs: seq<Slot>)
    requires Reads(buf, e, CRLF) && |hs| < MAX_HEADERS
    ensures Scan(buf, e, hs, |hs|, true, 1) == Complete(hs, e + 2)
  {
    hide Scan;
    ReadsAt(buf, e, CRLF, 0);
    ReadsAt(buf, e, CRLF, 1);
    ScanEol(buf, e, hs, |hs|, true, 1);
    ScanEol(buf, e + 1, hs, |hs|, true, 2);
  }

  // ----- Exactly which lists make the round trip ------------------------------------

  ghost predicate AllShaped(slots: seq<Slot>) {
    forall s <- slots :: Shaped(s)
  }

  /** Whether slot `i` holds a key that still waits for its value at `o`. */
  ghost predicate Pending(buf: string, o: nat, slots: seq<Slot>, i: nat, reset: bool) {
    && i <= |slots| <= i + 1
    && (i < |slots| ==>
          && slots[i].key.Some? && KeyShape(slots[i].key.value)
          && reset && (o < |buf| ==> buf[o] == ':'))
  }

  /** Whatever the buffer, a complete parse holds fewer than 250 headers, each with
      a key and a value of the right shape. */
  lemma {:induction false} ScanShaped(buf: string, o: nat, slots: seq<Slot>, i: nat, reset: bool, count: nat)
    requires Pending(buf, o, slots, i, reset) && AllShaped(slots[..i])
    requires Scan(buf, o, slots, i, reset, count).Complete?
    ensures AllShaped(Scan(buf, o, slots, i, reset, count).slots)
    ensures |Scan(buf, o, slots, i, reset, count).slots| < MAX_HEADERS
    decreases |buf| - o, 1
  {
    hide Scan, AllShaped;
    ScanGoesOn(buf, o, slots, i, reset, count);
    if IsEol(buf[o]) {
      ScanEol(buf, o, slots, i, reset, count);
      assert slots[..i] == slots;
      if count + 1 <= 2 { ScanShaped(buf, o + 1, slots, i, true, count + 1); }
    } else {
      var starts := reset && i == |slots|;
      var o' := if starts then Until(buf, o + 1, IsColon) - 1 else o;
      var slots' := if starts then slots + [Slot(Some(buf[o..o' + 1]), None)] else slots;
      ScanWord(buf, o, slots, i, reset, count, o', slots');
      assert slots'[..i] == slots[..i];
      if reset && buf[o'] == ':' {
        ScanShapedValue(buf, o', slots', i);
      } else {
        ScanShaped(buf, o' + 1, slots', i, reset, 0);
      }
    }
  }

  lemma ScanGoesOn(buf: string, o: nat, slots: seq<Slot>, i: nat, reset: bool, count: nat)
    requires i <= |slots| <= i + 1 && Scan(buf, o, slots, i, reset, count).Complete?
    ensures i < MAX_HEADERS && o < |buf|
  {
  }

  lemma {:induction false} ScanShapedValue(buf: string, o: nat, slots: seq<Slot>, i: nat)
    requires |slots| == i + 1 && o < |buf| && AllShaped(slots[..i])
    requires slots[i].key.Some? && KeyShape(slots[i].key.value)
    requires ScanFromColon(buf, o, slots, i).Complete?
    ensures AllShaped(ScanFromColon(buf, o, slots, i).slots)
    ensures |ScanFromColon(buf, o, slots, i).slots| < MAX_HEADERS
    decreases |buf| - o, 0
  {
    hide Scan;
    var v := Until(buf, o + 1, NotSpace);
    var slots' := WithValue(slots, i, buf, v);
    if |buf| <= v || |buf| <= Until(buf, v + 1, IsEol) {
      ScanEnd(buf, ValueEnd(buf, v) + 1, slots', i + 1, false, 0);
    } else {
      assert Shaped(slots'[i]);
      assert slots'[..i + 1] == slots[..i] + [slots'[i]];
      ScanShaped(buf, ValueEnd(buf, v) + 1, slots', i + 1, false, 0);
    }
  }

  lemma CompleteShaped(buf: string)
    requires ParseHead(buf).Complete?
    ensures AllShaped(ParseHead(buf).slots) && |ParseHead(buf).slots| < MAX_HEADERS
  {
    hide Scan;
    ScanShaped(buf, Until(buf, 0, IsEol), [], 0, false, 0);
  }

  /** The header whose key is a single colon is read with two extra characters in
      its value. */
  lemma ScanLoneColon(buf: string, o: nat, s: Slot, slots: seq<Slot>, count: nat)
    requires Reads(buf, o, Line(s)) && Shaped(s) && s.key == Some(":") && |slots| < MAX_HEADERS
    ensures var h := Scan(buf, o, slots, |slots|, true, count);
            |slots| < |h.slots| && h.slots[|slots|].value == Some(": " + s.value.value)
  {
    hide Scan, Line;
    var v, i := s.value.value, |slots|;
    LineSplit(buf, o, s);
    LoneColonValue(buf, o, v);
    var keyed := slots + [Slot(Some(":"), None)];
    ScanWord(buf, o, slots, i, true, count, o, keyed);
    var h := Scan(buf, o, slots, i, true, count);
    assert h.slots[..i + 1][i] == h.slots[i];
  }

  lemma LoneColonValue(buf: string, o: nat, v: string)
    requires ReadsLine(buf, o, ":", v) && ValueShape(v)
    ensures buf[o] == ':' && Until(buf, o + 1, IsColon) == o + 1 && Until(buf, o + 1, NotSpace) == o + 1
    ensures ValueEnd(buf, o + 1) == o + 3 + |v| && buf[o + 1..o + 3 + |v|] == ": " + v && buf[o..o + 1] == ":"
  {
    hide Reads, ValueEnd, ValueShape;
    ReadsAt(buf, o, ":", 0);
    ReadsAt(buf, o + 1, ": ", 0);
    ColonEnd(buf, o + 1, v);
    UntilIs(buf, o + 1, IsColon, o + 1);
    UntilIs(buf, o + 1, NotSpace, o + 1);
    assert buf[o..o + 1] == [buf[o]];
  }

  lemma ColonEnd(buf: string, c: nat, v: string)
    requires Reads(buf, c, ": ") && Reads(buf, c + 2, v) && Reads(buf, c + 2 + |v|, CRLF) && ValueShape(v)
    ensures ValueEnd(buf, c) == c + 2 + |v| && buf[c..c + 2 + |v|] == ": " + v
  {
    var e := c + 2 + |v|;
    assert buf[c..e] == buf[c..c + 2] + buf[c + 2..e];
    ReadsAt(buf, c, ": ", 1);
    ReadsAt(buf, e, CRLF, 0);
    forall k | c + 1 <= k < e ensures !IsEol(buf[k]) {
      if k > c + 1 { ReadsAt(buf, c + 2, v, k - c - 2); }
    }
    UntilIs(buf, c + 1, IsEol, e);
  }

  ghost predicate AllClean(hs: seq<Slot>) {
    forall s <- hs :: Clean(s)
  }

  lemma CleanCons(hs: seq<Slot>)
    ensures AllShaped(hs) && hs != [] ==> Shaped(hs[0]) && AllShaped(hs[1..])
    ensures !AllClean(hs) ==> hs != [] && (Clean(hs[0]) ==> !AllClean(hs[1..]))
  {
    hide Shaped, Clean;
    if hs != [] {
      assert hs[0] in hs && forall s <- hs[1..] :: s in hs;
      assert forall s <- hs :: s == hs[0] || s in hs[1..];
    }
  }

  lemma NotClean(s: Slot)
    ensures Shaped(s) && !Clean(s) ==> s.key == Some(":")
    ensures Shaped(s) ==> s.value.Some? && s.value != Some(": " + s.value.value)
  {
    if s.value.Some? { assert |": " + s.value.value| == |s.value.value| + 2; }
  }

  /** A list with a lone colon among its keys does not come back. */
  lemma {:induction false} LoneColonFails(buf: string, o: nat, hs: seq<Slot>, slots: seq<Slot>, count: nat)
    requires Reads(buf, o, Lines(hs)) && AllShaped(hs) && |slots| + |hs| < MAX_HEADERS
    requires !AllClean(hs)
    ensures Scan(buf, o, slots, |slots|, true, count).slots != slots + hs
    decreases |hs|
  {
    hide Scan, Line, Shaped, Clean, Reads, AllShaped, AllClean;
    CleanCons(hs);
    ReadsSplit(buf, o, Line(hs[0]), Lines(hs[1..]));
    if Clean(hs[0]) {
      ScanLine(buf, o, hs[0], slots, count);
      LoneColonFails(buf, o + |Line(hs[0])|, hs[1..], slots + [hs[0]], 1);
      assert slots + [hs[0]] + hs[1..] == slots + hs;
    } else {
      NotClean(hs[0]);
      ScanLoneColon(buf, o, hs[0], slots, count);
      assert (slots + hs)[|slots|] == hs[0];
    }
  }

  /** A list of headers makes the round trip, with the body offset on the first
      body byte, exactly when it has 1 to 249 clean headers. */
  lemma HeadRoundTripIff(line: string, hs: seq<Slot>, body: string)
    requires OneLine(line)
    ensures ParseHead(line + CRLF + HeadBytes(hs) + body)
         == Complete(hs, |line + CRLF + HeadBytes(hs)|)
        <==> 1 <= |hs| < MAX_HEADERS && forall s <- hs :: Clean(s)
  {
    hide Scan, Clean, Lines, ParseHead, Reads;
    var rest := HeadBytes(hs) + body;
    var buf := line + CRLF + rest;
    assert buf == line + CRLF + HeadBytes(hs) + body;
    var o := |line| + 2;
    SkipFirstLine(line, rest);
    ReadsMiddle(line + CRLF, HeadBytes(hs), body);
    ReadsSplit(buf, o, Lines(hs), CRLF);
    if 1 <= |hs| < MAX_HEADERS && forall s <- hs :: Clean(s) {
      HeadRoundTrip(line, hs, body);
    } else if ParseHead(buf) == Complete(hs, |line + CRLF + HeadBytes(hs)|) {
      if hs == [] {
        EmptyHead(buf, o);
      } else {
        assert [] + hs == hs;
        ScanShaped(buf, o, [], 0, true, 2);
        LoneColonFails(buf, o, hs, [], 2);
      }
    }
  }

  /** An empty value, which section 3.2 of RFC 7230 allows, does not come back. */
  lemma EmptyValueFails(line: string, key: string, body: string)
    requires OneLine(line)
    ensures var hs := [Slot(Some(key), Some(""))];
            ParseHead(line + CRLF + HeadBytes(hs) + body) != Complete(hs, |line + CRLF + HeadBytes(hs)|)
  {
    hide Scan, Lines, ParseHead;
    var hs := [Slot(Some(key), Some(""))];
    assert hs[0] in hs && !Clean(hs[0]);
    HeadRoundTripIff(line, hs, body);
  }

  /** The text of the next line becomes the value, whatever header it was meant for. */
  lemma EmptyValueSwallows(line: string, hs: seq<Slot>, key: string, next: string, rest: string)
    requires OneLine(line)
    requires (forall h <- hs :: Clean(h)) && |hs| + 1 < MAX_HEADERS
    requires KeyShape(key) && key != ":" && ValueShape(next)
    ensures var h := ParseHead(line + CRLF + (Lines(hs) + (Line(Slot(Some(key), Some(""))) + (next + CRLF + rest))));
            !h.NoLine? && |hs| < |h.slots| && h.slots[..|hs|] == hs && h.slots[|hs|] == Slot(Some(key), Some(next))
  {
    hide Scan, Lines, Line, ParseHead, KeyShape, ValueShape, Clean, Reads, FieldLine;
    var f := Field(key, " \r\n", next);
    var part := Line(Slot(Some(key), Some(""))) + (next + CRLF + rest);
    EmptyIsField(key, next, rest);
    CutHead(line, hs, part);
    SwallowsLine(line + CRLF + (Lines(hs) + part), |line| + 2 + |Lines(hs)|, hs, f, rest, if hs == [] then 2 else 1);
  }

  /** White space behind a colon includes a line break, so the value starts on the
      next line. */
  lemma EmptyIsField(key: string, next: string, rest: string)
    ensures Line(Slot(Some(key), Some(""))) + (next + CRLF + rest) == FieldLine(Field(key, " \r\n", next)) + rest
  {
    assert " \r\n" == " " + CRLF;
  }

  lemma SwallowsLine(buf: string, e: nat, hs: seq<Slot>, f: Field, rest: string, count: nat)
    requires e <= |buf| && buf[e..] == FieldLine(f) + rest && |hs| + 1 < MAX_HEADERS
    requires KeyShape(f.key) && f.key != ":" && ValueShape(f.value) && f.gap == " \r\n"
    ensures var h := Scan(buf, e, hs, |hs|, true, count);
            |hs| < |h.slots| && h.slots[..|hs|] == hs && h.slots[|hs|] == FieldSlot(f)
  {
    hide Scan, Reads, KeyShape, ValueShape, FieldLine;
    WholeReads(buf, e, FieldLine(f) + rest);
    ReadsSplit(buf, e, FieldLine(f), rest);
    FieldSplit(buf, e, f);
    ScanKey(buf, e, f.key, hs, count);
    var keyed, filled := hs + [Slot(Some(f.key), None)], hs + [FieldSlot(f)];
    ScanColon(buf, e + |f.key|, f.gap, f.value, keyed, |hs|);
    assert keyed[|hs| := FieldSlot(f)] == filled;
    var h := Scan(buf, e, hs, |hs|, true, count);
    assert h.slots[..|hs| + 1] == filled;
    assert h.slots[|hs|] == h.slots[..|hs| + 1][|hs|] && h.slots[..|hs|] == h.slots[..|hs| + 1][..|hs|];
  }

  lemma WholeReads(buf: string, e: nat, part: string)
    requires e <= |buf| && buf[e..] == part
    ensures Reads(buf, e, part)
  {
  }

  /** 250 clean headers or more: the parse never completes, and the table is full. */
  lemma TooManyHeaders(line: string, hs: seq<Slot>, rest: string)
    requires OneLine(line)
    requires (forall h <- hs :: Clean(h)) && MAX_HEADERS <= |hs|
    ensures ParseHead(line + CRLF + (Lines(hs) + rest)) == Partial(hs[..MAX_HEADERS])
  {
    hide Lines, Line, Clean, ParseHead;
    var i: nat := MAX_HEADERS - 1;
    var most, last := hs[..i], hs[i];
    assert last in hs && forall h <- most :: h in hs;
    LinesParts(hs, i, rest);
    FillsTable(line, most, last, Lines(hs[i + 1..]) + rest);
    assert most + [last] == hs[..MAX_HEADERS];
  }

  lemma FillsTable(line: string, most: seq<Slot>, last: Slot, tail: string)
    requires OneLine(line)
    requires (forall h <- most :: Clean(h)) && Clean(last) && |most| + 1 == MAX_HEADERS
    ensures ParseHead(line + CRLF + (Lines(most) + (Line(last) + tail))) == Partial(most + [last])
  {
    hide Scan, Lines, Line, Clean, ParseHead, Reads;
    CutHead(line, most, Line(last) + tail);
    LastLine(line + CRLF + (Lines(most) + (Line(last) + tail)), |line| + 2 + |Lines(most)|, most, last, tail);
  }

  /** The line of the last header the table has room for. */
  lemma LastLine(buf: string, e: nat, most: seq<Slot>, last: Slot, tail: string)
    requires e <= |buf| && buf[e..] == Line(last) + tail && Clean(last) && |most| + 1 == MAX_HEADERS
    ensures Scan(buf, e, most, |most|, true, 1) == Partial(most + [last])
  {
    hide Scan, Line, Reads, KeyShape, ValueShape;
    WholeReads(buf, e, Line(last) + tail);
    ReadsSplit(buf, e, Line(last), tail);
    LineSplit(buf, e, last);
    var key, value, i := last.key.value, last.value.value, |most|;
    var keyed := most + [Slot(Some(key), None)];
    ScanKey(buf, e, key, most, 1);
    ScanColon(buf, e + |key|, " ", value, keyed, i);
    assert keyed[i := last] == most + [last];
    ScanEnd(buf, e + |key| + 3 + |value|, most + [last], i + 1, false, 0);
  }

  lemma LinesParts(hs: seq<Slot>, i: nat, rest: string)
    requires i < |hs|
    ensures Lines(hs) + rest == Lines(hs[..i]) + (Line(hs[i]) + (Lines(hs[i + 1..]) + rest))
  {
    hide Line, Lines;
    assert hs == hs[..i] + hs[i..];
    LinesAppend(hs[..i], hs[i..]);
    LinesCons(hs, i);
    Regroup(Lines(hs[..i]), Line(hs[i]), Lines(hs[i + 1..]), rest);
  }

  lemma LinesCons(hs: seq<Slot>, i: nat)
    requires i < |hs|
    ensures Lines(hs[i..]) == Line(hs[i]) + Lines(hs[i + 1..])
  {
    hide Line;
    assert hs[i..][1..] == hs[i + 1..];
  }

  lemma Regroup(a: string, b: string, c: string, d: string)
    ensures (a + (b + c)) + d == a + (b + (c + d))
  {
  }

  /** Without headers the body offset is one short: it names the last line feed. */
  lemma EmptyHead(buf: string, o: nat)
    requires Reads(buf, o, HeadBytes([]))
    ensures Scan(buf, o, [], 0, true, 2) == Complete([], o + 1)
  {
    assert HeadBytes([]) == CRLF;
    ReadsAt(buf, o, CRLF, 0);
  }

  // ----- Lines that end with a bare line feed ------------------------------------------

  function FieldText(f: Field): string {
    f.key + ":" + f.gap + f.value
  }

  function FeedLine(f: Field): string {
    FieldText(f) + "\n"
  }

  function FeedLines(fs: seq<Field>): string {
    if fs == [] then "" else FeedLine(fs[0]) + FeedLines(fs[1..])
  }

  /** The first, the third and so on. */
  function EveryOther(slots: seq<Slot>): seq<Slot> {
    if |slots| <= 1 then slots else [slots[0]] + EveryOther(slots[2..])
  }

  ghost predicate ReadsFeed(buf: string, o: nat, f: Field) {
    var c := o + |f.key|;
    && Reads(buf, o, f.key) && Reads(buf, c, ":") && Reads(buf, c + 1, f.gap)
    && Reads(buf, c + 1 + |f.gap|, f.value) && Reads(buf, c + 1 + |f.gap| + |f.value|, "\n")
  }

  lemma FeedSplit(buf: string, o: nat, f: Field)
    requires Reads(buf, o, FeedLine(f))
    ensures ReadsFeed(buf, o, f)
    ensures |FeedLine(f)| == |f.key| + |f.gap| + |f.value| + 2
    ensures Reads(buf, o, FieldText(f)) && Reads(buf, o + |FieldText(f)|, "\n")
    ensures |FeedLine(f)| == |FieldText(f)| + 1
  {
    hide Reads;
    ReadsSplit(buf, o, FieldText(f), "\n");
    ReadsSplit(buf, o, f.key + ":" + f.gap, f.value);
    ReadsSplit(buf, o, f.key + ":", f.gap);
    ReadsSplit(buf, o, f.key, ":");
  }

  /** A line is read up to its line feed, which is then taken for the end of the value
      and not of the line. */
  lemma ScanFeed(buf: string, o: nat, f: Field, slots: seq<Slot>, count: nat)
    requires Reads(buf, o, FeedLine(f)) && FieldShape(f) && |slots| < MAX_HEADERS
    ensures Scan(buf, o, slots, |slots|, true, count)
         == Scan(buf, o + |FeedLine(f)|, slots + [FieldSlot(f)], |slots| + 1, false, 0)
  {
    hide Scan, Reads, KeyShape, ValueShape, ValueEnd, WithValue, FeedLine, FieldText, Until;
    var k, v, c := f.key, f.value, o + |f.key|;
    var keyed, at := slots + [Slot(Some(k), None)], c + 1 + |f.gap|;
    FeedSplit(buf, o, f);
    ScanKey(buf, o, k, slots, count);
    ReadsAt(buf, c, ":", 0);
    FeedValue(buf, c, f.gap, v);
    ScanWord(buf, c, keyed, |slots|, true, 0, c, keyed);
    FeedStored(buf, at, keyed, |slots|, v);
    assert keyed[|slots| := FieldSlot(f)] == slots + [FieldSlot(f)];
  }

  lemma FeedValue(buf: string, c: nat, gap: string, v: string)
    requires Reads(buf, c + 1, gap) && (forall d <- gap :: White(d)) && ValueShape(v)
    requires var o := c + 1 + |gap|; Reads(buf, o, v) && Reads(buf, o + |v|, "\n")
    ensures var o := c + 1 + |gap|;
            && Until(buf, c + 1, NotSpace) == o && ValueEnd(buf, o) == o + |v|
            && o + |v| < |buf| && buf[o..o + |v|] == v
  {
    var o := c + 1 + |gap|;
    forall k | c + 1 <= k < o ensures !NotSpace(buf[k]) {
      ReadsAt(buf, c + 1, gap, k - c - 1);
      assert gap[k - c - 1] in gap;
    }
    ReadsAt(buf, o, v, 0);
    UntilIs(buf, c + 1, NotSpace, o);
    forall k | o + 1 <= k < o + |v| ensures !IsEol(buf[k]) {
      ReadsAt(buf, o, v, k - o);
    }
    ReadsAt(buf, o + |v|, "\n", 0);
    UntilIs(buf, o + 1, IsEol, o + |v|);
  }

  lemma FeedStored(buf: string, at: nat, slots: seq<Slot>, i: nat, v: string)
    requires i < |slots| && at < |buf| && ValueEnd(buf, at) == at + |v| < |buf| && buf[at..at + |v|] == v
    ensures WithValue(slots, i, buf, at) == slots[i := slots[i].(value := Some(v))]
  {
  }

  /** The next line is passed over, since only its end counts as one. */
  lemma SkipFeed(buf: string, o: nat, f: Field, slots: seq<Slot>)
    requires Reads(buf, o, FeedLine(f)) && FieldShape(f) && OneLine(f.key) && |slots| < MAX_HEADERS
    ensures Scan(buf, o, slots, |slots|, false, 0) == Scan(buf, o + |FeedLine(f)|, slots, |slots|, true, 1)
  {
    hide *;
    FeedSplit(buf, o, f);
    FeedText(f);
    var e := o + |FieldText(f)|;
    TextUntilFeed(buf, o, FieldText(f), e);
    ScanSkip(buf, o, slots);
    FeedIsEol();
    ScanEol(buf, e, slots, |slots|, false, 0);
  }

  lemma FeedIsEol()
    ensures IsEol('\n')
  {
  }

  lemma TextUntilFeed(buf: string, o: nat, text: string, e: nat)
    requires Reads(buf, o, text) && OneLine(text) && e == o + |text| && Reads(buf, e, "\n")
    ensures Until(buf, o, IsEol) == e < |buf| && buf[e] == '\n'
  {
    hide Reads;
    ReadsAt(buf, e, "\n", 0);
    forall k | o <= k < e ensures !IsEol(buf[k]) {
      ReadsAt(buf, o, text, k - o);
      assert text[k - o] in text;
    }
    UntilIs(buf, o, IsEol, e);
  }

  lemma FeedText(f: Field)
    requires FieldShape(f) && OneLine(f.key)
    ensures OneLine(FieldText(f))
  {
  }

  lemma {:induction false} ScanFeeds(buf: string, o: nat, fs: seq<Field>, slots: seq<Slot>, count: nat)
    requires Reads(buf, o, FeedLines(fs)) && (forall f <- fs :: FieldShape(f) && OneLine(f.key))
    requires |slots| + |fs| < MAX_HEADERS && 1 <= count <= 2
    ensures var all := slots + EveryOther(FieldSlots(fs));
            Scan(buf, o, slots, |slots|, true, count)
            == Scan(buf, o + |FeedLines(fs)|, all, |all|, |fs| % 2 == 0,
                    if fs == [] then count else if |fs| % 2 == 0 then 1 else 0)
    decreases |fs|
  {
    hide Scan, FeedLine, FieldShape, FieldSlot, Reads;
    if fs == [] {
      assert slots + EveryOther(FieldSlots(fs)) == slots;
    } else if |fs| == 1 {
      assert fs[0] in fs;
      ReadsSplit(buf, o, FeedLine(fs[0]), FeedLines(fs[1..]));
      ScanFeed(buf, o, fs[0], slots, count);
      assert fs[1..] == [] && FieldSlots(fs) == [FieldSlot(fs[0])];
    } else {
      assert fs[0] in fs && fs[1] in fs && forall f <- fs[2..] :: f in fs;
      var all := slots + [FieldSlot(fs[0])];
      var o' := TwoFeeds(buf, o, fs, slots, count);
      hide FeedLines, FieldSlots, EveryOther;
      ScanFeeds(buf, o', fs[2..], all, 1);
      OtherSlots(fs);
      Moved(slots, FieldSlot(fs[0]), EveryOther(FieldSlots(fs[2..])));
    }
  }

  lemma Moved(a: seq<Slot>, s: Slot, b: seq<Slot>)
    ensures a + [s] + b == a + ([s] + b)
  {
  }

  /** Of two lines the first is read and the second passed over. */
  lemma TwoFeeds(buf: string, o: nat, fs: seq<Field>, slots: seq<Slot>, count: nat) returns (o': nat)
    requires |fs| >= 2 && Reads(buf, o, FeedLines(fs)) && |slots| + 1 < MAX_HEADERS
    requires FieldShape(fs[0]) && FieldShape(fs[1]) && OneLine(fs[1].key)
    ensures Reads(buf, o', FeedLines(fs[2..])) && o' + |FeedLines(fs[2..])| == o + |FeedLines(fs)|
    ensures Scan(buf, o, slots, |slots|, true, count)
         == Scan(buf, o', slots + [FieldSlot(fs[0])], |slots| + 1, true, 1)
  {
    hide *;
    FeedsCons(fs);
    FeedsCons(fs[1..]);
    assert fs[1..][0] == fs[1] && fs[1..][1..] == fs[2..];
    ReadsSplit(buf, o, FeedLine(fs[0]), FeedLines(fs[1..]));
    var all, o1 := slots + [FieldSlot(fs[0])], o + |FeedLine(fs[0])|;
    ReadsSplit(buf, o1, FeedLine(fs[1]), FeedLines(fs[2..]));
    ScanFeed(buf, o, fs[0], slots, count);
    SkipFeed(buf, o1, fs[1], all);
    o' := o1 + |FeedLine(fs[1])|;
  }

  lemma FeedsCons(fs: seq<Field>)
    requires fs != []
    ensures FeedLines(fs) == FeedLine(fs[0]) + FeedLines(fs[1..])
  {
  }

  lemma OtherSlots(fs: seq<Field>)
    requires |fs| >= 2
    ensures EveryOther(FieldSlots(fs)) == [FieldSlot(fs[0])] + EveryOther(FieldSlots(fs[2..]))
  {
    assert FieldSlots(fs)[2..] == FieldSlots(fs[2..]);
  }

  /** Bare line feeds, which section 3.5 of RFC 7230 lets a recipient accept: every
      second header is lost, and the empty line does not end the head. */
  lemma BareLineFeeds(line: string, fs: seq<Field>)
    requires OneLine(line) && |fs| + 1 < MAX_HEADERS && forall f <- fs :: FieldShape(f) && OneLine(f.key)
    ensures ParseHead(line + "\n" + (FeedLines(fs) + "\n")) == Partial(EveryOther(FieldSlots(fs)))
  {
    hide Scan, FeedLines, FieldShape, Reads, EveryOther, ParseHead;
    var rest := FeedLines(fs) + "\n";
    var buf, o := line + "\n" + rest, |line| + 1;
    FirstFeed(line, rest);
    ReadsSplit(buf, o, FeedLines(fs), "\n");
    ScanFeeds(buf, o, fs, [], 1);
    var all, e := EveryOther(FieldSlots(fs)), o + |FeedLines(fs)|;
    assert [] + all == all;
    FewerOther(FieldSlots(fs));
    ReadsAt(buf, e, "\n", 0);
    ScanEol(buf, e, all, |all|, |fs| % 2 == 0, if |fs| % 2 == 0 then 1 else 0);
    ScanEnd(buf, e + 1, all, |all|, true, if |fs| % 2 == 0 then 2 else 1);
  }

  lemma FirstFeed(line: string, rest: string)
    requires OneLine(line)
    ensures var buf := line + "\n" + rest;
            && Reads(buf, |line| + 1, rest) && |line| + 1 + |rest| == |buf|
            && ParseHead(buf) == Scan(buf, |line| + 1, [], 0, true, 1)
  {
    hide Scan;
    var buf, o := line + "\n" + rest, |line|;
    assert buf[o] == '\n' && buf[o + 1..] == rest;
    assert forall k :: 0 <= k < o ==> buf[k] == line[k] && line[k] in line;
    UntilIs(buf, 0, IsEol, o);
    ScanEol(buf, o, [], 0, false, 0);
  }

  lemma {:induction false} FewerOther(slots: seq<Slot>)
    ensures |EveryOther(slots)| <= |slots|
  {
    if |slots| <= 1 {
    } else {
      FewerOther(slots[2..]);
    }
  }

  // ----- What `print_headers` can print ---------------------------------------------

  ghost predicate Filled(slots: seq<Slot>) {
    forall s <- slots :: s.value.Some?
  }

  /** `print_headers` and the log message around it dereference the table, every
      value, and the text they print, which is NULL for an empty table. */
  ghost predicate Printable(h: Head) {
    !h.NoLine? && h.slots != [] && Filled(h.slots)
  }

  /** The buffer ends with a colon at `k`.  As a key it is taken for its own colon. */
  predicate LoneColon(buf: string, k: nat) {
    k + 1 == |buf| && buf[k] == ':'
  }

  predicate NotEol(c: char) {
    !IsEol(c)
  }

  /** Where the next key starts: behind the next line break, or the next two in a row.
      Three end the head, and then there is none, as at the end of the buffer. */
  function NextKey(buf: string, o: nat): (k: nat)
    ensures o <= k
    ensures k < |buf| ==> !IsEol(buf[k])
  {
    var s := Until(buf, o, IsEol);
    var k := Until(buf, s, NotEol);
    if k <= s + 2 then k else if o <= |buf| then |buf| else o
  }

  /** Whether the buffer ends inside of a key, or in front of the colon behind it,
      from the key at `k` on, which has `n` in front. */
  predicate EndsInKey(buf: string, k: nat, n: nat)
    decreases |buf| - k
  {
    if |buf| <= k || MAX_HEADERS <= n then false
    else
      var c := Until(buf, k + 1, IsColon);
      if |buf| <= c then !LoneColon(buf, k)
      else
        var colon := if buf[k] == ':' && c == k + 1 then k else c;
        EndsInKey(buf, NextKey(buf, ValueEnd(buf, Until(buf, colon + 1, NotSpace)) + 1), n + 1)
  }

  /** A key behind whose first character no colon follows keeps a slot without a
      value. */
  lemma ScanCutKey(buf: string, o: nat, slots: seq<Slot>, count: nat)
    requires |slots| < MAX_HEADERS && o < |buf| && !IsEol(buf[o])
    requires Until(buf, o + 1, IsColon) == |buf| && !LoneColon(buf, o)
    ensures Scan(buf, o, slots, |slots|, true, count) == Partial(slots + [Slot(Some(buf[o..]), None)])
  {
    hide Scan;
    var last, keyed := |buf| - 1, slots + [Slot(Some(buf[o..]), None)];
    assert buf[o..last + 1] == buf[o..];
    ScanWord(buf, o, slots, |slots|, true, count, last, keyed);
    ScanEnd(buf, |buf|, keyed, |slots|, true, 0);
  }

  lemma FilledMore(slots: seq<Slot>, s: Slot)
    ensures Filled(slots + [s]) <==> Filled(slots) && s.value.Some?
  {
    assert (slots + [s])[|slots|] == s;
    assert forall t <- slots :: t in slots + [s];
  }

  /** The value stored for a key completes the slots. */
  lemma FilledValue(buf: string, slots: seq<Slot>, key: string, v: nat)
    requires Filled(slots)
    ensures Filled(WithValue(slots + [Slot(Some(key), None)], |slots|, buf, v))
  {
    hide Filled, ValueEnd;
    var all := WithValue(slots + [Slot(Some(key), None)], |slots|, buf, v);
    assert all == slots + [all[|slots|]];
    FilledMore(slots, all[|slots|]);
  }

  /** Any other key gets its value. */
  lemma ScanWholeKey(buf: string, o: nat, slots: seq<Slot>, count: nat)
    returns (o': nat, slots': seq<Slot>, c: nat)
    requires |slots| < MAX_HEADERS && o < |buf| && !IsEol(buf[o]) && Filled(slots)
    requires Until(buf, o + 1, IsColon) < |buf| || LoneColon(buf, o)
    ensures o < o' && |slots'| == |slots| + 1 && Filled(slots')
    ensures c == if buf[o] == ':' && Until(buf, o + 1, IsColon) == o + 1 then o else Until(buf, o + 1, IsColon)
    ensures c < |buf| && buf[c] == ':' && o' == ValueEnd(buf, Until(buf, c + 1, NotSpace)) + 1
    ensures Scan(buf, o, slots, |slots|, true, count) == Scan(buf, o', slots', |slots'|, false, 0)
  {
    hide Scan, Filled, ValueEnd, WithValue;
    var i := |slots|;
    c := Until(buf, o + 1, IsColon) - 1;
    var key := buf[o..c + 1];
    var keyed := slots + [Slot(Some(key), None)];
    ScanWord(buf, o, slots, i, true, count, c, keyed);
    if buf[c] != ':' {
      c := c + 1;
      ScanWord(buf, c, keyed, i, true, 0, c, keyed);
    }
    var v := Until(buf, c + 1, NotSpace);
    o', slots' := ValueEnd(buf, v) + 1, WithValue(keyed, i, buf, v);
    FilledValue(buf, slots, key, v);
  }

  /** What is not a line break is passed over in front of one. */
  lemma {:induction false} ScanSkip(buf: string, o: nat, slots: seq<Slot>)
    requires |slots| < MAX_HEADERS
    ensures Scan(buf, o, slots, |slots|, false, 0) == Scan(buf, Until(buf, o, IsEol), slots, |slots|, false, 0)
    decreases |buf| - o
  {
    hide Scan;
    if |buf| <= o || IsEol(buf[o]) {
    } else {
      ScanWord(buf, o, slots, |slots|, false, 0, o, slots);
      ScanSkip(buf, o + 1, slots);
    }
  }

  /** From behind a value to the next key. */
  lemma ScanToKey(buf: string, o: nat, slots: seq<Slot>) returns (count: nat)
    requires |slots| < MAX_HEADERS
    ensures NextKey(buf, o) < |buf| ==>
      Scan(buf, o, slots, |slots|, false, 0) == Scan(buf, NextKey(buf, o), slots, |slots|, true, count)
    ensures |buf| <= NextKey(buf, o) ==> Scan(buf, o, slots, |slots|, false, 0).slots == slots
  {
    hide Scan;
    var i, s := |slots|, Until(buf, o, IsEol);
    var k := Until(buf, s, NotEol);
    ScanSkip(buf, o, slots);
    count := k - s;
    if |buf| <= s {
      ScanEnd(buf, s, slots, i, false, 0);
    } else {
      assert s < k;
      ScanEol(buf, s, slots, i, false, 0);
      if s + 1 < k {
        assert !NotEol(buf[s + 1]);
        ScanEol(buf, s + 1, slots, i, true, 1);
      }
      if s + 2 < k {
        assert !NotEol(buf[s + 2]);
        ScanEol(buf, s + 2, slots, i, true, 2);
      } else if |buf| <= k {
        ScanEnd(buf, k, slots, i, true, count);
      }
    }
  }

  /** One step of `EndsInKey`. */
  lemma EndsAt(buf: string, k: nat, n: nat)
    ensures |buf| <= k || MAX_HEADERS <= n ==> !EndsInKey(buf, k, n)
    ensures k < |buf| == Until(buf, k + 1, IsColon) && n < MAX_HEADERS ==> EndsInKey(buf, k, n) == !LoneColon(buf, k)
  {
  }

  lemma EndsOn(buf: string, k: nat, n: nat, c: nat, o: nat)
    requires k < |buf| && n < MAX_HEADERS && Until(buf, k + 1, IsColon) < |buf|
    requires c == if buf[k] == ':' && Until(buf, k + 1, IsColon) == k + 1 then k else Until(buf, k + 1, IsColon)
    requires o == ValueEnd(buf, Until(buf, c + 1, NotSpace)) + 1
    ensures EndsInKey(buf, k, n) == EndsInKey(buf, NextKey(buf, o), n + 1)
  {
    hide NextKey, ValueEnd, Until;
  }

  /** Behind a colon that ends the buffer there is nothing. */
  lemma LoneEnd(buf: string, k: nat, c: nat, o: nat)
    requires LoneColon(buf, k) && c == k && o == ValueEnd(buf, Until(buf, c + 1, NotSpace)) + 1
    ensures |buf| <= NextKey(buf, o)
  {
  }

  /** From a key on the slots are filled unless the buffer ends in a key. */
  lemma {:induction false} ScanFilled(buf: string, k: nat, slots: seq<Slot>, count: nat)
    requires Filled(slots) && k < |buf| && !IsEol(buf[k]) && |slots| <= MAX_HEADERS
    ensures Filled(Scan(buf, k, slots, |slots|, true, count).slots) <==> !EndsInKey(buf, k, |slots|)
    decreases |buf| - k, 0
  {
    hide Scan, Filled, NextKey, ValueEnd, EndsInKey, Until;
    var i := |slots|;
    EndsAt(buf, k, i);
    if MAX_HEADERS <= i {
      ScanEnd(buf, k, slots, i, true, count);
    } else if Until(buf, k + 1, IsColon) == |buf| && !LoneColon(buf, k) {
      ScanCutKey(buf, k, slots, count);
      FilledMore(slots, Slot(Some(buf[k..]), None));
    } else {
      var o', slots', c := ScanWholeKey(buf, k, slots, count);
      if Until(buf, k + 1, IsColon) < |buf| {
        EndsOn(buf, k, i, c, o');
      } else {
        LoneEnd(buf, k, c, o');
        EndsAt(buf, NextKey(buf, o'), i + 1);
      }
      ScanBehind(buf, o', slots');
    }
  }

  /** The same from behind a value on. */
  lemma {:induction false} ScanBehind(buf: string, o: nat, slots: seq<Slot>)
    requires Filled(slots) && |slots| <= MAX_HEADERS
    ensures Filled(Scan(buf, o, slots, |slots|, false, 0).slots) <==> !EndsInKey(buf, NextKey(buf, o), |slots|)
    decreases |buf| - o, 1
  {
    hide Scan, Filled, NextKey, EndsInKey;
    var next := NextKey(buf, o);
    EndsAt(buf, next, |slots|);
    if |slots| == MAX_HEADERS {
      ScanEnd(buf, o, slots, |slots|, false, 0);
    } else {
      var count := ScanToKey(buf, o, slots);
      if next < |buf| { ScanFilled(buf, next, slots, count); }
    }
  }

  /** The log message that prints the headers of a read survives exactly those
      buffers that hold a line break with a key behind it and do not end in a key. */
  lemma PrintableIff(buf: string)
    ensures Printable(ParseHead(buf)) <==> NextKey(buf, 0) < |buf| && !EndsInKey(buf, NextKey(buf, 0), 0)
  {
    hide Scan, EndsInKey;
    var o := Until(buf, 0, IsEol);
    if o < |buf| {
      assert Filled([]) && NextKey(buf, o) == NextKey(buf, 0);
      var count := ScanToKey(buf, o, []);
      if NextKey(buf, o) < |buf| {
        ScanFilled(buf, NextKey(buf, o), [], count);
        ScanKeyCounts(buf, NextKey(buf, o), [], 0, count);
      }
    }
  }

  /** A complete head can be printed unless it has no header. */
  lemma CompletePrintable(buf: string)
    requires ParseHead(buf).Complete?
    ensures Printable(ParseHead(buf)) <==> ParseHead(buf).slots != []
  {
    CompleteShaped(buf);
  }

  /** Line breaks alone add no slots. */
  lemma {:induction false} ScanOnlyEol(buf: string, o: nat, slots: seq<Slot>, reset: bool, count: nat)
    requires forall k :: o <= k < |buf| ==> IsEol(buf[k])
    ensures Scan(buf, o, slots, |slots|, reset, count).slots == slots
    decreases |buf| - o
  {
    if |slots| < MAX_HEADERS && o < |buf| && count + 1 <= 2 {
      ScanOnlyEol(buf, o + 1, slots, true, count + 1);
    }
  }

  /** Where a line that is cut at or behind its colon leaves the parser: nothing but
      line breaks is left. */
  lemma CutValue(buf: string, e: nat, s: Slot, n: nat, c: nat)
    requires Clean(s) && 1 <= n <= |Line(s)| && e + n == |buf| && buf[e..] == Line(s)[..n]
    requires c == (if n > |s.key.value| then e + |s.key.value| else e)
    requires n > |s.key.value| || n == 1
    ensures forall k :: ValueEnd(buf, Until(buf, c + 1, NotSpace)) < k < |buf| ==> IsEol(buf[k])
  {
    hide ValueEnd, Line, Until;
    var key, v := s.key.value, s.value.value;
    CutAt(buf, e, s, n);
    LineShape(s);
    if n <= |key| + 2 {
      UntilIs(buf, c + 1, NotSpace, |buf|);
    } else {
      assert forall k :: c + 2 <= k < |buf| && k < c + 2 + |v| ==> buf[k] == v[k - c - 2];
      CutText(buf, c, v);
    }
  }

  lemma CutAt(buf: string, e: nat, s: Slot, n: nat)
    requires n <= |Line(s)| && e + n == |buf| && buf[e..] == Line(s)[..n]
    ensures forall k :: e <= k < |buf| ==> buf[k] == Line(s)[k - e]
  {
    hide Line;
    forall k | e <= k < |buf| ensures buf[k] == Line(s)[k - e] {
      assert buf[k] == buf[e..][k - e];
    }
  }

  lemma CutText(buf: string, c: nat, v: string)
    requires ValueShape(v) && c + 2 < |buf| <= c + 4 + |v|
    requires IsSpace(buf[c + 1]) && forall k :: c + 2 <= k < |buf| && k < c + 2 + |v| ==> buf[k] == v[k - c - 2]
    requires c + 2 + |v| < |buf| ==> buf[c + 2 + |v|] == '\r'
    requires c + 3 + |v| < |buf| ==> buf[c + 3 + |v|] == '\n'
    ensures forall k :: ValueEnd(buf, Until(buf, c + 1, NotSpace)) < k < |buf| ==> IsEol(buf[k])
  {
    hide Until;
    var at := c + 2;
    assert buf[at] == v[0];
    UntilIs(buf, c + 1, NotSpace, at);
    UntilIs(buf, at + 1, IsEol, if |buf| <= at + |v| then |buf| else at + |v|);
  }

  lemma LineShape(s: Slot)
    requires s.key.Some? && s.value.Some?
    ensures var l, k, v := Line(s), |s.key.value|, s.value.value;
            && |l| == k + |v| + 4 && l[k + 1] == ' ' && l[k + |v| + 2] == '\r' && l[k + |v| + 3] == '\n'
            && forall j :: 0 <= j < |v| ==> l[k + 2 + j] == v[j]
  {
  }

  /** Which cuts of a clean head leave something that can be printed: behind the first
      line at least one header, and no cut inside of a key or in front of its colon.
      A single colon that starts a key is taken for a whole key. */
  lemma CutPrintable(line: string, hs: seq<Slot>, s: Slot, n: nat)
    requires OneLine(line)
    requires (forall h <- hs :: Clean(h)) && Clean(s) && |hs| + 1 < MAX_HEADERS && n <= |Line(s)|
    ensures Printable(ParseHead(line + CRLF + (Lines(hs) + Line(s)[..n])))
       <==> if n == 0 then hs != [] else n > |s.key.value| || (n == 1 && s.key.value[0] == ':')
  {
    hide Scan, Lines, Clean, ParseHead, Filled, Line;
    CutHead(line, hs, Line(s)[..n]);
    FilledClean(hs);
    var buf := line + CRLF + (Lines(hs) + Line(s)[..n]);
    CutLine(buf, |line| + 2 + |Lines(hs)|, hs, s, n, if hs == [] then 2 else 1);
  }

  /** The parse of a head that breaks off behind some whole lines. */
  lemma CutHead(line: string, hs: seq<Slot>, part: string)
    requires OneLine(line)
    requires (forall h <- hs :: Clean(h)) && |hs| < MAX_HEADERS
    ensures var buf, e := line + CRLF + (Lines(hs) + part), |line| + 2 + |Lines(hs)|;
            && e + |part| == |buf| && buf[e..] == part
            && ParseHead(buf) == Scan(buf, e, hs, |hs|, true, if hs == [] then 2 else 1)
  {
    hide Scan, Lines, Clean, ParseHead, Reads;
    var rest := Lines(hs) + part;
    var buf := line + CRLF + rest;
    var o := |line| + 2;
    SkipFirstLine(line, rest);
    ReadsMiddle(line + CRLF, rest, "");
    assert line + CRLF + rest + "" == buf;
    ReadsSplit(buf, o, Lines(hs), part);
    ScanLines(buf, o, hs, [], 2);
    assert [] + hs == hs;
    ReadsEnd(buf, o + |Lines(hs)|, part);
  }

  lemma ReadsEnd(buf: string, e: nat, part: string)
    requires Reads(buf, e, part) && e + |part| == |buf|
    ensures buf[e..] == part
  {
  }

  lemma FilledClean(hs: seq<Slot>)
    requires forall h <- hs :: Clean(h)
    ensures Filled(hs)
  {
  }

  lemma CutLine(buf: string, e: nat, hs: seq<Slot>, s: Slot, n: nat, count: nat)
    requires Filled(hs) && Clean(s) && |hs| + 1 < MAX_HEADERS && n <= |Line(s)|
    requires e + n == |buf| && buf[e..] == Line(s)[..n]
    ensures var h := Scan(buf, e, hs, |hs|, true, count);
            (h.slots != [] && Filled(h.slots)
             <==> if n == 0 then hs != [] else n > |s.key.value| || (n == 1 && s.key.value[0] == ':'))
  {
    hide Scan, Filled, ValueEnd;
    var key, part := s.key.value, Line(s)[..n];
    if n == 0 {
      ScanEnd(buf, e, hs, |hs|, true, count);
    } else {
      CutKey(buf, e, s, n);
      if n > |key| || (n == 1 && key[0] == ':') {
        var o', slots', c := ScanWholeKey(buf, e, hs, count);
        CutValue(buf, e, s, n, c);
        ScanOnlyEol(buf, o', slots', false, 0);
      } else {
        ScanCutKey(buf, e, hs, count);
        FilledMore(hs, Slot(Some(part), None));
      }
    }
  }

  lemma LineAt(s: Slot, k: nat)
    requires s.key.Some? && k <= |s.key.value|
    ensures k < |Line(s)| && Line(s)[k] == if k < |s.key.value| then s.key.value[k] else ':'
  {
  }

  /** The key of a line that is cut behind `n` characters. */
  lemma CutKey(buf: string, e: nat, s: Slot, n: nat)
    requires Clean(s) && 1 <= n <= |Line(s)|
    requires e + n == |buf| && buf[e..] == Line(s)[..n]
    ensures !IsEol(buf[e]) && buf[e] == s.key.value[0]
    ensures n <= |s.key.value| ==> Until(buf, e + 1, IsColon) == |buf|
    ensures n > |s.key.value| ==> Until(buf, e + 1, IsColon) == e + |s.key.value|
  {
    hide Until, Line;
    var key := s.key.value;
    var end := if n <= |key| then |buf| else e + |key|;
    forall k | e <= k <= end && k < |buf|
      ensures buf[k] == if k < e + |key| then key[k - e] else ':'
    {
      LineAt(s, k - e);
      assert buf[k] == buf[e..][k - e];
    }
    UntilIs(buf, e + 1, IsColon, end);
  }

  /** Which cuts of `n` bytes into header lines and the empty line behind them can be
      printed: not in front of the first header, not inside of a key or in front of
      its colon.  A colon that starts a key is taken for a whole key. */
  predicate SafeCut(hs: seq<Slot>, n: nat, first: bool) {
    if hs == [] || n == 0 then !first
    else if n < |Line(hs[0])| then
      hs[0].key.Some? && (n > |hs[0].key.value| || (n == 1 && hs[0].key.value[..1] == ":"))
    else SafeCut(hs[1..], n - |Line(hs[0])|, false)
  }

  lemma SafeStep(hs: seq<Slot>, n: nat, first: bool)
    requires hs != [] && |Line(hs[0])| <= n && Clean(hs[0])
    ensures SafeCut(hs, n, first) == SafeCut(hs[1..], n - |Line(hs[0])|, false)
  {
  }

  lemma {:induction false} SafeBehind(hs: seq<Slot>, n: nat, first: bool)
    requires (forall h <- hs :: Clean(h)) && |Lines(hs)| <= n && (hs != [] || !first)
    ensures SafeCut(hs, n, first)
  {
    hide Line, Clean;
    if hs == [] {
    } else {
      assert hs[0] in hs && forall h <- hs[1..] :: h in hs;
      SafeStep(hs, n, first);
      SafeBehind(hs[1..], n - |Line(hs[0])|, false);
    }
  }

  lemma {:induction false} CutRest(line: string, front: seq<Slot>, hs: seq<Slot>, n: nat)
    requires OneLine(line)
    requires (forall h <- front :: Clean(h)) && (forall h <- hs :: Clean(h)) && |front| + |hs| < MAX_HEADERS
    requires n <= |HeadBytes(hs)|
    ensures Printable(ParseHead(line + CRLF + (Lines(front) + HeadBytes(hs)[..n]))) <==> SafeCut(hs, n, front == [])
    decreases |hs|
  {
    hide Scan, Lines, Clean, ParseHead, Filled, Line;
    if hs == [] {
      CutBlank(line, front, n);
    } else {
      assert hs[0] in hs && forall h <- hs[1..] :: h in hs;
      if n < |Line(hs[0])| {
        CutFirst(hs, n);
        CutPrintable(line, front, hs[0], n);
        SafeLine(hs, n, front == []);
      } else {
        CutNext(front, hs, n);
        SafeStep(hs, n, front == []);
        CutRest(line, front + [hs[0]], hs[1..], n - |Line(hs[0])|);
      }
    }
  }

  lemma SafeLine(hs: seq<Slot>, n: nat, first: bool)
    requires hs != [] && Clean(hs[0]) && n < |Line(hs[0])|
    ensures SafeCut(hs, n, first)
       <==> if n == 0 then !first else n > |hs[0].key.value| || (n == 1 && hs[0].key.value[0] == ':')
  {
    hide Line;
    assert hs[0].key.value[..1] == [hs[0].key.value[0]];
  }

  lemma CutFirst(hs: seq<Slot>, n: nat)
    requires hs != [] && n <= |Line(hs[0])|
    ensures n <= |HeadBytes(hs)| && HeadBytes(hs)[..n] == Line(hs[0])[..n]
  {
    hide Line;
  }

  lemma CutNext(front: seq<Slot>, hs: seq<Slot>, n: nat)
    requires hs != [] && |Line(hs[0])| <= n <= |HeadBytes(hs)|
    ensures n - |Line(hs[0])| <= |HeadBytes(hs[1..])|
    ensures Lines(front) + HeadBytes(hs)[..n]
         == Lines(front + [hs[0]]) + HeadBytes(hs[1..])[..n - |Line(hs[0])|]
  {
    hide Line, Lines, HeadBytes;
    LinesAppend(front, [hs[0]]);
    LinesOne(hs[0]);
    HeadCons(hs);
    TakeBehind(Lines(front), Line(hs[0]), HeadBytes(hs[1..]), n);
  }

  lemma HeadCons(hs: seq<Slot>)
    requires hs != []
    ensures HeadBytes(hs) == Line(hs[0]) + HeadBytes(hs[1..])
  {
    hide Line;
  }

  lemma TakeBehind(a: string, l: string, rest: string, n: nat)
    requires |l| <= n <= |l + rest|
    ensures a + (l + rest)[..n] == a + l + rest[..n - |l|]
  {
    assert (l + rest)[..n] == l + rest[..n - |l|];
  }

  /** A cut inside of the empty line. */
  lemma CutBlank(line: string, front: seq<Slot>, n: nat)
    requires OneLine(line)
    requires (forall h <- front :: Clean(h)) && |front| < MAX_HEADERS && n <= |HeadBytes([])|
    ensures Printable(ParseHead(line + CRLF + (Lines(front) + HeadBytes([])[..n]))) <==> front != []
  {
    hide Scan, Clean, ParseHead, Filled, Lines;
    var part := HeadBytes([])[..n];
    EmptyLine(n);
    CutHead(line, front, part);
    FilledClean(front);
    var count := if front == [] then 2 else 1;
    BlankEnd(line + CRLF + (Lines(front) + part), |line| + 2 + |Lines(front)|, part, front, count);
  }

  lemma EmptyLine(n: nat)
    requires n <= |HeadBytes([])|
    ensures forall c <- HeadBytes([])[..n] :: IsEol(c)
  {
  }

  lemma BlankEnd(buf: string, e: nat, part: string, slots: seq<Slot>, count: nat)
    requires e + |part| == |buf| && buf[e..] == part && forall c <- part :: IsEol(c)
    ensures Scan(buf, e, slots, |slots|, true, count).slots == slots
  {
    hide Scan;
    forall k | e <= k < |buf| ensures IsEol(buf[k]) {
      assert buf[k] == part[k - e] && part[k - e] in part;
    }
    ScanOnlyEol(buf, e, slots, true, count);
  }

  /** Every cut of a clean head: none inside of the first line can be printed, behind
      it those the lines allow. */
  lemma CutIff(line: string, hs: seq<Slot>, n: nat)
    requires OneLine(line)
    requires 1 <= |hs| < MAX_HEADERS && forall h <- hs :: Clean(h)
    requires n <= |line + CRLF + HeadBytes(hs)|
    ensures Printable(ParseHead((line + CRLF + HeadBytes(hs))[..n]))
       <==> |line| + 2 <= n && SafeCut(hs, n - |line| - 2, true)
  {
    hide Scan, Lines, Clean, ParseHead, Filled, SafeCut;
    var head := line + CRLF + HeadBytes(hs);
    if n < |line| + 2 {
      assert head[..n] == (line + CRLF)[..n];
      CutFirstLine(line, n);
    } else {
      var m := n - |line| - 2;
      NoLines();
      assert head[..n] == line + CRLF + ("" + HeadBytes(hs)[..m]);
      CutRest(line, [], hs, m);
    }
  }

  lemma NoLines()
    ensures Lines([]) == ""
  {
  }

  lemma CutFirstLine(line: string, n: nat)
    requires OneLine(line) && n < |line| + 2
    ensures !Printable(ParseHead((line + CRLF)[..n]))
  {
    var buf := (line + CRLF)[..n];
    assert forall k :: 0 <= k < n && k < |line| ==> buf[k] == line[k];
    UntilIs(buf, 0, IsEol, if n <= |line| then n else |line|);
    if |line| < n {
      ScanOnlyEol(buf, |line|, [], false, 0);
    }
  }
}
