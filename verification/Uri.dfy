/**
 Percent-encoding and form encoding (uri.c, `url_encode_headers` of headers.c).
 The characters that need no encoding are those of section 2.3 of RFC 2396.
 */
module Uri {
  import opened Wrappers
  import opened Str
  import opened Headers

  const MARKS := "-_.!~*'()"
  const HEX := "0123456789ABCDEF"

  predicate IsClean(c: char) {
    'A' <= c <= 'Z' || 'a' <= c <= 'z' || '0' <= c <= '9' || c in MARKS
  }

  predicate IsByte(c: char) {
    c < 256 as char
  }

  predicate IsEquals(c: char) {
    c == '='
  }

  predicate IsAmp(c: char) {
    c == '&'
  }

  // ----- Percent-encoding ------------------------------------------------------

  function EncodeChar(c: char): (r: string)
    requires IsByte(c)
    ensures |r| == if IsClean(c) then 1 else 3
  {
    if IsClean(c) then [c] else ['%', HEX[c as int / 16], HEX[c as int % 16]]
  }

  function Encode(s: string): string
    requires forall c <- s :: IsByte(c)
  {
    if s == "" then "" else Encode(s[..|s| - 1]) + EncodeChar(s[|s| - 1])
  }

  /** `from_hex`; a character that is no digit counts nothing. */
  function FromHex(a: char, b: char): (c: char)
    ensures IsByte(c)
  {
    var hi := if DigitVal(a) < 0 then 0 else DigitVal(a) * 16;
    var lo := if DigitVal(b) < 0 then 0 else DigitVal(b);
    (hi + lo) as char
  }

  /** The character decoded at position `i`, and where the next one starts. */
  function DecodedChar(s: string, i: nat): char
    requires i < |s|
  {
    if s[i] == '+' then ' '
    else if s[i] == '%' then FromHex(At(s, i + 1), At(s, i + 2))
    else s[i]
  }

  function NextAt(s: string, i: nat): (n: nat)
    requires i < |s|
    ensures i < n
  {
    if s[i] == '%' then i + 3 else i + 1
  }

  /** The text from position `i` on, decoded. */
  function DecodeFrom(s: string, i: nat): string
    decreases |s| - i
  {
    if |s| <= i then "" else [DecodedChar(s, i)] + DecodeFrom(s, NextAt(s, i))
  }

  lemma HexByte(c: char)
    requires IsByte(c)
    ensures FromHex(HEX[c as int / 16], HEX[c as int % 16]) == c
  {
    HexDigit(c as int / 16);
    HexDigit(c as int % 16);
  }

  lemma HexDigit(d: nat)
    requires d < 16
    ensures DigitVal(HEX[d]) == d
  {
    assert HEX[0] == '0' && HEX[9] == '9' && HEX[10] == 'A' && HEX[15] == 'F';
  }

  lemma {:induction false} DecodeSplit(a: string, b: string, i: nat)
    requires i <= |a| && WholeEscapes(a, i)
    ensures DecodeFrom(a + b, i) == DecodeFrom(a, i) + DecodeFrom(a + b, |a|)
    decreases |a| - i
  {
    hide DecodedChar, NextAt, WholeEscapes;
    if |a| <= i {
    } else {
      DecodeHere(a, b, i);
      DecodeSplit(a, b, NextAt(a, i));
    }
  }

  /** A whole escape is decoded alike whatever follows. */
  lemma DecodeHere(a: string, b: string, i: nat)
    requires i < |a| && WholeEscapes(a, i)
    ensures DecodedChar(a + b, i) == DecodedChar(a, i) && NextAt(a + b, i) == NextAt(a, i)
    ensures NextAt(a, i) <= |a| && WholeEscapes(a, NextAt(a, i))
  {
    assert (a + b)[i] == a[i];
  }

  /** No percent sign within two characters of the end. */
  ghost predicate WholeEscapes(s: string, i: nat)
    decreases |s| - i
  {
    |s| <= i || (if s[i] == '%' then i + 3 <= |s| && WholeEscapes(s, i + 3) else WholeEscapes(s, i + 1))
  }

  lemma {:induction false} WholeAppend(a: string, b: string, i: nat)
    requires i <= |a| && WholeEscapes(a, i) && WholeEscapes(a + b, |a|)
    ensures WholeEscapes(a + b, i)
    decreases |a| - i
  {
    if |a| <= i {
    } else {
      assert (a + b)[i] == a[i];
      WholeAppend(a, b, if a[i] == '%' then i + 3 else i + 1);
    }
  }

  lemma EncodedChar(a: string, c: char)
    requires IsByte(c)
    ensures WholeEscapes(a + EncodeChar(c), |a|)
    ensures DecodeFrom(a + EncodeChar(c), |a|) == [c]
  {
    hide *;
    var e := EncodeChar(c);
    assert (a + e)[|a|..] == e;
    EncodeCases(c);
    if IsClean(c) {
      DecodeClean(a + e, |a|, c);
    } else {
      HexByte(c);
      DecodeEscape(a + e, |a|, HEX[c as int / 16], HEX[c as int % 16]);
    }
  }

  lemma EncodeCases(c: char)
    requires IsByte(c)
    ensures c as int / 16 < |HEX| && c as int % 16 < |HEX|
    ensures EncodeChar(c) == if IsClean(c) then [c] else ['%', HEX[c as int / 16], HEX[c as int % 16]]
  {
    hide IsClean;
  }

  lemma DecodeClean(s: string, i: nat, c: char)
    requires |s| == i + 1 && s[i..] == [c] && IsClean(c)
    ensures WholeEscapes(s, i) && DecodeFrom(s, i) == [c]
  {
    CleanChar(c);
    hide IsClean;
    assert s[i] == s[i..][0];
    assert DecodeFrom(s, i + 1) == "";
  }

  lemma CleanChar(c: char)
    ensures IsClean(c) ==> c != '+' && c != '%'
  {
  }

  lemma DecodeEscape(s: string, i: nat, x: char, y: char)
    requires |s| == i + 3 && s[i..] == ['%', x, y]
    ensures WholeEscapes(s, i) && DecodeFrom(s, i) == [FromHex(x, y)]
  {
    assert s[i] == s[i..][0] && s[i + 1] == s[i..][1] && s[i + 2] == s[i..][2];
    assert DecodeFrom(s, i + 3) == "";
  }

  lemma {:induction false} EncodeWhole(s: string)
    requires forall c <- s :: IsByte(c)
    ensures WholeEscapes(Encode(s), 0)
    ensures DecodeFrom(Encode(s), 0) == s
  {
    if s == "" {
    } else {
      var t, c := s[..|s| - 1], s[|s| - 1];
      EncodeWhole(t);
      EncodedChar(Encode(t), c);
      WholeAppend(Encode(t), EncodeChar(c), 0);
      DecodeSplit(Encode(t), EncodeChar(c), 0);
    }
  }

  /** Decoding undoes encoding, for every byte string. */
  lemma UriRoundTrip(s: string)
    requires forall c <- s :: IsByte(c)
    ensures DecodeFrom(Encode(s), 0) == s
  {
    EncodeWhole(s);
  }

  /** The unreserved characters of section 2.3 of RFC 2396 stay as they are; every other
      byte becomes a percent sign and its two digits. */
  lemma EncodedForm(c: char)
    requires IsByte(c)
    ensures EncodeChar(c) == [c] <==>
      || 'A' <= c <= 'Z' || 'a' <= c <= 'z' || '0' <= c <= '9'
      || c == '-' || c == '_' || c == '.' || c == '!' || c == '~' || c == '*' || c == '\'' || c == '(' || c == ')'
    ensures EncodeChar(c) == [c]
         || EncodeChar(c) == ['%', "0123456789ABCDEF"[c as int / 16], "0123456789ABCDEF"[c as int % 16]]
  {
    assert MARKS == ['-', '_', '.', '!', '~', '*', '\'', '(', ')'];
  }

  /** How a sender may write a byte in a form: as it is, a blank as a plus sign, or by
      a percent sign and two digits in either case. */
  datatype Form = Plain | Plus | Percent(high: bool, low: bool)

  function Digit(d: nat, capital: bool): char
    requires d < 16
  {
    if capital then "0123456789ABCDEF"[d] else "0123456789abcdef"[d]
  }

  predicate MayWrite(c: char, form: Form) {
    match form
    case Plain => c != '%' && c != '+'
    case Plus => c == ' '
    case Percent(_, _) => IsByte(c)
  }

  function Write(c: char, form: Form): string
    requires MayWrite(c, form)
  {
    match form
    case Plain => [c]
    case Plus => "+"
    case Percent(high, low) => ['%', Digit(c as int / 16, high), Digit(c as int % 16, low)]
  }

  function WriteAll(s: string, forms: seq<Form>): string
    requires |s| == |forms| && forall k :: 0 <= k < |s| ==> MayWrite(s[k], forms[k])
  {
    if s == "" then "" else Write(s[0], forms[0]) + WriteAll(s[1..], forms[1..])
  }

  lemma {:induction false} WrittenFrom(buf: string, o: nat, s: string, forms: seq<Form>)
    requires |s| == |forms| && forall k :: 0 <= k < |s| ==> MayWrite(s[k], forms[k])
    requires Reads(buf, o, WriteAll(s, forms)) && o + |WriteAll(s, forms)| == |buf|
    ensures DecodeFrom(buf, o) == s
    decreases |s|
  {
    hide Reads, Write, DecodedChar, NextAt;
    if s == "" {
    } else {
      ReadsSplit(buf, o, Write(s[0], forms[0]), WriteAll(s[1..], forms[1..]));
      WrittenChar(buf, o, s[0], forms[0]);
      WrittenFrom(buf, o + |Write(s[0], forms[0])|, s[1..], forms[1..]);
      assert s == [s[0]] + s[1..];
    }
  }

  /** Decoding undoes every way of writing a text. */
  lemma DecodeWritten(s: string, forms: seq<Form>)
    requires |s| == |forms| && forall k :: 0 <= k < |s| ==> MayWrite(s[k], forms[k])
    ensures DecodeFrom(WriteAll(s, forms), 0) == s
  {
    var buf := WriteAll(s, forms);
    assert buf[0..0 + |buf|] == buf;
    WrittenFrom(buf, 0, s, forms);
  }

  lemma WrittenChar(buf: string, o: nat, c: char, form: Form)
    requires MayWrite(c, form) && Reads(buf, o, Write(c, form))
    ensures o < |buf| && DecodedChar(buf, o) == c && NextAt(buf, o) == o + |Write(c, form)|
  {
    ReadsAt(buf, o, Write(c, form), 0);
    if form.Percent? {
      ReadsAt(buf, o, Write(c, form), 1);
      ReadsAt(buf, o, Write(c, form), 2);
      DigitTable(c as int / 16);
      DigitTable(c as int % 16);
    }
  }

  /** An encoded text has none of the separators of a form, and no white space. */
  predicate Safe(c: char) {
    c != '=' && c != '&' && c != '?' && c != '\0' && !White(c)
  }

  lemma SafeChar(c: char)
    requires IsByte(c)
    ensures forall d <- EncodeChar(c) :: Safe(d)
  {
    if IsClean(c) {
      assert EncodeChar(c) == [c];
      CleanSafe(c);
    } else {
      HexSafe(c as int / 16);
      HexSafe(c as int % 16);
    }
  }

  lemma CleanSafe(c: char)
    ensures IsClean(c) ==> Safe(c)
  {
  }

  lemma HexSafe(d: nat)
    requires d < 16
    ensures Safe(HEX[d])
  {
    assert HEX[d] in HEX;
  }

  lemma {:induction false} EncodeSafe(s: string)
    requires forall c <- s :: IsByte(c)
    ensures forall d <- Encode(s) :: Safe(d)
  {
    if s == "" {
    } else {
      EncodeSafe(s[..|s| - 1]);
      SafeChar(s[|s| - 1]);
    }
  }

  /** `uri_encode`.  Where `char` is signed the table of hex digits can only be
      indexed for bytes below 128. */
  method UriEncode(s: string, signed: bool) returns (r: string)
    requires forall c <- s :: IsByte(c) && (signed ==> c < 128 as char)
    ensures r == Encode(s)
  {
    hide Encode, EncodeChar;
    var length := EncodedLength(s);
    var data := new char[length](_ => '\0');
    EncodeInto(s, data);
    r := data[..];
  }

  method EncodedLength(s: string) returns (j: nat)
    requires forall c <- s :: IsByte(c)
    ensures j == |Encode(s)|
  {
    j := 0;
    for i := 0 to |s|
      invariant j == |Encode(s[..i])|
    {
      assert s[..i + 1][..i] == s[..i];
      j := j + if IsClean(s[i]) then 1 else 3;
    }
    assert s[..|s|] == s;
  }

  method EncodeInto(s: string, data: array<char>)
    requires (forall c <- s :: IsByte(c)) && data.Length == |Encode(s)|
    modifies data
    ensures data[..] == Encode(s)
  {
    hide EncodeChar;
    var j := 0;
    for i := 0 to |s|
      invariant j == |Encode(s[..i])| && j + |EncodeTail(s, i)| == data.Length
      invariant data[..j] == Encode(s[..i])
    {
      assert s[..i + 1][..i] == s[..i];
      j := WriteChar(data, j, s[i]);
    }
    assert s[..|s|] == s;
    assert data[..j] == data[..];
  }

  method WriteChar(data: array<char>, j: nat, c: char) returns (j': nat)
    requires IsByte(c) && j + |EncodeChar(c)| <= data.Length
    modifies data
    ensures j' == j + |EncodeChar(c)| && data[..j'] == old(data[..j]) + EncodeChar(c)
  {
    if IsClean(c) {
      data[j] := c;
      return j + 1;
    }
    data[j] := '%';
    data[j + 1] := HEX[c as int / 16];
    data[j + 2] := HEX[c as int % 16];
    return j + 3;
  }

  /** The part of the encoding that is still to be written. */
  ghost function EncodeTail(s: string, i: nat): (t: string)
    requires i <= |s| && forall c <- s :: IsByte(c)
    ensures |Encode(s[..i])| + |t| == |Encode(s)|
    ensures i < |s| ==> |t| >= |EncodeChar(s[i])|
    decreases |s| - i
  {
    if i == |s| then
      assert s[..i] == s;
      ""
    else
      assert s[..i + 1][..i] == s[..i];
      EncodeChar(s[i]) + EncodeTail(s, i + 1)
  }

  /** `uri_decode` */
  method UriDecode(s: string) returns (r: string)
    ensures r == DecodeFrom(s, 0)
  {
    var data := new char[|s|](_ => '\0');
    hide FromHex, DecodedChar, NextAt;
    var i: nat, j: nat := 0, 0;
    while i < |s|
      invariant j <= i && j <= |s|
      invariant data[..j] + DecodeFrom(s, i) == DecodeFrom(s, 0)
      decreases |s| - i
    {
      ghost var before, rest := data[..j], DecodeFrom(s, NextAt(s, i));
      var c, n := DecodeOne(s, i);
      data[j] := c;
      assert data[..j + 1] == before + [c];
      assert before + ([c] + rest) == before + [c] + rest;
      i := n;
      j := j + 1;
    }
    r := data[..j];
    assert DecodeFrom(s, i) == "";
  }

  method DecodeOne(s: string, i: nat) returns (c: char, n: nat)
    requires i < |s|
    ensures c == DecodedChar(s, i) && n == NextAt(s, i)
  {
    n := i + 1;
    if s[i] == '+' {
      c := ' ';
    } else if s[i] == '%' {
      c := FromHex(At(s, i + 1), At(s, i + 2));
      n := i + 3;
    } else {
      c := s[i];
    }
  }

  // ----- Forms ---------------------------------------------------------------------

  /** The pairs `parse_uri_encoded` reads from position `i` on. */
  function PairsFrom(buf: string, i: nat): (r: seq<Slot>)
    decreases |buf| - i
  {
    var o := Until(buf, i, IsEquals);
    if |buf| <= i || |buf| <= o then []
    else
      var e := Until(buf, o + 1, IsAmp);
      [Slot(Some(buf[i..o]), Some(buf[o + 1..e]))] + PairsFrom(buf, e + 1)
  }

  function Pairs(buf: string, pos: nat): seq<Slot> {
    PairsFrom(buf, Until(buf, pos, NotSpace))
  }

  predicate Full(s: Slot) {
    s.key.Some? && s.value.Some?
  }

  function Pair(s: Slot): string
    requires Full(s)
  {
    s.key.value + "=" + s.value.value
  }

  /** The pairs of a form, joined. */
  function Join(slots: seq<Slot>): string
    requires forall s <- slots :: Full(s)
  {
    if slots == [] then ""
    else if |slots| == 1 then Pair(slots[0])
    else Join(slots[..|slots| - 1]) + "&" + Pair(slots[|slots| - 1])
  }

  /** The same text, seen from its front. */
  lemma {:induction false} JoinFront(slots: seq<Slot>)
    requires |slots| > 1 && forall s <- slots :: Full(s)
    ensures slots[0] in slots && (forall s <- slots[1..] :: Full(s))
    ensures Join(slots) == Pair(slots[0]) + "&" + Join(slots[1..])
  {
    var n := |slots| - 1;
    if n == 1 {
      assert slots[1..] == [slots[1]] && slots[..1] == [slots[0]];
    } else {
      JoinFront(slots[..n]);
      assert slots[..n][1..] == slots[1..][..n - 1];
      assert slots[1..][n - 1] == slots[n];
    }
  }

  predicate Separable(s: Slot) {
    Full(s) && '=' !in s.key.value && '&' !in s.value.value
  }

  lemma PairsStep(buf: string, i: nat, o: nat, e: nat)
    requires i <= o < |buf| && o == Until(buf, i, IsEquals) && e == Until(buf, o + 1, IsAmp)
    ensures e <= |buf|
    ensures PairsFrom(buf, i) == [Slot(Some(buf[i..o]), Some(buf[o + 1..e]))] + PairsFrom(buf, e + 1)
  {
  }

  lemma PairsEnd(buf: string, i: nat)
    requires |buf| <= i || |buf| <= Until(buf, i, IsEquals)
    ensures PairsFrom(buf, i) == []
  {
  }

  /** A key that ends at `q`. */
  lemma ReadKey(buf: string, o: nat, k: string)
    requires Reads(buf, o, k + "=") && '=' !in k
    ensures Until(buf, o, IsEquals) == o + |k| && buf[o..o + |k|] == k
  {
    var q := o + |k|;
    ReadsSplit(buf, o, k, "=");
    ReadsAt(buf, q, "=", 0);
    forall j | o <= j < q ensures !IsEquals(buf[j]) {
      ReadsAt(buf, o, k, j - o);
      assert k[j - o] in k;
    }
    UntilIs(buf, o, IsEquals, q);
  }

  lemma ReadValue(buf: string, o: nat, v: string)
    requires Reads(buf, o, v) && '&' !in v
    requires var e := o + |v|; e == |buf| || buf[e] == '&'
    ensures Until(buf, o, IsAmp) == o + |v|
  {
    forall j | o <= j < o + |v| ensures !IsAmp(buf[j]) {
      ReadsAt(buf, o, v, j - o);
      assert v[j - o] in v;
    }
    UntilIs(buf, o, IsAmp, o + |v|);
  }

  /** One pair is read up to the separator or to the end. */
  lemma ReadPair(buf: string, o: nat, s: Slot)
    requires Separable(s) && Reads(buf, o, Pair(s))
    requires var e := o + |Pair(s)|; e == |buf| || buf[e] == '&'
    ensures PairsFrom(buf, o) == [s] + PairsFrom(buf, o + |Pair(s)| + 1)
  {
    hide PairsFrom;
    var k, v := s.key.value, s.value.value;
    ReadsSplit(buf, o, k + "=", v);
    ReadKey(buf, o, k);
    ReadsSplit(buf, o, k, "=");
    ReadValue(buf, o + |k| + 1, v);
    PairsStep(buf, o, o + |k|, o + |Pair(s)|);
  }

  lemma {:induction false} ReadPairs(buf: string, o: nat, slots: seq<Slot>)
    requires slots != [] && (forall s <- slots :: Full(s)) && (forall s <- slots :: Separable(s))
    requires Reads(buf, o, Join(slots)) && o + |Join(slots)| == |buf|
    ensures PairsFrom(buf, o) == slots
    decreases |slots|
  {
    hide PairsFrom, Join, Pair, Separable;
    assert slots[0] in slots;
    if |slots| == 1 {
      JoinOne(slots);
      ReadPair(buf, o, slots[0]);
      PairsEnd(buf, |buf| + 1);
    } else {
      JoinFront(slots);
      var rest := Join(slots[1..]);
      ReadsSplit(buf, o, Pair(slots[0]) + "&", rest);
      ReadsSplit(buf, o, Pair(slots[0]), "&");
      ReadsAt(buf, o + |Pair(slots[0])|, "&", 0);
      ReadPair(buf, o, slots[0]);
      assert forall s <- slots[1..] :: s in slots;
      ReadPairs(buf, o + |Pair(slots[0])| + 1, slots[1..]);
    }
  }

  lemma JoinOne(slots: seq<Slot>)
    requires |slots| == 1 && forall s <- slots :: Full(s)
    ensures slots[0] in slots && Join(slots) == Pair(slots[0])
  {
  }

  /** Whatever is parsed, keys hold no equals sign and values no ampersand. */
  lemma {:induction false} ParsedSeparable(buf: string, i: nat)
    ensures forall s <- PairsFrom(buf, i) :: Separable(s)
    decreases |buf| - i
  {
    hide PairsFrom;
    var o := Until(buf, i, IsEquals);
    if i < |buf| && o < |buf| {
      var e := Until(buf, o + 1, IsAmp);
      PairsStep(buf, i, o, e);
      ParsedSeparable(buf, e + 1);
      assert Separable(Slot(Some(buf[i..o]), Some(buf[o + 1..e])));
    } else {
      PairsEnd(buf, i);
    }
  }

  /** Joining and splitting restores a list exactly when no key holds an equals
      sign, no value an ampersand, and the first key starts with no white space. */
  lemma JoinIff(slots: seq<Slot>)
    requires slots != [] && forall s <- slots :: Full(s)
    ensures slots[0] in slots
    ensures Pairs(Join(slots), 0) == slots
        <==> (forall s <- slots :: Separable(s))
             && (slots[0].key.value != "" ==> !White(slots[0].key.value[0]))
  {
    hide Join, PairsFrom;
    var buf := Join(slots);
    assert slots[0] in slots;
    ParsedSeparable(buf, Until(buf, 0, NotSpace));
    JoinStarts(slots);
    if forall s <- slots :: Separable(s) {
      assert buf[0..0 + |buf|] == buf;
      ReadPairs(buf, 0, slots);
      JoinSpace(buf, slots[0]);
    }
  }

  /** A first key loses its leading white space, and only then is it changed. */
  lemma JoinSpace(buf: string, s: Slot)
    requires Separable(s) && Pair(s) <= buf
    ensures var spaced := s.key.value != "" && IsSpace(s.key.value[0]);
            && (!spaced ==> Until(buf, 0, NotSpace) == 0)
            && (spaced ==> Pairs(buf, 0) == [] || Pairs(buf, 0)[0] != s)
  {
    hide PairsFrom;
    var k := s.key.value;
    assert Pair(s)[0] == buf[0];
    assert buf[0] == if k == "" then '=' else k[0];
    if k != "" && IsSpace(k[0]) {
      var start, o := Until(buf, 0, NotSpace), Until(buf, 0, IsEquals);
      SpaceBeforeEquals(buf);
      assert Reads(buf, 0, k + "=") by { assert buf[0..|k| + 1] == k + "="; }
      ReadKey(buf, 0, k);
      PairsStep(buf, start, o, Until(buf, o + 1, IsAmp));
      assert |buf[start..o]| < |k|;
    } else {
      UntilIs(buf, 0, NotSpace, 0);
    }
  }

  /** Behind the pairs of a form, text without an equals sign is dropped. */
  lemma {:induction false} TailIgnored(buf: string, o: nat, slots: seq<Slot>, tail: string)
    requires slots != [] && (forall s <- slots :: Full(s)) && (forall s <- slots :: Separable(s)) && '=' !in tail
    requires Reads(buf, o, Join(slots) + "&" + tail) && o + |Join(slots)| + 1 + |tail| == |buf|
    ensures PairsFrom(buf, o) == slots
    decreases |slots|
  {
    hide PairsFrom, Join, Pair, Separable, Reads;
    assert slots[0] in slots;
    ReadsSplit(buf, o, Join(slots) + "&", tail);
    ReadsSplit(buf, o, Join(slots), "&");
    if |slots| == 1 {
      JoinOne(slots);
      ReadsAt(buf, o + |Pair(slots[0])|, "&", 0);
      ReadPair(buf, o, slots[0]);
      NoPair(buf, o + |Pair(slots[0])| + 1, tail);
    } else {
      JoinFront(slots);
      var rest := Join(slots[1..]);
      ReadsSplit(buf, o, Pair(slots[0]) + "&", rest);
      ReadsSplit(buf, o, Pair(slots[0]), "&");
      ReadsAt(buf, o + |Pair(slots[0])|, "&", 0);
      ReadPair(buf, o, slots[0]);
      assert forall s <- slots[1..] :: s in slots;
      TailBehind(buf, o, Pair(slots[0]) + "&", rest, tail);
      TailIgnored(buf, o + |Pair(slots[0])| + 1, slots[1..], tail);
    }
  }

  lemma NoPair(buf: string, o: nat, tail: string)
    requires Reads(buf, o, tail) && o + |tail| == |buf| && '=' !in tail
    ensures PairsFrom(buf, o) == []
  {
    hide PairsFrom, Reads;
    forall k | o <= k < |buf| ensures !IsEquals(buf[k]) {
      ReadsAt(buf, o, tail, k - o);
      assert tail[k - o] in tail;
    }
    UntilIs(buf, o, IsEquals, |buf|);
    PairsEnd(buf, o);
  }

  lemma TailBehind(buf: string, o: nat, front: string, rest: string, tail: string)
    requires Reads(buf, o, front + rest + "&" + tail)
    ensures Reads(buf, o + |front|, rest + "&" + tail)
  {
    assert front + rest + "&" + tail == front + (rest + "&" + tail);
    ReadsSplit(buf, o, front, rest + "&" + tail);
  }

  lemma JoinStarts(slots: seq<Slot>)
    requires slots != [] && forall s <- slots :: Full(s)
    ensures slots[0] in slots && Pair(slots[0]) <= Join(slots)
  {
    if |slots| > 1 { JoinFront(slots); }
  }

  lemma SpaceBeforeEquals(buf: string)
    requires |buf| > 0 && IsSpace(buf[0])
    ensures var start := Until(buf, 0, NotSpace);
            0 < start && start <= Until(buf, 0, IsEquals) && Until(buf, start, IsEquals) == Until(buf, 0, IsEquals)
  {
    var start := Until(buf, 0, NotSpace);
    var o := Until(buf, 0, IsEquals);
    UntilIs(buf, start, IsEquals, o);
  }

  // ----- The pipeline: encode, join, split, decode ------------------------------------

  predicate ByteSlot(s: Slot) {
    Full(s) && (forall c <- s.key.value :: IsByte(c)) && (forall c <- s.value.value :: IsByte(c))
  }

  predicate SafeSlot(s: Slot) {
    Full(s) && (forall c <- s.key.value :: Safe(c)) && (forall c <- s.value.value :: Safe(c))
  }

  function EncodeSlot(s: Slot): Slot
    requires ByteSlot(s)
  {
    Slot(Some(Encode(s.key.value)), Some(Encode(s.value.value)))
  }

  function EncodeAll(slots: seq<Slot>): seq<Slot>
    requires forall s <- slots :: ByteSlot(s)
  {
    seq(|slots|, k requires 0 <= k < |slots| => assert slots[k] in slots; EncodeSlot(slots[k]))
  }

  function DecodeSlot(s: Slot): Slot
    requires Full(s)
  {
    Slot(Some(DecodeFrom(s.key.value, 0)), Some(DecodeFrom(s.value.value, 0)))
  }

  function DecodeAll(slots: seq<Slot>): seq<Slot>
    requires forall s <- slots :: Full(s)
  {
    seq(|slots|, k requires 0 <= k < |slots| => assert slots[k] in slots; DecodeSlot(slots[k]))
  }

  lemma EncodedSeparable(slots: seq<Slot>)
    requires forall s <- slots :: ByteSlot(s)
    ensures forall s <- EncodeAll(slots) :: Separable(s)
    ensures forall s <- EncodeAll(slots) :: SafeSlot(s)
    ensures DecodeAll(EncodeAll(slots)) == slots
  {
    hide Encode, DecodeFrom;
    var es := EncodeAll(slots);
    forall k | 0 <= k < |slots|
      ensures Separable(es[k]) && SafeSlot(es[k]) && DecodeSlot(es[k]) == slots[k]
    {
      assert slots[k] in slots;
      EncodeSafe(slots[k].key.value);
      EncodeSafe(slots[k].value.value);
      UriRoundTrip(slots[k].key.value);
      UriRoundTrip(slots[k].value.value);
    }
  }

  /** Form round trip: any non-empty list of byte strings survives encoding,
      joining, splitting and decoding, in order. */
  lemma FormRoundTrip(slots: seq<Slot>)
    requires slots != [] && forall s <- slots :: ByteSlot(s)
    ensures forall s <- EncodeAll(slots) :: Full(s)
    ensures Pairs(Join(EncodeAll(slots)), 0) == EncodeAll(slots)
    ensures DecodeAll(EncodeAll(slots)) == slots
  {
    hide Encode, Join, Pairs;
    EncodedSeparable(slots);
    var es := EncodeAll(slots);
    JoinIff(es);
    assert es[0] in es;
    if es[0].key.value != "" { assert es[0].key.value[0] in es[0].key.value; }
  }

  /** The slots with a key; the others are skipped. */
  function Keyed(slots: seq<Slot>): (r: seq<Slot>)
    ensures forall s <- r :: s in slots && s.key.Some?
  {
    if slots == [] then []
    else Keyed(slots[..|slots| - 1]) + if slots[|slots| - 1].key.Some? then [slots[|slots| - 1]] else []
  }

  lemma EncodeFirst(all: seq<Slot>)
    requires all != [] && all[0].key.Some? && forall s <- all :: s.key.Some? ==> s.value.Some?
    ensures all[0].value.Some? && Keyed(all[..1]) != [] && forall s <- Keyed(all[..1]) :: Full(s)
    ensures Join(Keyed(all[..1])) == all[0].key.value + "=" + all[0].value.value
  {
    assert all[0] in all && all[..0] == [];
    KeyedStep(all, 0);
    JoinOne([all[0]]);
  }

  /** One slot more. */
  lemma EncodeStep(all: seq<Slot>, i: nat)
    requires i < |all| && Keyed(all[..i]) != [] && forall s <- Keyed(all[..i]) :: Full(s)
    requires forall s <- all :: s.key.Some? ==> s.value.Some?
    ensures Keyed(all[..i + 1]) != [] && forall s <- Keyed(all[..i + 1]) :: Full(s)
    ensures all[i].key.Some? ==> all[i].value.Some?
    ensures Join(Keyed(all[..i + 1]))
         == if all[i].key.None? then Join(Keyed(all[..i]))
            else Join(Keyed(all[..i])) + "&" + all[i].key.value + "=" + all[i].value.value
  {
    assert all[i] in all;
    KeyedStep(all, i);
    hide Keyed, Join;
    if all[i].key.Some? { JoinMore(Keyed(all[..i]), all[i]); }
  }

  /** `url_encode_headers`; the first slot must have a key, and every key a value. */
  method UrlEncodeHeaders(src: Table) returns (r: string)
    requires src.Valid() && src.nslots > 0 && src.slots[0].key.Some?
    requires forall s <- src.List() :: s.key.Some? ==> s.value.Some?
    ensures forall s <- Keyed(src.List()) :: Full(s)
    ensures r == Join(Keyed(src.List()))
  {
    hide Keyed, Join, Full;
    ghost var all := src.List();
    EncodeFirst(all);
    r := src.slots[0].key.value + "=" + src.slots[0].value.value;
    var i := 1;
    while i < src.nslots
      invariant 1 <= i <= src.nslots && src.List() == all && Keyed(all[..i]) != []
      invariant forall s <- Keyed(all[..i]) :: Full(s)
      invariant r == Join(Keyed(all[..i]))
    {
      EncodeStep(all, i);
      if src.slots[i].key.Some? {
        r := r + "&" + src.slots[i].key.value + "=" + src.slots[i].value.value;
      }
      i := i + 1;
    }
    assert all[..i] == all;
  }

  lemma KeyedStep(all: seq<Slot>, i: nat)
    requires i < |all|
    ensures Keyed(all[..i + 1]) == if all[i].key.Some? then Keyed(all[..i]) + [all[i]] else Keyed(all[..i])
    ensures Keyed([]) == [] && [] + [all[i]] == [all[i]]
  {
    assert all[..i + 1][..i] == all[..i];
  }

  lemma JoinMore(slots: seq<Slot>, s: Slot)
    requires slots != [] && (forall t <- slots :: Full(t)) && Full(s)
    ensures Join(slots + [s]) == Join(slots) + "&" + s.key.value + "=" + s.value.value
  {
    assert (slots + [s])[..|slots|] == slots;
    assert Join(slots) + "&" + Pair(s) == Join(slots) + "&" + s.key.value + "=" + s.value.value;
  }

  lemma PairMoved(had: seq<Slot>, read: seq<Slot>, pair: Slot, rest: seq<Slot>)
    ensures read + ([pair] + rest) == read + [pair] + rest
    ensures had + (read + [pair]) == had + read + [pair]
  {
  }

  /** `parse_uri_encoded`, appending to a table; `false` when the table overflows
      and the source never returns. */
  method ParseUriEncoded(head: Table, buf: string, pos: nat) returns (ok: bool)
    requires head.Valid()
    modifies head, head.slots
    ensures head.Valid()
    ensures ok <==> old(head.nslots) + |Pairs(buf, pos)| <= MAX_HEADERS
    ensures ok ==> head.List() == old(head.List()) + Pairs(buf, pos)
  {
    hide PairsFrom, Until;
    var i := SkipSpace(buf, pos);
    ghost var read: seq<Slot> := [];
    while i < |buf|
      invariant head.Valid() && head.List() == old(head.List()) + read
      invariant read + PairsFrom(buf, i) == Pairs(buf, pos)
      decreases |buf| - i
    {
      var found, next;
      ghost var pair;
      found, ok, next, pair := ParsePair(head, buf, i);
      if !found { break; }
      PairMoved(old(head.List()), read, pair, PairsFrom(buf, next));
      if !ok { return; }
      read := read + [pair];
      i := next;
    }
    PairsEnd(buf, i);
    assert read == Pairs(buf, pos);
    return true;
  }

  /** One turn of the loop: the pair at `i`, unless no equals sign follows. */
  method ParsePair(head: Table, buf: string, i: nat)
    returns (found: bool, ok: bool, next: nat, ghost pair: Slot)
    requires head.Valid() && i < |buf|
    modifies head, head.slots
    ensures head.Valid()
    ensures !found ==> |buf| <= Until(buf, i, IsEquals) && head.List() == old(head.List())
    ensures found ==> i < next && PairsFrom(buf, i) == [pair] + PairsFrom(buf, next)
    ensures found ==> (ok <==> old(head.nslots) < MAX_HEADERS)
    ensures found && ok ==> head.List() == old(head.List()) + [pair]
  {
    hide PairsFrom, Until;
    var o := FindChar(buf, i, '=', IsEquals);
    ok, next, pair := true, o + 1, Slot(None, None);
    if o >= |buf| { return false, true, next, pair; }
    var e := FindChar(buf, o + 1, '&', IsAmp);
    PairsStep(buf, i, o, e);
    pair := Slot(Some(buf[i..o]), Some(buf[o + 1..e]));
    ok := head.Append(buf[i..o], Some(buf[o + 1..e]));
    return true, ok, e + 1, pair;
  }

  /** The first position that holds no white space; behind the end there is none. */
  method SkipSpace(buf: string, pos: nat) returns (i: nat)
    ensures i == Until(buf, pos, NotSpace)
  {
    i := pos;
    while IsSpace(At(buf, i))
      invariant pos <= i && (i <= |buf| || i == pos)
      invariant forall k :: pos <= k < i ==> k < |buf| && !NotSpace(buf[k])
      decreases |buf| - i
    {
      i := i + 1;
    }
    if i <= |buf| { UntilIs(buf, pos, NotSpace, i); }
  }

  /** `find` for a single delimiter. */
  method FindChar(src: string, pos: nat, delim: char, ghost stop: char -> bool) returns (i: nat)
    requires forall c :: stop(c) <==> c == delim
    ensures i == Until(src, pos, stop)
  {
    i := pos;
    while i < |src|
      invariant pos <= i && (i <= |src| || i == pos)
      invariant forall k :: pos <= k < i ==> !stop(src[k])
    {
      if src[i] == delim { break; }
      i := i + 1;
    }
    if i <= |src| { UntilIs(src, pos, stop, i); }
  }
}
