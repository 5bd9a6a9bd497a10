/**
 Byte strings (str.c).  A `str` is a sequence of characters, one per byte; a
 NULL `str` is `None`.  Reading past the end gives NUL, as `at` does.  Every
 scanning loop of the server is an instance of `Until`.
 */
module Str {
  import opened Wrappers

  const CRLF := "\r\n"

  function At(s: string, pos: nat): char {
    if pos < |s| then s[pos] else '\0'
  }

  /** `isspace` in the C locale. */
  predicate IsSpace(c: char) {
    c == ' ' || '\t' <= c <= '\r'
  }

  /** The white space of the C locale, one by one (section 7.4.1.10 of ISO C). */
  predicate White(c: char) {
    || c == ' ' || c == '\t' || c == '\n' || c == '\r'
    || c == 11 as char || c == 12 as char
  }

  /** A text without a line break. */
  predicate OneLine(s: string) {
    '\r' !in s && '\n' !in s
  }

  lemma WhiteSpace()
    ensures forall c :: IsSpace(c) <==> White(c)
  {
  }

  lemma NoEol(s: string)
    ensures OneLine(s) <==> forall k :: 0 <= k < |s| ==> !IsEol(s[k])
  {
  }

  predicate NotSpace(c: char) {
    !IsSpace(c)
  }

  predicate IsEol(c: char) {
    c == '\r' || c == '\n'
  }

  predicate IsColon(c: char) {
    c == ':'
  }

  predicate NotDecimal(c: char) {
    !('0' <= c <= '9')
  }

  /** The first position at or after `pos` whose character stops the scan; the
      end of the string, or `pos` itself when it is beyond the end. */
  function Until(s: string, pos: nat, stop: char -> bool): (r: nat)
    ensures pos <= r
    ensures r <= |s| || r == pos
    ensures forall k :: pos <= k < r && k < |s| ==> !stop(s[k])
    ensures r < |s| ==> stop(s[r])
    decreases |s| - pos
  {
    if pos < |s| && !stop(s[pos]) then Until(s, pos + 1, stop) else pos
  }

  /** A scan that stops inside a string does not see what is appended. */
  lemma UntilStable(p: string, x: string, pos: nat, stop: char -> bool)
    ensures Until(p, pos, stop) < |p| ==> Until(p + x, pos, stop) == Until(p, pos, stop)
    ensures Until(p, pos, stop) <= Until(p + x, pos, stop)
  {
    var r := Until(p, pos, stop);
    if r < |p| {
      assert (p + x)[r] == p[r];
    }
  }

  /** Where a scan over `pre + mid + post` stops when `mid` holds nothing that
      stops it and `post` starts with something that does. */
  lemma UntilIs(s: string, pos: nat, stop: char -> bool, r: nat)
    requires pos <= r <= |s|
    requires forall k :: pos <= k < r ==> !stop(s[k])
    requires r < |s| ==> stop(s[r])
    ensures Until(s, pos, stop) == r
  {
  }

  // ----- Texts inside of a buffer -------------------------------------------

  /** `text` stands at `o`. */
  ghost predicate Reads(buf: string, o: nat, text: string) {
    o + |text| <= |buf| && buf[o..o + |text|] == text
  }

  lemma ReadsSplit(buf: string, o: nat, a: string, b: string)
    requires Reads(buf, o, a + b)
    ensures Reads(buf, o, a) && Reads(buf, o + |a|, b)
  {
    var s := buf[o..o + |a + b|];
    assert s[..|a|] == a && s[|a|..] == b;
    assert buf[o..o + |a|] == s[..|a|];
    assert buf[o + |a|..o + |a| + |b|] == s[|a|..];
  }

  lemma ReadsMiddle(a: string, text: string, b: string)
    ensures Reads(a + text + b, |a|, text)
  {
    assert (a + text + b)[|a|..|a| + |text|] == text;
  }

  lemma ReadsAt(buf: string, o: nat, text: string, k: nat)
    requires Reads(buf, o, text) && k < |text|
    ensures o + k < |buf| && buf[o + k] == text[k]
  {
    assert buf[o + k] == buf[o..o + |text|][k];
  }

  lemma Assoc(a: string, b: string, c: string)
    ensures a + (b + c) == a + b + c
  {
  }

  // ----- Printing and reading numbers ------------------------------------

  function DigitChar(d: nat): char
    requires d < 16
  {
    if d < 10 then ('0' as int + d) as char else ('a' as int + d - 10) as char
  }

  /** The digits and their values, one by one. */
  lemma DigitTable(d: nat)
    requires d < 16
    ensures DigitChar(d) == "0123456789abcdef"[d]
    ensures DigitVal("0123456789abcdef"[d]) == DigitVal("0123456789ABCDEF"[d]) == d
  {
  }

  /** The value of a digit character, -1 for any other character. */
  function DigitVal(c: char): int {
    if '0' <= c <= '9' then c as int - '0' as int
    else if 'a' <= c <= 'f' then c as int - 'a' as int + 10
    else if 'A' <= c <= 'F' then c as int - 'A' as int + 10
    else -1
  }

  /** The numeral of `n`, most significant digit first. */
  function Digits(n: nat, base: nat): string
    requires 2 <= base <= 16
    decreases n
  {
    (if n < base then "" else Digits(n / base, base)) + [DigitChar(n % base)]
  }

  /** The number a digit string denotes; characters that are no digits are
      passed over, as `str_hex` does. */
  function Value(s: string, base: nat): (v: nat) {
    if s == "" then 0
    else
      var v := Value(s[..|s| - 1], base);
      var d := DigitVal(s[|s| - 1]);
      if d < 0 then v else v * base + d
  }

  /** What `str_int` computes.  A minus sign is honoured only when digits fill
      the rest of the string. */
  function IntOf(s: string): int {
    var start := if At(s, 0) == '-' then 1 else 0;
    var e := Until(s, start, NotDecimal);
    var v: int := Value(s[start..e], 10);
    if start == 1 && e == |s| then -v else v
  }

  /** A character that is no digit changes nothing, wherever it is. */
  lemma {:induction false} HexSkips(a: string, c: char, b: string)
    requires !('0' <= c <= '9') && !('a' <= c <= 'f') && !('A' <= c <= 'F')
    ensures Value(a + [c] + b, 16) == Value(a + b, 16)
    decreases |b|
  {
    if b == "" {
      assert (a + [c] + b)[..|a|] == a && a + b == a;
    } else {
      var n := |b| - 1;
      assert (a + [c] + b)[..|a| + |b|] == a + [c] + b[..n] && (a + b)[..|a| + n] == a + b[..n];
      HexSkips(a, c, b[..n]);
    }
  }

  lemma DivMod(n: nat, base: nat)
    requires 2 <= base
    ensures 0 <= n % base < base
    ensures n / base >= 0
    ensures n / base * base + n % base == n
    ensures n < base ==> n / base == 0 && n % base == n
    ensures base <= n ==> 0 < n / base < n
  {
  }

  lemma ValueSnoc(s: string, d: nat, base: nat)
    requires d < 16
    ensures Value(s + [DigitChar(d)], base) == Value(s, base) * base + d
  {
    assert (s + [DigitChar(d)])[..|s|] == s;
    assert DigitVal(DigitChar(d)) == d;
  }

  /** Every numeral is read back as its number, in any base up to 16. */
  lemma {:induction false} ValueDigits(n: nat, base: nat)
    requires 2 <= base <= 16
    ensures Value(Digits(n, base), base) == n
    decreases n
  {
    DivMod(n, base);
    if n < base {
      ValueSnoc("", n, base);
    } else {
      ValueDigits(n / base, base);
      ValueSnoc(Digits(n / base, base), n % base, base);
    }
  }

  /** A numeral has only digits of its base, and starts with zero only when it
      is the numeral of zero. */
  lemma {:induction false} DigitsShape(n: nat, base: nat)
    requires 2 <= base <= 16
    ensures |Digits(n, base)| > 0
    ensures forall k :: 0 <= k < |Digits(n, base)| ==> 0 <= DigitVal(Digits(n, base)[k]) < base
    ensures Digits(n, base)[0] == '0' ==> n == 0
    decreases n
  {
    DivMod(n, base);
    if n < base {
    } else {
      DigitsShape(n / base, base);
    }
  }

  lemma IntOfDecimal(s: string)
    requires |s| > 0
    requires forall k :: 0 <= k < |s| ==> 0 <= DigitVal(s[k]) < 10
    ensures IntOf(s) == Value(s, 10)
  {
    assert 0 <= DigitVal(s[0]) < 10;
    UntilIs(s, 0, NotDecimal, |s|);
    assert s[0..|s|] == s;
  }

  /** The base is a parameter here, so that the verifier does not unroll the numeral
      for a literal 10. */
  lemma DecimalRoundTrip(n: nat, base: nat)
    requires base == 10
    ensures IntOf(Digits(n, base)) == n
  {
    var s := Digits(n, base);
    DigitsShape(n, base);
    ValueDigits(n, base);
    IntOfDecimal(s);
  }

  /** `str_int` of the decimal numeral of `n` is `n`. */
  lemma IntRoundTrip(n: nat)
    ensures IntOf(Digits(n, 10)) == n
  {
    DecimalRoundTrip(n, 10);
  }

  /** Digits and what is behind them: digits end at the first other character, and a
      minus sign counts only if nothing is behind them. */
  lemma IntText(n: nat, rest: string, base: nat)
    requires base == 10 && (rest != "" ==> rest[0] < '0' || '9' < rest[0])
    ensures IntOf(Digits(n, base) + rest) == n
    ensures rest == "" ==> IntOf("-" + Digits(n, base) + rest) + n == 0
    ensures rest != "" ==> IntOf("-" + Digits(n, base) + rest) == n
  {
    hide Digits, Value;
    var d := Digits(n, base);
    DigitsShape(n, base);
    ValueDigits(n, base);
    var s, t := d + rest, "-" + d + rest;
    assert forall k :: 0 <= k < |d| ==> s[k] == d[k] && t[k + 1] == d[k];
    assert 0 <= DigitVal(d[0]) < 10;
    UntilIs(s, 0, NotDecimal, |d|);
    UntilIs(t, 1, NotDecimal, |d| + 1);
    assert s[0..|d|] == d && t[1..|d| + 1] == d;
  }

  method StrInt(a: Option<string>) returns (r: int)
    ensures r == if a.None? then 0 else IntOf(a.value)
  {
    var s := if a.Some? then a.value else "";
    var i, l := 0, |s|;
    r := 0;
    if At(s, 0) == '-' { i := 1; }
    ghost var start := i;
    while i < l
      invariant start <= i <= l
      invariant forall k :: start <= k < i ==> !NotDecimal(s[k])
      invariant r == Value(s[start..i], 10)
    {
      if !('0' <= At(s, i) <= '9') {
        UntilIs(s, start, NotDecimal, i);
        return;
      }
      r := r * 10 + (At(s, i) as int - '0' as int);
      assert s[start..i + 1][..i - start] == s[start..i];
      i := i + 1;
    }
    UntilIs(s, start, NotDecimal, l);
    if At(s, 0) == '-' { r := -r; }
  }

  method StrHex(a: string) returns (r: int)
    ensures r == Value(a, 16)
  {
    r := 0;
    for i := 0 to |a|
      invariant r == Value(a[..i], 16)
    {
      assert a[..i + 1][..i] == a[..i];
      var c := At(a, i);
      r := if '0' <= c <= '9' then r * 16 + c as int - '0' as int
           else if 'a' <= c <= 'f' then r * 16 + c as int - 'a' as int + 10
           else if 'A' <= c <= 'F' then r * 16 + c as int - 'A' as int + 10
           else r;
    }
    assert a[..|a|] == a;
  }

  /** `int_len` and `hex_len`: the length of the numeral. */
  method DigitLen(n: nat, base: nat) returns (l: nat)
    requires 2 <= base <= 16
    ensures l == |Digits(n, base)|
  {
    DivMod(n, base);
    var t: nat := n / base;
    l := 1;
    while t != 0
      invariant (if t == 0 then 0 else |Digits(t, base)|) + l == |Digits(n, base)|
      decreases t
    {
      DivMod(t, base);
      l := l + 1;
      t := t / base;
    }
  }

  /** `int_print` and `hex_print`: fill `data[off..off + l]` from its end. */
  method DigitPrint(data: array<char>, off: nat, n: nat, l: nat, base: nat)
    requires 2 <= base <= 16
    requires l == |Digits(n, base)|
    requires off + l <= data.Length
    modifies data
    ensures data[off..off + l] == Digits(n, base)
    ensures data[..off] == old(data[..off]) && data[off + l..] == old(data[off + l..])
  {
    var t: nat, r: nat := n, l;
    while r != 0
      invariant 0 <= r <= l
      invariant r != 0 ==> Digits(n, base) == Digits(t, base) + data[off + r..off + l]
      invariant r != 0 ==> r == |Digits(t, base)|
      invariant r == 0 ==> Digits(n, base) == data[off..off + l]
      invariant data[..off] == old(data[..off]) && data[off + l..] == old(data[off + l..])
    {
      DivMod(t, base);
      ghost var before := data[off + r..off + l];
      r := r - 1;
      data[off + r] := DigitChar(t % base);
      assert data[off + r..off + l] == [DigitChar(t % base)] + before;
      t := t / base;
    }
  }

  method DigitStr(n: nat, base: nat) returns (s: string)
    requires 2 <= base <= 16
    ensures s == Digits(n, base)
  {
    var l := DigitLen(n, base);
    var data := new char[l](_ => '\0');
    DigitPrint(data, 0, n, l, base);
    s := data[0..l];
  }

  // ----- Comparing ---------------------------------------------------------

  function Upper(c: char): char {
    if 'a' <= c <= 'z' then (c as int - 'a' as int + 'A' as int) as char else c
  }

  predicate EqualFold(a: string, b: string) {
    |a| == |b| && forall k :: 0 <= k < |a| ==> Upper(a[k]) == Upper(b[k])
  }

  /** Two characters that are equal, or one letter in both cases. */
  ghost predicate SameLetter(a: char, b: char) {
    a == b || exists i :: 0 <= i < 26 && Letters(i, a, b)
  }

  ghost predicate Letters(i: int, a: char, b: char)
    requires 0 <= i < 26
  {
    var lower, upper := "abcdefghijklmnopqrstuvwxyz"[i], "ABCDEFGHIJKLMNOPQRSTUVWXYZ"[i];
    (a == lower && b == upper) || (a == upper && b == lower)
  }

  lemma FoldIff(a: string, b: string)
    ensures EqualFold(a, b) <==> |a| == |b| && forall k :: 0 <= k < |a| ==> SameLetter(a[k], b[k])
  {
    forall x, y ensures Upper(x) == Upper(y) <==> SameLetter(x, y) {
      FoldChar(x, y);
    }
  }

  lemma FoldChar(x: char, y: char)
    ensures Upper(x) == Upper(y) <==> SameLetter(x, y)
  {
    var lower, upper := "abcdefghijklmnopqrstuvwxyz", "ABCDEFGHIJKLMNOPQRSTUVWXYZ";
    assert forall i :: 0 <= i < 26 ==> lower[i] as int == 'a' as int + i && upper[i] as int == 'A' as int + i;
    if Upper(x) == Upper(y) && x != y {
      var i := if 'a' <= x <= 'z' then x as int - 'a' as int else y as int - 'a' as int;
      assert Letters(i, x, y);
    }
  }

  /** `cmp` */
  method Cmp(a: string, b: string) returns (eq: bool)
    ensures eq <==> a == b
  {
    if |a| != |b| { return false; }
    for i := 0 to |a|
      invariant forall k :: 0 <= k < i ==> a[k] == b[k]
    {
      if At(a, i) != At(b, i) { return false; }
    }
    return true;
  }

  /** `icmp` */
  method Icmp(a: string, b: string) returns (eq: bool)
    ensures eq <==> EqualFold(a, b)
  {
    if |a| != |b| { return false; }
    for i := 0 to |a|
      invariant forall k :: 0 <= k < i ==> Upper(a[k]) == Upper(b[k])
    {
      if Upper(At(a, i)) != Upper(At(b, i)) { return false; }
    }
    return true;
  }
}
