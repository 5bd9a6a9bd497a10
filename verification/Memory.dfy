/**
 The bump allocator (memory.c), strings in it (str.c) and the growing read buffer
 of a socket (`read_socket` of sockets.c).
 */
module Memory {
  import opened Sockets

  /** `sizeof(struct str_struct)` on a 64-bit machine. */
  const HEADER := 16
  const MAX_BUFFER_SIZE := 4000

  /** `new_region` maps `CACHE_PAGES` pages. */
  const REGION_SIZE := 10000 * 4096

  /** Memory with `bytes` written at `at`. */
  function Patch(mem: string, at: nat, bytes: string): (r: string)
    requires at + |bytes| <= |mem|
    ensures |r| == |mem|
  {
    mem[..at] + bytes + mem[at + |bytes|..]
  }

  /** Two memories that agree outside of `lo..hi`. */
  ghost predicate SameOutside(m: string, m': string, lo: nat, hi: nat) {
    && |m| == |m'| && lo <= hi <= |m|
    && forall k :: 0 <= k < |m| && (k < lo || hi <= k) ==> m[k] == m'[k]
  }

  /** A range outside of the changed one keeps its bytes. */
  lemma SameRange(m: string, m': string, lo: nat, hi: nat, from: nat, to: nat)
    requires SameOutside(m, m', lo, hi) && from <= to <= |m| && (to <= lo || hi <= from)
    ensures |m'| == |m| && m[from..to] == m'[from..to]
  {
  }

  lemma PatchSame(mem: string, at: nat, bytes: string)
    requires at + |bytes| <= |mem|
    ensures SameOutside(mem, Patch(mem, at, bytes), at, at + |bytes|)
    ensures Patch(mem, at, bytes)[at..at + |bytes|] == bytes
  {
  }

  lemma SameTrans(m0: string, m1: string, m2: string, lo: nat, mid: nat, hi: nat)
    requires SameOutside(m0, m1, lo, mid) && SameOutside(m1, m2, mid, hi)
    ensures SameOutside(m0, m2, lo, hi)
  {
  }

  lemma SameTwice(m0: string, m1: string, m2: string, lo: nat, lo': nat, hi: nat, hi': nat)
    requires SameOutside(m0, m1, lo, hi) && SameOutside(m1, m2, lo', hi') && lo <= lo'
    ensures SameOutside(m0, m2, lo, if hi <= hi' then hi' else hi)
  {
  }

  /** The region: everything below `offset` is allocated. */
  class Arena {
    const mem: array<char>
    var offset: nat

    constructor (size: nat)
      ensures mem.Length == size && offset == 0 && fresh(mem) && Unwritten(mem[..], 0)
    {
      mem := new char[size](_ => '\0');
      offset := 0;
    }

    ghost predicate Valid()
      reads this
    {
      offset <= mem.Length
    }

    method Write(at: nat, bytes: string)
      requires at + |bytes| <= mem.Length
      modifies mem
      ensures SameOutside(old(mem[..]), mem[..], at, at + |bytes|)
      ensures mem[at..at + |bytes|] == bytes
    {
      for i := 0 to |bytes|
        invariant mem[..] == Patch(old(mem[..]), at, bytes[..i])
      {
        mem[at + i] := bytes[i];
        assert mem[..] == Patch(old(mem[..]), at, bytes[..i + 1]);
      }
      assert bytes[..|bytes|] == bytes;
      PatchSame(old(mem[..]), at, bytes);
      assert mem[at..at + |bytes|] == mem[..][at..at + |bytes|];
    }

    /** `reserve` */
    method Reserve(length: nat) returns (at: nat)
      requires Valid() && offset + length <= mem.Length
      modifies this
      ensures Valid() && at == old(offset) && offset == old(offset) + length
    {
      at := offset;
      offset := offset + length;
    }

    /** A header at the tail: the length in its first four bytes, lowest byte first,
        and in the last eight an address, whose highest byte is zero.  The rest is
        left open. */
    method NewHeader(l: nat) returns (at: nat)
      requires Valid() && offset + HEADER <= mem.Length
      modifies this, mem
      ensures Valid() && at == old(offset) && offset == old(offset) + HEADER
      ensures HeaderAt(mem[..], at, l)
      ensures SameOutside(old(mem[..]), mem[..], at, offset)
    {
      hide SameOutside, LengthBytes;
      at := Reserve(HEADER);
      var rest := AnyBytes();
      Write(at, LengthBytes(l) + rest + "\0");
      assert mem[..][at..at + 4] == mem[at..at + HEADER][..4];
      assert mem[at + 15] == mem[at..at + HEADER][15];
    }
  }

  ghost predicate HeaderAt(m: string, at: nat, l: nat) {
    at + HEADER <= |m| && m[at..at + 4] == LengthBytes(l) && m[at + 15] == '\0'
  }

  /** What is behind `k` is as the pages of a fresh region are. */
  ghost predicate Unwritten(m: string, k: nat) {
    forall i :: k <= i < |m| ==> m[i] == '\0'
  }

  lemma StaysUnwritten(m: string, m': string, lo: nat, hi: nat, k: nat, k': nat)
    requires SameOutside(m, m', lo, hi) && hi <= k' && k <= k' && Unwritten(m, k)
    ensures Unwritten(m', k')
  {
  }

  /** An `int` as a little-endian machine stores it. */
  function LengthBytes(l: nat): (r: string)
    ensures |r| == 4 && (l < 0x100_0000 ==> r[3] == '\0')
  {
    [(l % 256) as char, (l / 0x100 % 256) as char, (l / 0x1_0000 % 256) as char, (l / 0x100_0000 % 256) as char]
  }

  /** The four bytes give the number back, the lowest one first. */
  lemma LengthRead(l: nat)
    requires l < 0x1_0000_0000
    ensures var b := LengthBytes(l);
            && (forall c <- b :: c < 256 as char)
            && b[0] as int + 0x100 * (b[1] as int) + 0x1_0000 * (b[2] as int) + 0x100_0000 * (b[3] as int) == l
  {
    var a, b, c := l / 0x100, l / 0x1_0000, l / 0x100_0000;
    assert l == a * 0x100 + l % 0x100 && a / 0x100 == b && b / 0x100 == c;
    assert a == b * 0x100 + a % 0x100 && b == c * 0x100 + b % 0x100;
  }

  method AnyBytes() returns (bytes: string)
    ensures |bytes| == HEADER - 5
  {
    var c: char := *;
    bytes := seq(HEADER - 5, _ => c);
  }

  /** Where the bytes of a string are: at an address of the arena, or in memory of
      somebody else, such as the Lua interpreter, that stays as it is. */
  datatype Place = Inside(at: nat) | Outside(bytes: string)

  function Text(m: string, p: Place, l: nat): (t: string)
    requires l <= match p case Inside(at) => |m| - at case Outside(bytes) => |bytes|
    ensures |t| == l
  {
    match p
    case Inside(at) => m[at..at + l]
    case Outside(bytes) => bytes[..l]
  }

  /** A string: the address of its header, and its fields.  The bytes of a header in
      memory are written when it is made; later changes of the length are changes of
      the field alone, since they reach no text in memory that stays. */
  class Buf {
    const addr: nat
    var place: Place
    var length: nat

    constructor (addr: nat, place: Place, length: nat)
      ensures this.addr == addr && this.place == place && this.length == length
    {
      this.addr, this.place, this.length := addr, place, length;
    }

    /** The bytes exist. */
    ghost predicate Readable(a: Arena)
      reads this
    {
      length <= match place case Inside(at) => a.mem.Length - at case Outside(bytes) => |bytes|
    }

    /** The bytes will not be handed out again: they are not in the arena, or in
        its allocated part. */
    ghost predicate Kept(a: Arena)
      reads this, a
    {
      place.Inside? ==> place.at + length <= a.offset
    }

    /** Header and bytes lie in memory that stays. */
    ghost predicate In(a: Arena)
      reads this, a
    {
      a.Valid() && addr + HEADER <= a.offset && Readable(a) && Kept(a)
    }

    /** The bytes stand directly behind the header. */
    predicate Owns()
      reads this
    {
      place == Inside(addr + HEADER)
    }

    /** The bytes stand directly behind the header, and nothing is allocated behind
        them. */
    ghost predicate Last(a: Arena)
      reads this, a
    {
      In(a) && Owns() && addr + HEADER + length == a.offset
    }

    function Bytes(a: Arena): string
      requires Readable(a)
      reads this, a.mem
    {
      Text(a.mem[..], place, length)
    }
  }

  /** The place `start` bytes further on. */
  function Behind(p: Place, start: nat): Place
    requires p.Outside? ==> start <= |p.bytes|
  {
    match p
    case Inside(at) => Inside(at + start)
    case Outside(bytes) => Outside(bytes[start..])
  }

  /** What is written behind a string leaves it alone. */
  lemma TextSame(m: string, m': string, p: Place, l: nat, lo: nat, hi: nat)
    requires SameOutside(m, m', lo, hi)
    requires l <= match p case Inside(at) => lo - at case Outside(bytes) => |bytes|
    ensures |m'| == |m| && Text(m', p, l) == Text(m, p, l)
  {
    if p.Inside? { SameRange(m, m', lo, hi, p.at, p.at + l); }
  }

  /** `blank`: only the header is written. */
  method Blank(a: Arena, l: nat) returns (b: Buf)
    requires a.Valid() && a.offset + HEADER + l <= a.mem.Length
    modifies a, a.mem
    ensures fresh(b) && b.Last(a) && b.length == l && b.addr == old(a.offset)
    ensures HeaderAt(a.mem[..], b.addr, l)
    ensures SameOutside(old(a.mem[..]), a.mem[..], old(a.offset), old(a.offset) + HEADER)
  {
    hide SameOutside, LengthBytes;
    var at := a.NewHeader(l);
    var _ := a.Reserve(l);
    b := new Buf(at, Inside(at + HEADER), l);
  }

  /** `ref`: a view of bytes that are already there. */
  method View(a: Arena, place: Place, l: nat) returns (b: Buf)
    requires a.Valid() && a.offset + HEADER <= a.mem.Length
    modifies a, a.mem
    ensures fresh(b) && a.Valid() && b.addr == old(a.offset) && b.place == place && b.length == l
    ensures a.offset == old(a.offset) + HEADER
    ensures SameOutside(old(a.mem[..]), a.mem[..], old(a.offset), a.offset)
  {
    hide SameOutside, LengthBytes;
    var at := a.NewHeader(l);
    b := new Buf(at, place, l);
  }

  /** `from`: a view of a part of a string. */
  method From(a: Arena, s: Buf, start: nat, l: nat) returns (b: Buf)
    requires s.In(a) && start + l <= s.length && a.offset + HEADER <= a.mem.Length
    modifies a, a.mem
    ensures fresh(b) && b.In(a) && b.addr == old(a.offset) && a.offset == old(a.offset) + HEADER
    ensures b.place == Behind(s.place, start) && b.length == l
    ensures b.Bytes(a) == old(s.Bytes(a))[start..start + l]
    ensures SameOutside(old(a.mem[..]), a.mem[..], old(a.offset), a.offset)
  {
    hide SameOutside;
    b := View(a, Behind(s.place, start), l);
    TextSame(old(a.mem[..]), a.mem[..], s.place, s.length, old(a.offset), a.offset);
  }

  /** `copy` of some bytes. */
  method Copy(a: Arena, bytes: string) returns (b: Buf)
    requires a.Valid() && a.offset + HEADER + |bytes| <= a.mem.Length
    modifies a, a.mem
    ensures fresh(b) && b.Last(a) && b.length == |bytes| && b.addr == old(a.offset)
    ensures b.Bytes(a) == bytes
    ensures SameOutside(old(a.mem[..]), a.mem[..], old(a.offset), a.offset)
  {
    hide SameOutside, LengthBytes;
    b := Blank(a, |bytes|);
    ghost var blanked := a.mem[..];
    a.Write(b.addr + HEADER, bytes);
    SameTrans(old(a.mem[..]), blanked, a.mem[..], b.addr, b.addr + HEADER, a.offset);
  }

  /** `_` of a text that needs no conversion: a string without bytes is blanked, then
      its text and a NUL are written behind it and taken. */
  method Print(a: Arena, text: string) returns (b: Buf)
    requires a.Valid() && a.offset + HEADER + |text| + 1 <= a.mem.Length
    modifies a, a.mem
    ensures fresh(b) && b.In(a) && b.Owns() && b.addr == old(a.offset)
    ensures b.length == |text| && b.Bytes(a) == text
    ensures a.offset == old(a.offset) + HEADER + |text| + 1
    ensures SameOutside(old(a.mem[..]), a.mem[..], old(a.offset), a.offset)
  {
    hide SameOutside, LengthBytes;
    b := Blank(a, 0);
    ghost var blanked := a.mem[..];
    a.Write(a.offset, text + "\0");
    SameTrans(old(a.mem[..]), blanked, a.mem[..], b.addr, a.offset, a.offset + |text| + 1);
    var at := a.Reserve(|text| + 1);
    b.length := |text|;
    assert a.mem[at..at + |text|] == a.mem[at..at + |text| + 1][..|text|];
  }

  // ----- append ------------------------------------------------------------------

  /** The test of `append`: the second header starts where the first string ends. */
  predicate Adjacent(s: Buf, v: Buf)
    reads s
  {
    s.place.Inside? && s.place.at + s.length == v.addr
  }

  /** What `append` takes from the arena.  In place it is nothing, whatever it writes. */
  predicate Room(a: Arena, s: Buf?, v: Buf)
    reads a, s, v
  {
    s != null ==>
      if Adjacent(s, v) then v.addr + v.length <= a.mem.Length
      else a.offset + HEADER + s.length + v.length <= a.mem.Length
  }

  /** `append`, for strings in the arena and views of memory outside of it alike; its
      copy is read as an overlap-safe move.  In place it grows the first string over
      the header of the second, which is lost. */
  method Append(a: Arena, s: Buf?, v: Buf) returns (r: Buf)
    requires s != v && (s != null ==> s.In(a)) && v.In(a) && Room(a, s, v)
    modifies a, a.mem, s, v
    ensures a.Valid() && r.Readable(a)
    ensures r.Bytes(a) == (if s == null then "" else old(s.Bytes(a))) + old(v.Bytes(a))
    ensures s == null ==> r == v && unchanged(a, a.mem, v)
    // in place: only the first string's length and the bytes from the second
    // header on change
    ensures s != null && old(Adjacent(s, v)) ==>
      && r == s && s.place == old(s.place) && a.offset == old(a.offset)
      && SameOutside(old(a.mem[..]), a.mem[..], v.addr, v.addr + old(v.length))
    // else: nothing that is allocated changes
    ensures s != null && !old(Adjacent(s, v)) ==>
      && fresh(r) && r.Last(a) && r.addr == old(a.offset) && unchanged(s, v)
      && SameOutside(old(a.mem[..]), a.mem[..], old(a.offset), a.offset)
  {
    hide SameOutside;
    if s == null { return v; }
    if Adjacent(s, v) {
      AppendInPlace(a, s, v);
      return s;
    }
    r := Copy(a, s.Bytes(a) + v.Bytes(a));
  }

  method AppendInPlace(a: Arena, s: Buf, v: Buf)
    requires s != v && s.In(a) && v.In(a) && Adjacent(s, v) && v.addr + v.length <= a.mem.Length
    modifies a.mem, s, v
    ensures s.place == old(s.place) && s.length == old(s.length) + old(v.length)
    ensures s.Readable(a) && s.Bytes(a) == old(s.Bytes(a)) + old(v.Bytes(a))
    ensures SameOutside(old(a.mem[..]), a.mem[..], v.addr, v.addr + old(v.length))
  {
    hide SameOutside;
    var bytes := v.Bytes(a);
    var at, end := s.place.at, v.addr + |bytes|;
    s.length := s.length + v.length;
    a.Write(v.addr, bytes);
    SameRange(old(a.mem[..]), a.mem[..], v.addr, end, at, v.addr);
    assert a.mem[..][at..v.addr] == a.mem[at..v.addr];
    assert a.mem[at..end] == a.mem[at..v.addr] + a.mem[v.addr..end];
    var p: Place, l: nat := *, *;
    v.place, v.length := p, l;
  }

  /** Whether `append` keeps its result inside allocated memory. */
  predicate Fits(a: Arena, s: Buf?, v: Buf)
    reads a, s, v
  {
    s != null && Adjacent(s, v) ==> v.addr + v.length <= a.offset
  }

  /** The framing of `append`: the result lies in memory that stays exactly when
      the strings are not adjacent or the second fits over its own header and what
      is allocated behind it; it always does if the second owns its bytes. */
  method AppendFrame(a: Arena, s: Buf?, v: Buf) returns (r: Buf)
    requires s != v && (s != null ==> s.In(a)) && v.In(a) && Room(a, s, v)
    modifies a, a.mem, s, v
    ensures a.Valid() && r.Readable(a)
    ensures r.Bytes(a) == (if s == null then "" else old(s.Bytes(a))) + old(v.Bytes(a))
    ensures r.Kept(a) <==> old(Fits(a, s, v))
    ensures old(v.Owns()) ==> r.Kept(a)
  {
    hide SameOutside;
    r := Append(a, s, v);
  }

  /** The last `k` characters of a text are what a header of length `l` starts with. */
  predicate Restores(t: string, k: int, l: nat) {
    1 <= k <= 3 && k <= |t| && t[|t| - k..] == LengthBytes(l)[..k]
  }

  /** A header that is written over the last `k` characters of a text without NUL
      leaves the text alone only by coincidence: fewer than four of them are written
      over, and with the same characters. */
  lemma Overwritten(m: string, m': string, at: nat, l: nat, off: nat, len: nat)
    requires |m'| == |m| && at <= off < at + l <= |m| && HeaderAt(m', off, len)
    requires forall i :: at <= i < off ==> m'[i] == m[i]
    requires '\0' !in m[at..at + l]
    requires len < 0x100_0000 || off + HEADER <= at + l
    ensures m'[at..at + l] == m[at..at + l] <==> Restores(m[at..at + l], at + l - off, len)
  {
    hide LengthBytes;
    var t, t', k := m[at..at + l], m'[at..at + l], at + l - off;
    if 4 <= k {
      var i := if HEADER <= k then 15 else 3;
      assert m'[off + 3] == m'[off..off + 4][3];
      assert t'[off + i - at] == m'[off + i] == '\0';
      assert t[off + i - at] in t;
    } else {
      assert m'[off..off + k] == m'[off..off + 4][..k];
      assert t' == t[..l - k] + m'[off..off + k];
      assert t == t[..l - k] + t[l - k..];
    }
  }

  /** How far a text runs behind what is allocated. */
  function Spilled(a: Arena, r: Buf): int
    reads a, r
  {
    if r.place.Inside? then r.place.at + r.length - a.offset else 0
  }

  /** The next string behind a text without NUL: its header leaves the text alone
      exactly when the text lies in memory that stays, or by that coincidence. */
  method NextBlank(a: Arena, r: Buf, l: nat) returns (b: Buf)
    requires a.Valid() && r.Readable(a) && r.addr + HEADER <= a.offset && '\0' !in r.Bytes(a)
    requires r.Owns() || r.Kept(a)
    requires l < 0x100_0000 && a.offset + HEADER + l <= a.mem.Length
    modifies a, a.mem
    ensures a.Valid() && r.Readable(a)
    ensures r.Bytes(a) == old(r.Bytes(a))
       <==> old(r.Kept(a)) || Restores(old(r.Bytes(a)), old(Spilled(a, r)), l)
  {
    hide SameOutside, LengthBytes, HeaderAt, Restores;
    b := Blank(a, l);
    HeaderOver(old(a.mem[..]), a.mem[..], r.place, r.length, b.addr, b.addr + HEADER, l);
  }

  /** What a header at `off` and whatever is written behind it do to a text. */
  lemma HeaderOver(m: string, m': string, p: Place, l: nat, off: nat, hi: nat, len: nat)
    requires SameOutside(m, m', off, hi) && HeaderAt(m', off, len)
    requires l <= match p case Inside(at) => |m| - at case Outside(bytes) => |bytes|
    requires p.Inside? ==> p.at + l <= off || p.at <= off
    requires '\0' !in Text(m, p, l)
    requires p.Inside? && off < p.at + l < off + HEADER ==> len < 0x100_0000
    ensures |m'| == |m|
    ensures Text(m', p, l) == Text(m, p, l)
       <==> (p.Inside? ==> p.at + l <= off || Restores(Text(m, p, l), p.at + l - off, len))
  {
    if p.Inside? && off < p.at + l {
      hide HeaderAt, Restores;
      Overwritten(m, m', p.at, l, off, len);
    }
  }

  /** `_("%s", r)`: a string without bytes is blanked, the text and a NUL are copied
      behind it and taken, and at last its length is stored.  What is copied is the
      text as the first header has left it. */
  method PrintText(a: Arena, r: Buf) returns (b: Buf)
    requires a.Valid() && r.Readable(a) && a.offset + HEADER + r.length + 1 <= a.mem.Length
    modifies a, a.mem
    ensures fresh(b) && b.In(a) && b.Owns() && b.addr == old(a.offset) && b.length == r.length
    ensures a.offset == old(a.offset) + HEADER + r.length + 1
    ensures HeaderAt(a.mem[..], b.addr, r.length)
    ensures SameOutside(old(a.mem[..]), a.mem[..], old(a.offset), a.offset)
  {
    hide SameOutside, LengthBytes, Text;
    b := Blank(a, 0);
    ghost var m, m0, at := old(a.mem[..]), a.mem[..], b.addr;
    a.Write(a.offset, r.Bytes(a) + "\0");
    ghost var m1, end := a.mem[..], a.offset + r.length + 1;
    SameTrans(m, m0, m1, at, a.offset, end);
    a.Write(b.addr, LengthBytes(r.length));
    LengthStored(m0, m1, a.mem[..], at, end, r.length);
    SameTwice(m, m1, a.mem[..], at, at, end, at + 4);
    b.length := r.length;
    var _ := a.Reserve(r.length + 1);
  }

  lemma LengthStored(m0: string, m1: string, m2: string, at: nat, end: nat, l: nat)
    requires HeaderAt(m0, at, 0) && SameOutside(m0, m1, at + HEADER, end)
    requires SameOutside(m1, m2, at, at + 4) && m2[at..at + 4] == LengthBytes(l)
    ensures HeaderAt(m2, at, l)
  {
  }

  // ----- read_socket ----------------------------------------------------------------

  /** One call of `read_socket`: the buffer is cloned to the tail of the arena and
      grows there by what the reads deliver.  It holds everything delivered so far;
      everything allocated before keeps its bytes. */
  method ReadSocket(a: Arena, buf: Buf?, deltas: seq<string>) returns (r: Buf)
    requires a.Valid() && (buf != null ==> buf.In(a))
    requires forall d <- deltas :: 1 <= |d| <= MAX_BUFFER_SIZE
    requires a.offset + HEADER + (if buf == null then 0 else buf.length) + |Concat(deltas)| <= a.mem.Length
    modifies a, a.mem
    ensures fresh(r) && r.Last(a) && r.addr == old(a.offset)
    ensures r.Bytes(a) == (if buf == null then "" else old(buf.Bytes(a))) + Concat(deltas)
    ensures a.offset == old(a.offset) + HEADER + (if buf == null then 0 else buf.length) + |Concat(deltas)|
    ensures SameOutside(old(a.mem[..]), a.mem[..], old(a.offset), a.offset)
  {
    hide SameOutside, Concat;
    r := Copy(a, if buf == null then "" else buf.Bytes(a));
    ghost var copied, at := a.mem[..], a.offset;
    GrowAll(a, r, deltas);
    SameTrans(old(a.mem[..]), copied, a.mem[..], old(a.offset), at, a.offset);
  }

  /** The loop of `read_socket`. */
  method GrowAll(a: Arena, r: Buf, deltas: seq<string>)
    requires r.Last(a) && a.offset + |Concat(deltas)| <= a.mem.Length
    modifies a, a.mem, r`length
    ensures r.Last(a)
    ensures r.Bytes(a) == old(r.Bytes(a)) + Concat(deltas)
    ensures a.offset == old(a.offset) + |Concat(deltas)|
    ensures SameOutside(old(a.mem[..]), a.mem[..], old(a.offset), a.offset)
  {
    hide SameOutside, Concat;
    ghost var had := r.Bytes(a);
    SameRefl(a.mem[..], a.offset, a.offset);
    ConcatFull(deltas);
    var i := 0;
    assert deltas[..0] == [] && had + "" == had;
    while i < |deltas|
      invariant 0 <= i <= |deltas| && r.Last(a)
      invariant a.offset + |Concat(deltas[i..])| == old(a.offset) + |Concat(deltas)|
      invariant r.Bytes(a) == had + Concat(deltas[..i])
      invariant SameOutside(old(a.mem[..]), a.mem[..], old(a.offset), a.offset)
    {
      ConcatStep(deltas, i);
      ghost var before, at := a.mem[..], a.offset;
      Grow(a, r, deltas[i]);
      SameTrans(old(a.mem[..]), before, a.mem[..], old(a.offset), at, a.offset);
      assert had + (Concat(deltas[..i]) + deltas[i]) == had + Concat(deltas[..i]) + deltas[i];
      i := i + 1;
    }
    assert deltas[..i] == deltas && deltas[i..] == [];
  }

  /** One read at the end of the tail buffer. */
  method Grow(a: Arena, r: Buf, delta: string)
    requires r.Last(a) && a.offset + |delta| <= a.mem.Length
    modifies a, a.mem, r`length
    ensures r.Last(a) && a.offset == old(a.offset) + |delta|
    ensures r.Bytes(a) == old(r.Bytes(a)) + delta
    ensures SameOutside(old(a.mem[..]), a.mem[..], old(a.offset), a.offset)
  {
    hide SameOutside;
    a.Write(r.place.at + r.length, delta);
    TextSame(old(a.mem[..]), a.mem[..], r.place, r.length, a.offset, a.offset + |delta|);
    var at := a.Reserve(|delta|);
    r.length := r.length + |delta|;
    assert r.Bytes(a) == a.mem[r.place.at..at] + a.mem[at..a.offset];
  }

  lemma ConcatFull(deltas: seq<string>)
    ensures deltas[0..] == deltas && Concat([]) == ""
  {
  }

  lemma ConcatStep(deltas: seq<string>, i: nat)
    requires i < |deltas|
    ensures Concat(deltas[..i + 1]) == Concat(deltas[..i]) + deltas[i]
    ensures Concat(deltas[i..]) == deltas[i] + Concat(deltas[i + 1..])
  {
    assert deltas[..i + 1] == deltas[..i] + [deltas[i]];
    ConcatAppend(deltas[..i], [deltas[i]]);
    assert [deltas[i]][1..] == [];
    assert deltas[i..][1..] == deltas[i + 1..];
  }

  /** The bytes of a buffer that was handed out. */
  datatype Span = Span(data: nat, length: nat)

  /** What a series of calls leaves in memory below `top`: buffer `k` still holds
      what the first `k + 1` calls delivered. */
  ghost predicate Accumulated(m: string, top: nat, spans: seq<Span>, calls: seq<seq<string>>) {
    && |spans| == |calls| && top <= |m|
    && forall k :: 0 <= k < |spans| ==>
         && spans[k].data + spans[k].length <= top
         && m[spans[k].data..spans[k].data + spans[k].length] == Delivered(calls[..k + 1])
  }

  function Delivered(calls: seq<seq<string>>): string {
    if calls == [] then "" else Delivered(calls[..|calls| - 1]) + Concat(calls[|calls| - 1])
  }

  /** What the rest of the program does with the arena between two calls: it reserves
      some bytes, and leaves anything behind what was allocated before. */
  datatype Use = Use(reserved: nat, written: string)

  /** The memory a series of calls takes, with a use before each of them. */
  function Needed(had: nat, calls: seq<seq<string>>, uses: seq<Use>): nat
    requires |uses| == |calls|
    decreases |calls|
  {
    if calls == [] then 0
    else
      |uses[0].written| + uses[0].reserved + HEADER + had + |Concat(calls[0])|
      + Needed(had + |Concat(calls[0])|, calls[1..], uses[1..])
  }

  /** The buffer the last call returned holds everything delivered. */
  ghost predicate Latest(a: Arena, last: Buf?, calls: seq<seq<string>>)
    reads a, a.mem, last
  {
    && (last == null <==> calls == [])
    && (last != null ==> last.In(a) && last.Bytes(a) == Delivered(calls))
  }

  lemma LatestNone(a: Arena)
    ensures Latest(a, null, [])
  {
  }

  /** A series of calls, with other uses of the arena in between: every buffer handed
      out on the way, into which header keys and values point, keeps its bytes. */
  method ReadSeries(a: Arena, calls: seq<seq<string>>, uses: seq<Use>) returns (last: Buf?, ghost spans: seq<Span>)
    requires a.Valid() && |uses| == |calls|
    requires forall c <- calls :: forall d <- c :: 1 <= |d| <= MAX_BUFFER_SIZE
    requires a.offset + Needed(0, calls, uses) <= a.mem.Length
    modifies a, a.mem
    ensures a.Valid() && Accumulated(a.mem[..], a.offset, spans, calls)
    ensures Latest(a, last, calls)
    ensures SameOutside(old(a.mem[..]), a.mem[..], old(a.offset), a.mem.Length)
  {
    LatestNone(a);
    hide SameOutside, Concat, Delivered, Accumulated, Needed, Latest;
    last, spans := null, [];
    ghost var first := a.offset;
    SameRefl(a.mem[..], first, a.mem.Length);
    AccumulatedNone(a.mem[..], first);
    assert calls[0..] == calls && uses[0..] == uses && calls[..0] == [];
    var i := 0;
    while i < |calls|
      invariant 0 <= i <= |calls| && a.Valid() && Accumulated(a.mem[..], a.offset, spans, calls[..i])
      invariant Latest(a, last, calls[..i]) && first <= a.offset
      invariant a.offset + Needed(|Delivered(calls[..i])|, calls[i..], uses[i..]) <= a.mem.Length
      invariant SameOutside(old(a.mem[..]), a.mem[..], first, a.mem.Length)
    {
      SeriesStep(calls, uses, i);
      ghost var before, at := a.mem[..], a.offset;
      last, spans := ReadNext(a, last, calls[..i], calls[i], uses[i], spans);
      SameTwice(old(a.mem[..]), before, a.mem[..], first, at, a.mem.Length, a.mem.Length);
      i := i + 1;
    }
    assert calls[..i] == calls;
  }

  /** The rest of the program: nothing it does reaches below the offset. */
  method OtherUse(a: Arena, use: Use)
    requires a.Valid() && a.offset + use.reserved <= a.mem.Length && a.offset + |use.written| <= a.mem.Length
    modifies a, a.mem
    ensures a.Valid() && a.offset == old(a.offset) + use.reserved
    ensures SameOutside(old(a.mem[..]), a.mem[..], old(a.offset), a.mem.Length)
  {
    hide SameOutside;
    a.Write(a.offset, use.written);
    SameGrow(old(a.mem[..]), a.mem[..], a.offset, a.offset + |use.written|, a.mem.Length);
    var _ := a.Reserve(use.reserved);
  }

  /** One turn: some other use of the arena, then a call. */
  method ReadNext(a: Arena, last: Buf?, ghost calls: seq<seq<string>>, call: seq<string>, use: Use,
        ghost spans: seq<Span>)
    returns (r: Buf, ghost spans': seq<Span>)
    requires a.Valid() && Accumulated(a.mem[..], a.offset, spans, calls)
    requires Latest(a, last, calls)
    requires forall d <- call :: 1 <= |d| <= MAX_BUFFER_SIZE
    requires a.offset + |use.written| + use.reserved + HEADER + |Delivered(calls)| + |Concat(call)| <= a.mem.Length
    modifies a, a.mem
    ensures Latest(a, r, calls + [call])
    ensures Accumulated(a.mem[..], a.offset, spans', calls + [call])
    ensures a.offset == old(a.offset) + use.reserved + HEADER + |Delivered(calls)| + |Concat(call)|
    ensures SameOutside(old(a.mem[..]), a.mem[..], old(a.offset), a.mem.Length)
  {
    hide SameOutside, Concat, Delivered, Accumulated;
    ghost var m, at, top := a.mem[..], a.offset, a.mem.Length;
    OtherUse(a, use);
    if last != null { TextSame(m, a.mem[..], last.place, last.length, at, top); }
    ghost var used, from := a.mem[..], a.offset;
    r := ReadLatest(a, last, calls, call);
    SameGrow(used, a.mem[..], from, a.offset, top);
    SameTwice(m, used, a.mem[..], at, from, top, top);
    StillAccumulated(m, a.mem[..], at, top, a.offset, spans, calls);
    DeliveredNext(calls, call);
    OneMore(a.mem[..], a.offset, spans, calls, Span(r.place.at, r.length), call);
    spans' := spans + [Span(r.place.at, r.length)];
  }

  lemma DeliveredNext(calls: seq<seq<string>>, call: seq<string>)
    ensures Delivered(calls + [call]) == Delivered(calls) + Concat(call)
  {
    hide Concat;
    assert (calls + [call])[..|calls|] == calls;
  }

  /** A call of `read_socket` in terms of all bytes delivered. */
  method ReadLatest(a: Arena, last: Buf?, ghost calls: seq<seq<string>>, call: seq<string>) returns (r: Buf)
    requires a.Valid() && Latest(a, last, calls)
    requires forall d <- call :: 1 <= |d| <= MAX_BUFFER_SIZE
    requires a.offset + HEADER + |Delivered(calls)| + |Concat(call)| <= a.mem.Length
    modifies a, a.mem
    ensures Latest(a, r, calls + [call]) && r.Owns()
    ensures a.offset == old(a.offset) + HEADER + |Delivered(calls)| + |Concat(call)|
    ensures SameOutside(old(a.mem[..]), a.mem[..], old(a.offset), a.offset)
  {
    hide SameOutside, Concat, Delivered;
    NothingDelivered();
    DeliveredNext(calls, call);
    r := ReadSocket(a, last, call);
  }

  lemma NothingDelivered()
    ensures Delivered([]) == ""
  {
  }

  lemma AccumulatedNone(m: string, top: nat)
    ensures Delivered([]) == "" && (top <= |m| ==> Accumulated(m, top, [], []))
  {
  }

  lemma SeriesStep(calls: seq<seq<string>>, uses: seq<Use>, i: nat)
    requires |uses| == |calls| && i < |calls|
    ensures calls[i] in calls && calls[..i + 1] == calls[..i] + [calls[i]]
    ensures Delivered(calls[..i + 1]) == Delivered(calls[..i]) + Concat(calls[i])
    ensures Needed(|Delivered(calls[..i])|, calls[i..], uses[i..])
         == |uses[i].written| + uses[i].reserved + HEADER + |Delivered(calls[..i])| + |Concat(calls[i])|
            + Needed(|Delivered(calls[..i + 1])|, calls[i + 1..], uses[i + 1..])
  {
    hide Concat, Delivered, Needed;
    DeliveredStep(calls, i);
    NeededStep(|Delivered(calls[..i])|, calls, uses, i);
  }

  lemma NeededStep(had: nat, calls: seq<seq<string>>, uses: seq<Use>, i: nat)
    requires |uses| == |calls| && i < |calls|
    ensures Needed(had, calls[i..], uses[i..])
         == |uses[i].written| + uses[i].reserved + HEADER + had + |Concat(calls[i])|
            + Needed(had + |Concat(calls[i])|, calls[i + 1..], uses[i + 1..])
  {
    hide Concat;
    assert calls[i..][1..] == calls[i + 1..] && uses[i..][1..] == uses[i + 1..];
  }

  lemma DeliveredStep(calls: seq<seq<string>>, i: nat)
    requires i < |calls|
    ensures Delivered(calls[..i + 1]) == Delivered(calls[..i]) + Concat(calls[i])
  {
    assert calls[..i + 1][..i] == calls[..i];
  }

  lemma SameRefl(m: string, lo: nat, hi: nat)
    requires lo <= hi <= |m|
    ensures SameOutside(m, m, lo, hi)
  {
  }

  lemma SameGrow(m: string, m': string, lo: nat, hi: nat, hi': nat)
    requires SameOutside(m, m', lo, hi) && hi <= hi' <= |m|
    ensures SameOutside(m, m', lo, hi')
  {
  }

  /** Buffers below the changed range stay as they were. */
  lemma StillAccumulated(m: string, m': string, lo: nat, hi: nat, top: nat, spans: seq<Span>, calls: seq<seq<string>>)
    requires Accumulated(m, lo, spans, calls) && SameOutside(m, m', lo, hi) && lo <= top <= |m|
    ensures Accumulated(m', top, spans, calls)
  {
    assert |m| == |m'|;
    hide SameOutside, Concat, Delivered;
    forall k | 0 <= k < |spans|
      ensures m'[spans[k].data..spans[k].data + spans[k].length] == Delivered(calls[..k + 1])
    {
      SameRange(m, m', lo, hi, spans[k].data, spans[k].data + spans[k].length);
    }
  }

  lemma OneMore(m: string, top: nat, spans: seq<Span>, calls: seq<seq<string>>, s: Span, call: seq<string>)
    requires Accumulated(m, top, spans, calls) && s.data + s.length <= top
    requires m[s.data..s.data + s.length] == Delivered(calls) + Concat(call)
    ensures Accumulated(m, top, spans + [s], calls + [call])
  {
    hide Concat;
    var n, all := |calls|, calls + [call];
    DeliveredStep(all, n);
    assert all[..n] == calls;
    forall k | 0 <= k < n + 1
      ensures var t := (spans + [s])[k]; m[t.data..t.data + t.length] == Delivered(all[..k + 1])
    {
      if k < n { assert all[..k + 1] == calls[..k + 1]; }
    }
  }
}
