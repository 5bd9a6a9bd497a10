/**
 Sorting headers by key (`lesser` of str.c, `sort_headers` of headers.c).
 */
module HeaderSort {
  import opened Wrappers
  import opened Str
  import opened Headers

  /** The value a byte has in a comparison, where `char` is signed or not. */
  function Code(c: char, signed: bool): int {
    if signed && c >= 128 as char then c as int - 256 else c as int
  }

  predicate IsByteString(s: string) {
    forall c <- s :: c < 256 as char
  }

  /** Lexicographic order by byte values. */
  predicate Less(a: string, b: string, signed: bool) {
    if b == "" then false
    else if a == "" then true
    else if Code(a[0], signed) != Code(b[0], signed) then Code(a[0], signed) < Code(b[0], signed)
    else Less(a[1..], b[1..], signed)
  }

  /** The order by the first difference, with a proper prefix in front. */
  ghost predicate Before(a: string, b: string, signed: bool) {
    a < b || exists k :: FirstDiffers(a, b, k) && Code(a[k], signed) < Code(b[k], signed)
  }

  ghost predicate FirstDiffers(a: string, b: string, k: int) {
    0 <= k < |a| && k < |b| && a[..k] == b[..k] && a[k] != b[k]
  }

  /** The bytes of a signed `char` are those of an unsigned one, with 128 to 255 in
      front as -128 to -1. */
  lemma CodeOf(c: char)
    ensures Code(c, false) == c as int
    ensures c < 128 as char ==> Code(c, true) == c as int
    ensures 128 as char <= c < 256 as char ==> -128 <= Code(c, true) < 0 && (Code(c, true) + 256) as char == c
  {
  }

  lemma {:induction false} LessIff(a: string, b: string, signed: bool)
    requires IsByteString(a) && IsByteString(b)
    ensures Less(a, b, signed) <==> Before(a, b, signed)
  {
    if b == "" {
    } else if a == "" {
      assert a < b;
    } else {
      assert a[0] in a && b[0] in b;
      assert (forall c <- a[1..] :: c in a) && forall c <- b[1..] :: c in b;
      LessIff(a[1..], b[1..], signed);
      if a[0] == b[0] {
        BeforeTail(a, b, signed);
      } else {
        assert FirstDiffers(a, b, 0);
        assert forall k :: FirstDiffers(a, b, k) ==> k == 0;
      }
    }
  }

  lemma BeforeTail(a: string, b: string, signed: bool)
    requires a != "" && b != "" && a[0] == b[0]
    ensures Before(a, b, signed) <==> Before(a[1..], b[1..], signed)
  {
    assert a == [a[0]] + a[1..] && b == [b[0]] + b[1..];
    assert a < b <==> a[1..] < b[1..];
    forall k | FirstDiffers(a, b, k) ensures FirstDiffers(a[1..], b[1..], k - 1) {
      assert a[1..][..k - 1] == a[..k][1..] && b[1..][..k - 1] == b[..k][1..];
    }
    forall k | FirstDiffers(a[1..], b[1..], k) ensures FirstDiffers(a, b, k + 1) {
      assert a[..k + 1] == [a[0]] + a[1..][..k] && b[..k + 1] == [b[0]] + b[1..][..k];
    }
  }

  lemma {:induction false} LessIrreflexive(a: string, signed: bool)
    ensures !Less(a, a, signed)
  {
    if a == "" {
    } else {
      LessIrreflexive(a[1..], signed);
    }
  }

  lemma {:induction false} LessTransitive(a: string, b: string, c: string, signed: bool)
    requires Less(a, b, signed) && Less(b, c, signed)
    ensures Less(a, c, signed)
  {
    if a != "" && Code(a[0], signed) == Code(b[0], signed) == Code(c[0], signed) {
      LessTransitive(a[1..], b[1..], c[1..], signed);
    }
  }

  /** Different byte strings are ordered one way or the other. */
  lemma {:induction false} LessTotal(a: string, b: string, signed: bool)
    requires IsByteString(a) && IsByteString(b)
    ensures a == b || Less(a, b, signed) || Less(b, a, signed)
  {
    if a != "" && b != "" && Code(a[0], signed) == Code(b[0], signed) {
      assert a[0] in a && b[0] in b;
      assert a[0] == b[0];
      assert (forall c <- a[1..] :: c in a) && forall c <- b[1..] :: c in b;
      LessTotal(a[1..], b[1..], signed);
      assert a == [a[0]] + a[1..] && b == [b[0]] + b[1..];
    }
  }

  lemma LessTail(a: string, b: string, k: nat, signed: bool)
    requires k <= |a| && k <= |b| && forall j :: 0 <= j < k ==> Code(a[j], signed) == Code(b[j], signed)
    ensures Less(a, b, signed) == Less(a[k..], b[k..], signed)
    decreases k
  {
    if k > 0 {
      LessTail(a[1..], b[1..], k - 1, signed);
      assert a[1..][k - 1..] == a[k..] && b[1..][k - 1..] == b[k..];
    }
  }

  /** `lesser`; a NULL string ranks as the empty one. */
  method Lesser(a: Option<string>, b: Option<string>, signed: bool) returns (r: bool)
    ensures r == Less(Bytes(a), Bytes(b), signed)
  {
    var x, y := Bytes(a), Bytes(b);
    var i := 0;
    while i < |x| && i < |y|
      invariant i <= |x| && i <= |y|
      invariant forall j :: 0 <= j < i ==> Code(x[j], signed) == Code(y[j], signed)
    {
      LessTail(x, y, i, signed);
      if Code(x[i], signed) - Code(y[i], signed) < 0 { return true; }
      if Code(x[i], signed) - Code(y[i], signed) > 0 { return false; }
      i := i + 1;
    }
    LessTail(x, y, i, signed);
    return |x| < |y|;
  }

  /** No later key is less than an earlier one. */
  predicate InOrder(x: Slot, y: Slot, signed: bool) {
    !Less(Bytes(y.key), Bytes(x.key), signed)
  }

  ghost predicate Sorted(list: seq<Slot>, n: nat, signed: bool) {
    forall a, b :: 0 <= a < n && a < b < |list| ==> InOrder(list[a], list[b], signed)
  }

  /** The list with two elements exchanged. */
  function Swapped(list: seq<Slot>, i: nat, j: nat): (r: seq<Slot>)
    requires i < j < |list|
    ensures |r| == |list|
  {
    list[i := list[j]][j := list[i]]
  }

  lemma SwappedPermutes(list: seq<Slot>, i: nat, j: nat)
    requires i < j < |list|
    ensures multiset(Swapped(list, i, j)) == multiset(list)
  {
    var x, y := list[i], list[j];
    assert multiset(list[i := y]) == multiset(list) - multiset{x} + multiset{y};
    assert list[i := y][j] == y;
    assert multiset(list[i := y][j := x]) == multiset(list[i := y]) - multiset{y} + multiset{x};
  }

  lemma SwappedFirst(list: seq<Slot>, i: nat, j: nat)
    requires i < j < |list|
    ensures Swapped(list, i, j)[i] == list[j] && |Swapped(list, i, j)| == |list|
  {
  }

  lemma OneMoreSorted(list: seq<Slot>, i: nat, signed: bool)
    requires i < |list| && Sorted(list, i, signed)
    requires forall k :: i < k < |list| ==> InOrder(list[i], list[k], signed)
    ensures Sorted(list, i + 1, signed)
  {
  }

  /** Exchanging a smaller key to the front keeps what is sorted. */
  lemma SwappedSorted(list: seq<Slot>, i: nat, j: nat, signed: bool)
    requires i < j < |list| && Sorted(list, i, signed)
    requires forall k :: i < k < j ==> InOrder(list[i], list[k], signed)
    requires Less(Bytes(list[j].key), Bytes(list[i].key), signed)
    ensures Sorted(Swapped(list, i, j), i, signed)
    ensures forall k :: i < k <= j ==> InOrder(list[j], Swapped(list, i, j)[k], signed)
  {
    forall k | i < k <= j ensures InOrder(list[j], Swapped(list, i, j)[k], signed) {
      if k < j {
        if Less(Bytes(list[k].key), Bytes(list[j].key), signed) {
          LessTransitive(Bytes(list[k].key), Bytes(list[j].key), Bytes(list[i].key), signed);
        }
      } else if Less(Bytes(list[i].key), Bytes(list[j].key), signed) {
        LessTransitive(Bytes(list[i].key), Bytes(list[j].key), Bytes(list[i].key), signed);
        LessIrreflexive(Bytes(list[i].key), signed);
      }
    }
  }

  lemma SelfInOrder(x: Slot, signed: bool)
    ensures InOrder(x, x, signed)
  {
    LessIrreflexive(Bytes(x.key), signed);
  }

  lemma NotLess(x: Slot, y: Slot, signed: bool)
    requires !Less(Bytes(y.key), Bytes(x.key), signed)
    ensures InOrder(x, y, signed)
  {
  }

  method Swap(t: Table, i: nat, j: nat)
    requires t.Valid() && i < j < t.nslots
    modifies t.slots
    ensures t.Valid() && t.List() == Swapped(old(t.List()), i, j)
  {
    var x := t.slots[i];
    t.slots[i] := t.slots[j];
    t.slots[j] := x;
  }

  /** `sort_headers`: a sorted permutation in a new table. */
  method SortHeaders(kv: Table, signed: bool) returns (r: Table)
    requires kv.Valid()
    ensures fresh(r) && fresh(r.slots) && r.Valid()
    ensures multiset(r.List()) == multiset(kv.List())
    ensures Sorted(r.List(), |r.List()|, signed)
  {
    r := CopyTable(kv);
    var n := r.nslots;
    ghost var all := multiset(r.List());
    var i := 0;
    while i < n
      invariant 0 <= i <= n && r.Valid() && r.nslots == n && fresh(r) && fresh(r.slots)
      invariant multiset(r.List()) == all && Sorted(r.List(), i, signed)
    {
      if r.slots[i].key.Some? {
        SelectAt(r, i, signed);
      } else {
        assert forall b :: 0 <= b < n ==> InOrder(r.List()[i], r.List()[b], signed);
      }
      i := i + 1;
    }
  }

  /** The inner loop: the least remaining key is exchanged to place `i`. */
  method SelectAt(r: Table, i: nat, signed: bool)
    requires r.Valid() && i < r.nslots && Sorted(r.List(), i, signed)
    modifies r.slots
    ensures r.Valid() && multiset(r.List()) == old(multiset(r.List()))
    ensures Sorted(r.List(), i + 1, signed)
  {
    hide Less, InOrder, Sorted, Swapped;
    SelfInOrder(r.slots[i], signed);
    var j := i + 1;
    while j < r.nslots
      invariant i < j <= r.nslots && r.Valid()
      invariant multiset(r.List()) == old(multiset(r.List()))
      invariant Sorted(r.List(), i, signed)
      invariant forall k :: i < k < j ==> InOrder(r.List()[i], r.List()[k], signed)
    {
      var less := Lesser(r.slots[j].key, r.slots[i].key, signed);
      if less {
        SwappedFirst(r.List(), i, j);
        SwappedSorted(r.List(), i, j, signed);
        SwappedPermutes(r.List(), i, j);
        Swap(r, i, j);
      } else {
        NotLess(r.slots[i], r.slots[j], signed);
      }
      j := j + 1;
    }
    OneMoreSorted(r.List(), i, signed);
  }

  method CopyTable(kv: Table) returns (r: Table)
    requires kv.Valid()
    ensures fresh(r) && fresh(r.slots) && r.Valid() && r.List() == kv.List()
  {
    r := new Table();
    r.nslots := kv.nslots;
    var i := 0;
    while i < kv.nslots
      invariant 0 <= i <= kv.nslots == r.nslots && r.Valid() && kv.Valid() && fresh(r) && fresh(r.slots)
      invariant r.slots[..i] == kv.slots[..i]
    {
      r.slots[i] := kv.slots[i];
      i := i + 1;
    }
  }
}
