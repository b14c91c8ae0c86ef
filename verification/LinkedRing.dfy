/** The intrusive circular doubly linked list of list.h, one ring at a time. */
module LinkedRing {

  /** `struct list_head`: links to the neighbours, null once the entry has been deleted. */
  class ListHead {
    var next: ListHead?
    var prev: ListHead?
  }

  ghost predicate Distinct<T>(s: seq<T>) {
    forall i, j :: 0 <= i < j < |s| ==> s[i] != s[j]
  }

  ghost predicate Linked(a: ListHead, b: ListHead)
    reads a, b
  {
    a.next == b && b.prev == a
  }

  ghost predicate Joined(a: ListHead?, b: ListHead?)
    reads a, b
  {
    a != null && b != null && Linked(a, b)
  }

  /** Neighbours in `s` are linked both ways. */
  ghost predicate Chain(s: seq<ListHead>)
    reads s
  {
    forall i :: 0 <= i < |s| - 1 ==> Linked(s[i], s[i + 1])
  }

  /** `next` and `prev` run through `r`, in opposite directions, and close the cycle. */
  ghost predicate Ring(r: seq<ListHead>)
    reads r
  {
    r != [] && Distinct(r) && Chain(r) && Linked(r[|r| - 1], r[0])
  }

  /** `next` and `prev` of every node of a ring undo each other. */
  lemma MutualInverses(r: seq<ListHead>, n: ListHead)
    requires Ring(r) && n in r
    ensures n.next in r && n.prev in r
    ensures (n.next as ListHead).prev == n && (n.prev as ListHead).next == n
  {
    var i :| 0 <= i < |r| && r[i] == n;
    if i > 0 {
      assert Linked(r[i - 1], r[i]);
    }
    if i < |r| - 1 {
      assert Linked(r[i], r[i + 1]);
    }
  }

  ghost predicate Apart<T>(a: seq<T>, b: seq<T>) {
    forall i, j :: 0 <= i < |a| && 0 <= j < |b| ==> a[i] != b[j]
  }

  lemma DistinctConcat<T>(a: seq<T>, b: seq<T>)
    ensures Distinct(a + b) <==> Distinct(a) && Distinct(b) && Apart(a, b)
  {
    var s := a + b;
    assert forall i :: 0 <= i < |a| ==> s[i] == a[i];
    assert forall j :: |a| <= j < |s| ==> s[j] == b[j - |a|];
    if Distinct(s) {
      assert forall j :: 0 <= j < |b| ==> b[j] == s[|a| + j];
    }
  }

  lemma ChainConcat(a: seq<ListHead>, b: seq<ListHead>)
    ensures Chain(a + b)
            <==> Chain(a) && Chain(b) && (a != [] && b != [] ==> Linked(a[|a| - 1], b[0]))
  {
    var s := a + b;
    assert forall i :: 0 <= i < |a| ==> s[i] == a[i];
    assert forall j :: |a| <= j < |s| ==> s[j] == b[j - |a|];
    if Chain(s) {
      forall i | 0 <= i < |a| - 1 ensures Linked(a[i], a[i + 1]) { assert Linked(s[i], s[i + 1]); }
      forall j | 0 <= j < |b| - 1 ensures Linked(b[j], b[j + 1]) { assert Linked(s[|a| + j], s[|a| + j + 1]); }
      if a != [] && b != [] {
        assert Linked(s[|a| - 1], s[|a| - 1 + 1]);
      }
    }
    if Chain(a) && Chain(b) && (a != [] && b != [] ==> Linked(a[|a| - 1], b[0])) {
      forall i | 0 <= i < |s| - 1 ensures Linked(s[i], s[i + 1]) {
        if i < |a| - 1 {
          assert Linked(a[i], a[i + 1]);
        } else if i >= |a| {
          assert Linked(b[i - |a|], b[i - |a| + 1]);
        }
      }
    }
  }

  /** A cycle cut in two, where the second part may be empty: every link there is. */
  lemma RingParts(a: seq<ListHead>, b: seq<ListHead>)
    requires a != []
    ensures Ring(a + b)
            <==> && Distinct(a + b) && Chain(a) && Chain(b)
                 && (if b == [] then Linked(a[|a| - 1], a[0]) else Linked(a[|a| - 1], b[0]) && Linked(b[|b| - 1], a[0]))
  {
    ChainConcat(a, b);
    if b == [] {
      assert a + b == a;
    }
  }

  ghost function Without<T>(s: seq<T>, k: nat): seq<T>
    requires k < |s|
  {
    s[..k] + s[k + 1..]
  }

  method InitListHead(list: ListHead)
    modifies list
    ensures Ring([list]) && Linked(list, list)
  {
    list.next := list;
    list.prev := list;
  }

  /** The node behind the stretch `a` of a cycle `a + b`. */
  ghost function Behind(a: seq<ListHead>, b: seq<ListHead>): ListHead
    requires a != []
  {
    if b == [] then a[0] else b[0]
  }

  /** Two stretches of nodes become one cycle through `mid` when the ends are linked. */
  lemma Rejoined(a: seq<ListHead>, mid: seq<ListHead>, b: seq<ListHead>)
    requires a != [] && Distinct(a + mid + b)
    requires Chain(a) && Chain(mid) && Chain(b)
    requires b != [] ==> Linked(b[|b| - 1], a[0])
    requires Linked(a[|a| - 1], (mid + [Behind(a, b)])[0])
    requires mid != [] ==> Linked(mid[|mid| - 1], Behind(a, b))
    ensures Ring(a + mid + b)
  {
  }

  /** Three stretches without a common node. */
  lemma DistinctParts<T>(a: seq<T>, mid: seq<T>, b: seq<T>)
    ensures Distinct(a + mid + b)
            <==> Distinct(a) && Distinct(mid) && Distinct(b) && Apart(a, mid) && Apart(a, b) && Apart(mid, b)
  {
    DistinctConcat(a + mid, b);
    DistinctConcat(a, mid);
    var s := a + mid;
    assert forall i :: 0 <= i < |a| ==> s[i] == a[i];
    assert forall j :: 0 <= j < |mid| ==> s[|a| + j] == mid[j];
    assert forall j :: |a| <= j < |s| ==> s[j] == mid[j - |a|];
  }

  lemma InsertDistinct<T>(a: seq<T>, mid: seq<T>, b: seq<T>)
    requires Distinct(a + b) && Distinct(mid) && forall n :: n in mid ==> n !in a + b
    ensures Distinct(a + mid + b)
  {
    DistinctConcat(a, b);
    assert forall i :: 0 <= i < |a| ==> a[i] in a + b;
    assert forall i :: 0 <= i < |b| ==> b[i] in a + b;
    assert Apart(a, mid) && Apart(mid, b);
    DistinctParts(a, mid, b);
  }

  /** `_list_add`: `entry` goes between the last node of `a` and the node behind it. */
  method AddBetween(entry: ListHead, prev: ListHead, next: ListHead, ghost a: seq<ListHead>, ghost b: seq<ListHead>)
    requires a != [] && Ring(a + b) && prev == a[|a| - 1] && next == Behind(a, b) && entry !in a + b
    modifies entry, prev`next, next`prev
    ensures Ring(a + [entry] + b)
    ensures Linked(prev, entry) && Linked(entry, next)
  {
    RingParts(a, b);
    InsertDistinct(a, [entry], b);
    DistinctParts(a, [entry], b);
    assert [entry][0] == entry;
    next.prev := entry;
    entry.next := next;
    entry.prev := prev;
    prev.next := entry;
    assert Linked(prev, entry) && Linked(entry, next);
    forall i | 0 <= i < |a| - 1
      ensures Linked(a[i], a[i + 1])
    {
      assert old(Linked(a[i], a[i + 1]));
    }
    forall i | 0 <= i < |b| - 1
      ensures Linked(b[i], b[i + 1])
    {
      assert old(Linked(b[i], b[i + 1]));
    }
    Rejoined(a, [entry], b);
  }

  lemma UnlinkReady(a: seq<ListHead>, entry: ListHead, b: seq<ListHead>)
    requires a != [] && Ring(a + [entry] + b)
    ensures Chain(a) && Chain(b) && Distinct(a) && Distinct(b) && Apart(a, b) && Distinct(a + [] + b)
    ensures entry !in a && entry !in b
    ensures Linked(a[|a| - 1], entry) && Linked(entry, Behind(a, b))
    ensures b != [] ==> Linked(b[|b| - 1], a[0])
  {
    RingParts(a + [entry], b);
    ChainConcat(a, [entry]);
    DistinctParts(a, [entry], b);
    DistinctConcat(a, b);
    assert [entry][0] == entry && (a + [entry])[|a|] == entry && (a + [entry])[0] == a[0];
    assert a + [] == a;
  }

  /** The same cycle, read from its second node on. */
  lemma Rotated(entry: ListHead, b: seq<ListHead>)
    requires b != [] && Ring([entry] + b)
    ensures Ring(b + [entry])
  {
    RingParts([entry], b);
    RingParts(b, [entry]);
    DistinctConcat([entry], b);
    DistinctConcat(b, [entry]);
  }

  /** A cycle around its `k`-th node, which is not read first unless it is alone. */
  lemma CutAt(r: seq<ListHead>, k: nat) returns (a: seq<ListHead>, b: seq<ListHead>)
    requires Ring(r) && k < |r|
    ensures Ring(a + [r[k]] + b) && (a == [] <==> |r| == 1) && (a == [] ==> b == [])
    ensures |r| > 1 ==> a + b == Without(r, k)
  {
    a, b := r[..k], r[k + 1..];
    assert r == a + [r[k]] + b;
    if a == [] && b != [] {
      Rotated(r[k], b);
      a, b := b, [];
      assert a + [r[k]] + [] == a + [r[k]];
    }
  }

  /** `_list_del` on a node between two stretches of a cycle, or alone. */
  method UnlinkBetween(entry: ListHead, ghost a: seq<ListHead>, ghost b: seq<ListHead>)
    requires Ring(a + [entry] + b) && (a == [] ==> b == [])
    requires entry.next != null && entry.prev != null
    modifies entry.next`prev, entry.prev`next
    ensures Ring(if a == [] then [entry] else a + b)
    ensures entry.next == old(entry.next) && entry.prev == old(entry.prev)
    ensures Joined(entry.prev, entry.next)
  {
    if a == [] {
      assert a + [entry] + b == [entry];
    } else {
      UnlinkReady(a, entry, b);
    }
    entry.next.prev := entry.prev;
    entry.prev.next := entry.next;
    if a != [] {
      assert Linked(a[|a| - 1], Behind(a, b));
      forall i | 0 <= i < |a| - 1
        ensures Linked(a[i], a[i + 1])
      {
        assert old(Linked(a[i], a[i + 1]));
      }
      forall i | 0 <= i < |b| - 1
        ensures Linked(b[i], b[i + 1])
      {
        assert old(Linked(b[i], b[i + 1]));
      }
      assert a + [] + b == a + b;
      Rejoined(a, [], b);
    }
  }

  /**
   `_list_del` on the `k`-th node of any cycle: its neighbours are joined and `entry` keeps its links.
   A node that is linked to itself stays as it is.
   */
  method Unlink(entry: ListHead, ghost r: seq<ListHead>, ghost k: nat)
    requires Ring(r) && k < |r| && r[k] == entry
    modifies r
    ensures Ring(if |r| == 1 then [entry] else Without(r, k))
    ensures entry.next == old(entry.next) && entry.prev == old(entry.prev)
    ensures Joined(entry.prev, entry.next)
  {
    MutualInverses(r, entry);
    ghost var a, b := CutAt(r, k);
    hide Ring;
    UnlinkBetween(entry, a, b);
  }

  /** `_list_splice`: the entries of a ring, without its head, go behind the stretch `a`. */
  method SpliceBetween(list: ListHead, prev: ListHead, next: ListHead, ghost s: seq<ListHead>,
                       ghost a: seq<ListHead>, ghost b: seq<ListHead>)
    requires Ring([list] + s)
    requires a != [] && Ring(a + b) && prev == a[|a| - 1] && next == Behind(a, b)
    requires forall n :: n in s ==> n !in a + b
    requires list !in a + b
    modifies prev`next, next`prev, s
    ensures Ring(a + s + b)
    ensures s == [] ==> unchanged(prev) && unchanged(next)
    ensures s != [] ==> Linked(prev, s[0]) && Linked(s[|s| - 1], next)
  {
    RingParts([list], s);
    DistinctConcat([list], s);
    assert [list][0] == list;
    if list.next == list {
      assert s == [];
      assert a + s + b == a + b;
      return;
    }
    RingParts(a, b);
    InsertDistinct(a, s, b);
    DistinctParts(a, s, b);
    assert Linked(list, s[0]) && Linked(s[|s| - 1], list);
    var first, last := list.next, list.prev;
    first.prev := prev;
    prev.next := first;
    last.next := next;
    next.prev := last;
    assert Linked(prev, s[0]) && Linked(s[|s| - 1], next);
    forall i | 0 <= i < |a| - 1
      ensures Linked(a[i], a[i + 1])
    {
      assert old(Linked(a[i], a[i + 1]));
    }
    forall i | 0 <= i < |s| - 1
      ensures Linked(s[i], s[i + 1])
    {
      assert old(Linked(s[i], s[i + 1]));
    }
    forall i | 0 <= i < |b| - 1
      ensures Linked(b[i], b[i + 1])
    {
      assert old(Linked(b[i], b[i + 1]));
    }
    Rejoined(a, s, b);
  }

  // ----- The list interface: a head and its entries `s` -----

  /** A head is linked to its first and its last entry, and to itself when there is none. */
  lemma RingEnds(head: ListHead, s: seq<ListHead>)
    requires Ring([head] + s)
    ensures head.next == if s == [] then head else s[0]
    ensures head.prev == if s == [] then head else s[|s| - 1]
    ensures head !in s
  {
    RingParts([head], s);
    DistinctConcat([head], s);
    assert [head][0] == head;
  }

  /** `list_empty`. */
  method IsEmpty(head: ListHead, ghost s: seq<ListHead>) returns (empty: bool)
    requires Ring([head] + s)
    ensures empty <==> s == []
  {
    RingParts([head], s);
    DistinctConcat([head], s);
    empty := head.next == head;
  }

  /** `list_is_first`. */
  method IsFirst(list: ListHead, head: ListHead, ghost s: seq<ListHead>) returns (first: bool)
    requires Ring([head] + s) && list in s
    ensures first <==> list == s[0]
  {
    RingParts([head], s);
    MutualInverses([head] + s, list);
    first := list.prev == head;
  }

  /** `list_is_last`. */
  method IsLast(list: ListHead, head: ListHead, ghost s: seq<ListHead>) returns (last: bool)
    requires Ring([head] + s) && list in s
    ensures last <==> list == s[|s| - 1]
  {
    RingParts([head], s);
    MutualInverses([head] + s, list);
    last := list.next == head;
  }

  /** `list_add`: the new entry becomes the first. */
  method ListAdd(entry: ListHead, head: ListHead, ghost s: seq<ListHead>)
    requires Ring([head] + s) && entry !in [head] + s
    modifies entry, [head] + s
    ensures Ring([head] + ([entry] + s))
    ensures Linked(head, entry) && Joined(entry, old(head.next))
  {
    RingParts([head], s);
    assert head in [head] + s && (s != [] ==> s[0] in [head] + s);
    AddBetween(entry, head, head.next, [head], s);
    assert [head] + [entry] + s == [head] + ([entry] + s);
  }

  /** `list_add_tail`: the new entry becomes the last. */
  method ListAddTail(entry: ListHead, head: ListHead, ghost s: seq<ListHead>)
    requires Ring([head] + s) && entry !in [head] + s
    modifies entry, [head] + s
    ensures Ring([head] + (s + [entry]))
    ensures Linked(entry, head) && Joined(old(head.prev), entry)
  {
    ghost var r := [head] + s;
    assert r + [] == r;
    assert r[|r| - 1] in r && r[0] in r;
    AddBetween(entry, head.prev, head, r, []);
    assert r + [entry] + [] == [head] + (s + [entry]);
  }

  lemma Remains<T>(r: seq<T>, k: nat)
    requires Distinct(r) && k < |r|
    ensures r[k] !in Without(r, k)
    ensures forall n :: n in r <==> n == r[k] || n in Without(r, k)
  {
    var r' := Without(r, k);
    assert forall i :: 0 <= i < k ==> r'[i] == r[i];
    assert forall i :: k <= i < |r'| ==> r'[i] == r[i + 1];
    assert forall i :: k < i < |r| ==> r[i] == r'[i - 1];
  }

  /** `list_del`: the node leaves its cycle with null links. */
  method ListDel(entry: ListHead, ghost r: seq<ListHead>, ghost k: nat)
    requires Ring(r) && k < |r| && r[k] == entry
    modifies r
    ensures |r| > 1 ==> Ring(Without(r, k))
    ensures entry.next == null && entry.prev == null
  {
    Remains(r, k);
    hide Ring, Distinct;
    Unlink(entry, r, k);
    entry.next := null;
    entry.prev := null;
  }

  /** `list_del_init`: the node leaves its cycle and is linked to itself, also when it was before. */
  method ListDelInit(entry: ListHead, ghost r: seq<ListHead>, ghost k: nat)
    requires Ring(r) && k < |r| && r[k] == entry
    modifies r
    ensures |r| > 1 ==> Ring(Without(r, k))
    ensures Ring([entry])
  {
    Remains(r, k);
    hide Ring, Distinct;
    Unlink(entry, r, k);
    InitListHead(entry);
  }

  /** The cycle of a list after its `k`-th entry has left. */
  lemma EntryGone(head: ListHead, s: seq<ListHead>, k: nat)
    requires Distinct([head] + s) && k < |s|
    ensures ([head] + s)[k + 1] == s[k] && Without([head] + s, k + 1) == [head] + Without(s, k)
    ensures s[k] !in [head] + Without(s, k)
    ensures forall n :: n in [head] + s <==> n == s[k] || n in [head] + Without(s, k)
  {
    assert Without([head] + s, k + 1) == [head] + Without(s, k);
    Remains([head] + s, k + 1);
  }
}
