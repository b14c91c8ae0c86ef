/**
 Any number of lists at once: every operation of list.h refines an operation on sequences, keeps
 all rings intact and apart, and leaves the lists it does not name alone.
 */
module ListWorld {
  import opened LinkedRing

  /** The lists of a program: each head with its entries in order. */
  type World = map<ListHead, seq<ListHead>>

  ghost function Cycle(w: World, h: ListHead): seq<ListHead>
    requires h in w
  {
    [h] + w[h]
  }

  /** The nodes of the list of `h`. */
  ghost function Span(w: World, h: ListHead): set<ListHead>
    requires h in w
  {
    set n | n in Cycle(w, h)
  }

  ghost function Nodes(w: World): set<ListHead> {
    set h, n | h in w.Keys && n in [h] + w[h] :: n
  }

  ghost function With(w: World, h: ListHead, s: seq<ListHead>): World { w[h := s] }

  ghost function Drop(w: World, h: ListHead): World { w - {h} }

  /** No node is on two lists. */
  ghost predicate Separate(w: World) {
    forall g, h :: g in w && h in w && g != h ==> Span(w, g) !! Span(w, h)
  }

  /** The list of `h` is a ring. */
  ghost predicate Sound(w: World, h: ListHead)
    requires h in w
    reads Span(w, h)
  {
    Ring(Cycle(w, h))
  }

  /** Every list is a ring of its own. */
  ghost predicate Valid(w: World)
    reads Nodes(w)
  {
    Separate(w) && forall h :: h in w ==> Span(w, h) <= Nodes(w) && Sound(w, h)
  }

  // ----- Sequence operations -----

  datatype Op =
    | Add(entry: ListHead, head: ListHead)
    | AddTail(entry: ListHead, head: ListHead)
    | Del(entry: ListHead)
    | DelInit(entry: ListHead)
    | Move(entry: ListHead, head: ListHead)
    | MoveTail(entry: ListHead, head: ListHead)
    | Splice(list: ListHead, head: ListHead)
    | SpliceTail(list: ListHead, head: ListHead)
    | SpliceInit(list: ListHead, head: ListHead)
    | SpliceTailInit(list: ListHead, head: ListHead)

  /** A node that may be added: on no list, or the head of an empty one. */
  ghost predicate Loose(w: World, n: ListHead) {
    n !in Nodes(w) || (n in w && w[n] == [])
  }

  ghost predicate OnList(w: World, n: ListHead) {
    exists h :: h in w && n in w[h]
  }

  ghost function Owner(w: World, n: ListHead): (h: ListHead)
    requires OnList(w, n)
    ensures h in w && n in w[h]
  {
    var h :| h in w && n in w[h]; h
  }

  ghost function IndexOf(s: seq<ListHead>, n: ListHead): (k: nat)
    requires n in s
    ensures k < |s| && s[k] == n
  {
    if s[0] == n then 0 else 1 + IndexOf(s[1..], n)
  }

  /** A node with two links to take away: an entry of a list, or a node linked to itself. */
  ghost predicate Bound(w: World, n: ListHead) {
    OnList(w, n) || (n in w && w[n] == [])
  }

  /** The list whose cycle runs through `n`. */
  ghost function Home(w: World, n: ListHead): (h: ListHead)
    requires Bound(w, n)
    ensures h in w && n in Cycle(w, h)
  {
    if OnList(w, n) then Owner(w, n) else n
  }

  /** The world once `n` has left its list; a node linked to itself is no list any more. */
  ghost function Left(w: World, n: ListHead): World
    requires Bound(w, n)
  {
    if OnList(w, n) then var h := Owner(w, n); With(w, h, Without(w[h], IndexOf(w[h], n))) else Drop(w, n)
  }

  ghost predicate Enabled(w: World, op: Op) {
    match op
    case Add(n, h) => h in w && n != h && Loose(w, n)
    case AddTail(n, h) => h in w && n != h && Loose(w, n)
    case Del(n) => Bound(w, n)
    case DelInit(n) => Bound(w, n)
    case Move(n, h) => Bound(w, n) && h in w && n != h
    case MoveTail(n, h) => Bound(w, n) && h in w && n != h
    case Splice(g, h) => g in w && h in w && g != h
    case SpliceTail(g, h) => g in w && h in w && g != h
    case SpliceInit(g, h) => g in w && h in w && g != h
    case SpliceTailInit(g, h) => g in w && h in w && g != h
  }

  /** The entries of `g` now stand in `h`, and `g`'s old head is left dangling; nothing if `g` was empty. */
  ghost function Spliced(w: World, g: ListHead, h: ListHead, tail: bool): World
    requires g in w && h in w && g != h
  {
    if w[g] == [] then w else Drop(With(w, h, if tail then w[h] + w[g] else w[g] + w[h]), g)
  }

  ghost function Apply(w: World, op: Op): World
    requires Enabled(w, op)
  {
    match op
    case Add(n, h) => With(Drop(w, n), h, [n] + w[h])
    case AddTail(n, h) => With(Drop(w, n), h, w[h] + [n])
    case Del(n) => Left(w, n)
    case DelInit(n) => With(Left(w, n), n, [])
    case Move(n, h) => With(Left(w, n), h, [n] + Left(w, n)[h])
    case MoveTail(n, h) => With(Left(w, n), h, Left(w, n)[h] + [n])
    case Splice(g, h) => Spliced(w, g, h, false)
    case SpliceTail(g, h) => Spliced(w, g, h, true)
    case SpliceInit(g, h) => With(Spliced(w, g, h, false), g, [])
    case SpliceTailInit(g, h) => With(Spliced(w, g, h, true), g, [])
  }

  /** Nothing else is asked of a caller: two lists, an entry of one of them and a node of neither. */
  lemma AlwaysEnabled(w: World, n: ListHead, m: ListHead, g: ListHead, h: ListHead)
    requires g in w && h in w && g != h && n in w[g] && n !in w && m !in Nodes(w)
    ensures Enabled(w, Add(m, h)) && Enabled(w, AddTail(m, h)) && Enabled(w, Del(n)) && Enabled(w, DelInit(n))
    ensures Enabled(w, Move(n, g)) && Enabled(w, Move(n, h)) && Enabled(w, MoveTail(n, g)) && Enabled(w, MoveTail(n, h))
    ensures Enabled(w, Splice(g, h)) && Enabled(w, SpliceTail(g, h))
    ensures Enabled(w, SpliceInit(g, h)) && Enabled(w, SpliceTailInit(g, h))
  {
    assert h in [h] + w[h];
  }

  // ----- The operations on the heap -----

  /** `h` is a list of both worlds, with the same entries, none of them among `touched`. */
  ghost predicate Untouched(w: World, w': World, h: ListHead, touched: set<ListHead>) {
    h in w && h in w' && w'[h] == w[h] && Span(w, h) !! touched
  }

  /**
   Lists other than `head` keep clear of the nodes of `head`'s old cycle and of `entry`, when `head`'s
   new content draws on these nodes only.
   */
  lemma AddSeparate(w: World, entry: ListHead, head: ListHead, s: seq<ListHead>)
    requires Separate(w) && head in w && entry != head && Loose(w, entry)
    requires forall n :: n in s ==> n == entry || n in w[head]
    ensures entry !in Cycle(w, head)
    ensures Separate(With(Drop(w, entry), head, s))
    ensures forall h :: h in With(Drop(w, entry), head, s) && h != head
              ==> Untouched(w, With(Drop(w, entry), head, s), h, Span(w, head) + {entry})
  {
    var w' := With(Drop(w, entry), head, s);
    forall h | h in w && h != entry
      ensures entry !in Span(w, h)
    {
      assert entry in Span(w, h) ==> entry in Nodes(w);
      assert entry in w ==> entry in Span(w, entry);
    }
    assert Span(w', head) <= Span(w, head) + {entry};
    assert forall h :: h in w' && h != head ==> Span(w', h) == Span(w, h);
  }

  lemma ValidIf(w: World)
    requires Separate(w) && forall h :: h in w ==> Sound(w, h)
    ensures Valid(w)
  {
  }

  method ListAddAt(entry: ListHead, head: ListHead, tail: bool, ghost s: seq<ListHead>, ghost span: set<ListHead>)
    requires Ring([head] + s) && entry !in [head] + s && forall n :: n in [head] + s ==> n in span
    modifies entry, span
    ensures Ring([head] + if tail then s + [entry] else [entry] + s)
    ensures if tail then Linked(entry, head) && Joined(old(head.prev), entry)
            else Linked(head, entry) && Joined(entry, old(head.next))
  {
    if tail {
      ListAddTail(entry, head, s);
    } else {
      ListAdd(entry, head, s);
    }
  }

  /** `list_add` and `list_add_tail` among other lists. */
  method AddTo(entry: ListHead, head: ListHead, tail: bool, ghost w: World)
    requires Valid(w) && head in w && entry != head && Loose(w, entry)
    modifies entry, Span(w, head)
    ensures Valid(With(Drop(w, entry), head, if tail then w[head] + [entry] else [entry] + w[head]))
    ensures if tail then Linked(entry, head) && Joined(old(head.prev), entry)
            else Linked(head, entry) && Joined(entry, old(head.next))
  {
    ghost var s := w[head];
    ghost var s' := if tail then s + [entry] else [entry] + s;
    ghost var w' := With(Drop(w, entry), head, s');
    AddSeparate(w, entry, head, s');
    hide Ring, Separate, Loose, Nodes;
    ListAddAt(entry, head, tail, s, Span(w, head));
    forall h | h in w'
      ensures Sound(w', h)
    {
      if h != head {
        assert Untouched(w, w', h, Span(w, head) + {entry});
        assert old(Sound(w, h));
        assert Sound(w, h);
      }
    }
    ValidIf(w');
  }

  // ----- Leaving a list -----

  /** Exactly `entry` is missing from the lists of `Left(w, entry)`. */
  lemma LeftSpans(w: World, entry: ListHead)
    requires Separate(w) && Bound(w, entry) && Distinct(Cycle(w, Home(w, entry)))
    ensures entry in Span(w, Home(w, entry)) && entry !in Left(w, entry)
    ensures forall h :: h in w && h != entry ==> h in Left(w, entry)
    ensures forall h :: h in Left(w, entry) ==> h in w && Span(Left(w, entry), h) == Span(w, h) - {entry}
    ensures forall h :: h in Left(w, entry) && h != Home(w, entry) ==> Left(w, entry)[h] == w[h]
  {
    var home, w' := Home(w, entry), Left(w, entry);
    forall h | h in w && h != home
      ensures entry !in Span(w, h)
    {
      assert Span(w, h) !! Span(w, home);
    }
    assert entry in w ==> entry in Span(w, entry);
    if OnList(w, entry) {
      EntryGone(home, w[home], IndexOf(w[home], entry));
      assert Span(w', home) == Span(w, home) - {entry};
    }
    hide Separate, OnList;
    assert forall h :: h in w' && h != home ==> Span(w', h) == Span(w, h);
  }

  lemma LeaveSeparate(w: World, entry: ListHead)
    requires Separate(w) && Bound(w, entry) && Distinct(Cycle(w, Home(w, entry)))
    ensures Separate(Left(w, entry)) && entry !in Nodes(Left(w, entry)) && entry !in Left(w, entry)
    ensures forall h :: h in Left(w, entry) && h != Home(w, entry)
              ==> Untouched(w, Left(w, entry), h, Span(w, Home(w, entry)))
    ensures entry in Span(w, Home(w, entry)) && Nodes(Left(w, entry)) <= Nodes(w)
    ensures forall h :: h in Left(w, entry) ==> h in w && Span(Left(w, entry), h) <= Span(w, h)
    ensures forall h :: h in w && h != entry ==> h in Left(w, entry)
    ensures Drop(Left(w, entry), entry) == Left(w, entry)
  {
    LeftSpans(w, entry);
    hide Bound, Home, Left;
    var w' := Left(w, entry);
    assert forall h, n :: h in w' && n in [h] + w'[h] ==> n in Span(w', h);
    assert forall h, n :: h in w' && n in Span(w', h) ==> n in Span(w, h) && n in [h] + w[h];
  }

  /** Where `entry` stands in the cycle of its list, and what the cycle is without it. */
  lemma Standing(w: World, entry: ListHead) returns (k: nat)
    requires Bound(w, entry) && Distinct(Cycle(w, Home(w, entry)))
    ensures k < |Cycle(w, Home(w, entry))| && Cycle(w, Home(w, entry))[k] == entry
    ensures Home(w, entry) in Left(w, entry) <==> |Cycle(w, Home(w, entry))| > 1
    ensures |Cycle(w, Home(w, entry))| > 1
            ==> Cycle(Left(w, entry), Home(w, entry)) == Without(Cycle(w, Home(w, entry)), k)
  {
    var home := Home(w, entry);
    if OnList(w, entry) {
      k := IndexOf(w[home], entry) + 1;
      EntryGone(home, w[home], k - 1);
    } else {
      k := 0;
    }
  }

  /** Before the node is unlinked: the lists without it, its own list apart, are rings clear of its cycle. */
  lemma LeaveReady(w: World, entry: ListHead)
    requires Valid(w) && Bound(w, entry)
    ensures Distinct(Cycle(w, Home(w, entry))) && Ring(Cycle(w, Home(w, entry)))
    ensures Separate(Left(w, entry)) && entry !in Nodes(Left(w, entry))
    ensures forall h :: h in Left(w, entry) && h != Home(w, entry)
              ==> Sound(Left(w, entry), h) && Span(Left(w, entry), h) !! Span(w, Home(w, entry))
  {
    var w' := Left(w, entry);
    assert Sound(w, Home(w, entry));
    LeaveSeparate(w, entry);
    hide Left, Home, Bound, Separate, Nodes;
    forall h | h in w' && h != Home(w, entry)
      ensures Sound(w', h) && Span(w', h) !! Span(w, Home(w, entry))
    {
      assert Untouched(w, w', h, Span(w, Home(w, entry))) && Sound(w, h);
    }
  }

  /** The `k`-th node of the cycle `r` is unlinked; the lists `w` are what remains. */
  method UnlinkAmong(entry: ListHead, ghost r: seq<ListHead>, ghost k: nat, ghost home: ListHead,
                     ghost span: set<ListHead>, ghost w: World)
    requires Ring(r) && k < |r| && r[k] == entry && forall n :: n in r ==> n in span
    requires home in w ==> |r| > 1 && Cycle(w, home) == Without(r, k)
    requires forall h :: h in w && h != home ==> Sound(w, h) && Span(w, h) !! span
    modifies span
    ensures forall h :: h in w ==> Sound(w, h)
    ensures entry.next == old(entry.next) && entry.prev == old(entry.prev) && Joined(entry.prev, entry.next)
  {
    hide Ring, Without;
    Unlink(entry, r, k);
  }

  /** `_list_del` among other lists: `entry` keeps its links and is on no list. */
  method Leave(entry: ListHead, ghost w: World)
    requires Valid(w) && Bound(w, entry)
    modifies Span(w, Home(w, entry))
    ensures Valid(Left(w, entry)) && entry !in Nodes(Left(w, entry))
    ensures entry.next == old(entry.next) && entry.prev == old(entry.prev) && Joined(entry.prev, entry.next)
  {
    LeaveReady(w, entry);
    ghost var k := Standing(w, entry);
    hide Ring, Distinct, Separate, Nodes, Bound, Home, Left;
    UnlinkAmong(entry, Cycle(w, Home(w, entry)), k, Home(w, entry), Span(w, Home(w, entry)), Left(w, entry));
    ValidIf(Left(w, entry));
  }

  /** A node is linked to itself in both directions or in none. */
  lemma BothOrNeither(w: World, n: ListHead)
    requires Valid(w) && Bound(w, n)
    ensures n.next != null && n.prev != null && (n.next == n <==> n.prev == n)
  {
    assert Sound(w, Home(w, n));
    MutualInverses(Cycle(w, Home(w, n)), n);
  }

  method ClearLinks(entry: ListHead, ghost w: World, ghost prev: ListHead?, ghost next: ListHead?)
    requires Valid(w) && entry !in Nodes(w) && (next != entry ==> prev != entry && Joined(prev, next))
    modifies entry
    ensures Valid(w) && entry.next == null && entry.prev == null
    ensures next != entry ==> Joined(prev, next)
  {
    hide Valid, Nodes;
    entry.next := null;
    entry.prev := null;
  }

  /** `list_del`: the links become null. */
  method Delete(entry: ListHead, ghost w: World)
    requires Valid(w) && Bound(w, entry)
    modifies Span(w, Home(w, entry))
    ensures Valid(Left(w, entry))
    ensures entry.next == null && entry.prev == null
    ensures old(entry.next) != entry ==> Joined(old(entry.prev), old(entry.next))
  {
    assert entry in Span(w, Home(w, entry));
    BothOrNeither(w, entry);
    hide Valid, Separate, Nodes, Bound, Home, Left, Joined;
    Leave(entry, w);
    ClearLinks(entry, Left(w, entry), entry.prev, entry.next);
  }

  /** A node on no list, or the head of an empty one, becomes the head of an empty list. */
  method NewList(entry: ListHead, ghost w: World)
    requires Valid(w) && Loose(w, entry)
    modifies entry
    ensures Valid(With(w, entry, []))
    ensures Linked(entry, entry)
  {
    ghost var w' := With(w, entry, []);
    assert Cycle(w', entry) == [entry] && Span(w', entry) == {entry};
    assert Separate(w') && forall h :: h in w && h != entry ==> entry !in Span(w, h) by {
      assert forall h :: h in w && h != entry ==> Span(w', h) == Span(w, h) && Span(w, h) <= Nodes(w);
      assert entry in w ==> Span(w, entry) == {entry};
    }
    hide Ring, Separate, Nodes;
    InitListHead(entry);
    forall h | h in w'
      ensures Sound(w', h)
    {
      if h != entry {
        assert old(Sound(w, h));
        assert Sound(w, h);
      }
    }
    ValidIf(w');
  }

  /** `list_del_init`. */
  method DeleteInit(entry: ListHead, ghost w: World)
    requires Valid(w) && Bound(w, entry)
    modifies Span(w, Home(w, entry))
    ensures Valid(With(Left(w, entry), entry, []))
    ensures Linked(entry, entry) && (old(entry.next) != entry ==> Joined(old(entry.prev), old(entry.next)))
  {
    BothOrNeither(w, entry);
    assert entry in Span(w, Home(w, entry));
    Leave(entry, w);
    NewList(entry, Left(w, entry));
  }

  /** `list_move` and `list_move_tail`, within a list or between two. */
  method MoveTo(entry: ListHead, head: ListHead, tail: bool, ghost w: World)
    requires Valid(w) && Bound(w, entry) && head in w && entry != head
    modifies Span(w, Home(w, entry)), Span(w, head)
    ensures var left := Left(w, entry);
            Valid(With(left, head, if tail then left[head] + [entry] else [entry] + left[head]))
    ensures if tail then Linked(entry, head) else Linked(head, entry)
  {
    ghost var home, left := Home(w, entry), Left(w, entry);
    assert Sound(w, home);
    LeaveSeparate(w, entry);
    Leave(entry, w);
    AddTo(entry, head, tail, left);
  }

  // ----- Splicing -----

  /** All four splices: the entries of `list`, without it, go to one end of the list of `head`. */
  method ListSpliceAt(list: ListHead, head: ListHead, tail: bool,
                      ghost g: seq<ListHead>, ghost s: seq<ListHead>, ghost span: set<ListHead>)
    requires Ring([list] + g) && Ring([head] + s)
    requires list !in [head] + s && forall n :: n in g ==> n !in [head] + s
    requires list !in span && forall n :: n in g || n in [head] + s ==> n in span
    modifies span
    ensures Ring([head] + if tail then s + g else g + s)
    ensures g != [] ==> if tail then Joined(old(head.prev), g[0]) && Linked(g[|g| - 1], head)
                        else Linked(head, g[0]) && Joined(g[|g| - 1], old(head.next))
  {
    ghost var r := [head] + s;
    RingParts([head], s);
    assert r[|r| - 1] in r && r[0] in r && (s != [] ==> s[0] in r);
    if tail {
      assert r + [] == r;
      SpliceBetween(list, head.prev, head, g, r, []);
      assert r + g + [] == [head] + (s + g);
    } else {
      SpliceBetween(list, head, head.next, g, [head], s);
      assert [head] + g + s == [head] + (g + s);
    }
  }

  lemma SpliceSeparate(w: World, g: ListHead, h: ListHead, tail: bool)
    requires Separate(w) && g in w && h in w && g != h && Distinct(Cycle(w, g))
    ensures Separate(Spliced(w, g, h, tail))
    ensures forall other :: other in Spliced(w, g, h, tail) && other != h && other != g
              ==> Untouched(w, Spliced(w, g, h, tail), other, Span(w, g) + Span(w, h))
    ensures g !in w[g] && Nodes(Spliced(w, g, h, tail)) <= Nodes(w)
    ensures Loose(Spliced(w, g, h, tail), g) && h in Spliced(w, g, h, tail)
    ensures g in Spliced(w, g, h, tail) ==> w[g] == []
  {
    var w' := Spliced(w, g, h, tail);
    DistinctConcat([g], w[g]);
    assert g !in w[g] by {
      assert [g][0] == g;
    }
    if w[g] != [] {
      assert forall n :: n in w'[h] ==> n in w[g] || n in w[h];
      assert forall n :: n in w[g] ==> n in Span(w, g);
      assert g in Span(w, g);
      assert Span(w', h) <= Span(w, g) + Span(w, h) - {g};
      assert forall other :: other in w' && other != h ==> Span(w', other) == Span(w, other);
      SpansWithin(w, w', g, h);
      forall other, n | other in w' && n in [other] + w'[other]
        ensures n != g
      {
        assert n in Span(w', other);
      }
    }
  }

  lemma SpansWithin(w: World, w': World, g: ListHead, h: ListHead)
    requires g in w && h in w && forall other :: other in w' ==> other in w
    requires forall other :: other in w' ==> Span(w', other) <= Span(w, other) + Span(w, g)
    ensures Nodes(w') <= Nodes(w)
  {
    assert forall other, n :: other in w && n in Span(w, other) ==> n in [other] + w[other];
    forall other, n | other in w' && n in [other] + w'[other]
      ensures n in Nodes(w)
    {
      assert n in Span(w', other);
      if n in Span(w, other) {
        assert n in [other] + w[other];
      } else {
        assert n in [g] + w[g];
      }
    }
  }

  lemma SpliceReady(w: World, list: ListHead, head: ListHead)
    requires Valid(w) && list in w && head in w && list != head
    ensures Ring([list] + w[list]) && Ring([head] + w[head])
    ensures list !in [head] + w[head] && list !in w[list] && forall n :: n in w[list] ==> n !in [head] + w[head]
    ensures forall n :: n in w[list] || n in [head] + w[head] ==> n in Span(w, list) + Span(w, head) - {list}
  {
    assert Sound(w, list) && Sound(w, head);
    RingEnds(list, w[list]);
    assert Span(w, list) !! Span(w, head) && list in Span(w, list);
    assert forall n :: n in w[list] ==> n in Span(w, list);
    assert forall n :: n in [head] + w[head] ==> n in Span(w, head);
  }

  /** Before the splice: the lists it leaves, that of `head` apart, are rings clear of what it writes. */
  lemma SpliceClear(w: World, list: ListHead, head: ListHead, tail: bool)
    requires Valid(w) && list in w && head in w && list != head
    ensures var w' := Spliced(w, list, head, tail);
            && Separate(w') && Loose(w', list) && head in w'
            && Cycle(w', head) == [head] + (if tail then w[head] + w[list] else w[list] + w[head])
            && forall h :: h in w' && h != head ==> Sound(w', h) && Span(w', h) !! Span(w, list) + Span(w, head) - {list}
  {
    var w' := Spliced(w, list, head, tail);
    assert Sound(w, list);
    SpliceSeparate(w, list, head, tail);
    assert w[list] == [] ==> Span(w, list) == {list} && w[head] + w[list] == w[head] && w[list] + w[head] == w[head];
    hide Ring, Separate, Nodes, Loose;
    forall h | h in w' && h != head
      ensures Sound(w', h) && Span(w', h) !! Span(w, list) + Span(w, head) - {list}
    {
      assert Sound(w, h);
      assert h != list ==> Untouched(w, w', h, Span(w, list) + Span(w, head));
      assert h == list ==> Span(w', h) == {list};
    }
  }

  method SpliceAmong(list: ListHead, head: ListHead, tail: bool, ghost g: seq<ListHead>, ghost s: seq<ListHead>,
                     ghost span: set<ListHead>, ghost w: World)
    requires Ring([list] + g) && Ring([head] + s)
    requires list !in [head] + s && forall n :: n in g ==> n !in [head] + s
    requires list !in span && forall n :: n in g || n in [head] + s ==> n in span
    requires head in w && Cycle(w, head) == [head] + if tail then s + g else g + s
    requires forall h :: h in w && h != head ==> Sound(w, h) && Span(w, h) !! span
    modifies span
    ensures forall h :: h in w ==> Sound(w, h)
    ensures old(list.next) != list ==> Seamed(head, tail, old(list.next), old(list.prev), old(head.next), old(head.prev))
    ensures old(list.next) != list ==> list !in {old(list.next), old(list.prev), old(head.next), old(head.prev), head}
  {
    RingEnds(list, g);
    RingEnds(head, s);
    hide Ring;
    ListSpliceAt(list, head, tail, g, s, span);
  }

  /** The entries from `first` to `last` stand at one end of the list of `head`, in front of or behind its old ones. */
  ghost predicate Seamed(head: ListHead, tail: bool, first: ListHead?, last: ListHead?, next: ListHead?, prev: ListHead?)
    reads head, first, last, next, prev
  {
    if tail then Joined(prev, first) && Joined(last, head) else Joined(head, first) && Joined(last, next)
  }

  /** `list_splice` and `list_splice_tail` among other lists; an empty source changes nothing. */
  method SpliceTo(list: ListHead, head: ListHead, tail: bool, ghost w: World)
    requires Valid(w) && list in w && head in w && list != head
    modifies Span(w, list), Span(w, head)
    ensures Valid(Spliced(w, list, head, tail)) && Loose(Spliced(w, list, head, tail), list)
    ensures list.next == old(list.next) && list.prev == old(list.prev)
    ensures old(list.next) != list ==> Seamed(head, tail, old(list.next), old(list.prev), old(head.next), old(head.prev))
    ensures old(list.next) != list ==> list !in {old(list.next), old(list.prev), old(head.next), old(head.prev), head}
  {
    SpliceReady(w, list, head);
    SpliceClear(w, list, head, tail);
    hide Ring, Separate, Nodes, Loose, Spliced, Seamed;
    SpliceAmong(list, head, tail, w[list], w[head], Span(w, list) + Span(w, head) - {list}, Spliced(w, list, head, tail));
    ValidIf(Spliced(w, list, head, tail));
  }

  /** The `_init` variants leave the source an empty list. */
  method SpliceToInit(list: ListHead, head: ListHead, tail: bool, ghost w: World)
    requires Valid(w) && list in w && head in w && list != head
    modifies Span(w, list), Span(w, head)
    ensures Valid(With(Spliced(w, list, head, tail), list, []))
    ensures Linked(list, list)
    ensures old(list.next) != list ==> Seamed(head, tail, old(list.next), old(list.prev), old(head.next), old(head.prev))
  {
    assert list in Span(w, list);
    hide Valid, Loose, Spliced;
    SpliceTo(list, head, tail, w);
    NewList(list, Spliced(w, list, head, tail));
  }

  // ----- Runs -----

  predicate IsSplice(op: Op) { op.Splice? || op.SpliceTail? || op.SpliceInit? || op.SpliceTailInit? }

  /** The variants that put the entries behind those of the target. */
  predicate AtTail(op: Op) { op.SpliceTail? || op.SpliceTailInit? }

  ghost function Touched(w: World, op: Op): set<ListHead>
    requires Enabled(w, op)
  {
    match op
    case Add(n, h) => {n} + Span(w, h)
    case AddTail(n, h) => {n} + Span(w, h)
    case Del(n) => Span(w, Home(w, n))
    case DelInit(n) => Span(w, Home(w, n))
    case Move(n, h) => Span(w, Home(w, n)) + Span(w, h)
    case MoveTail(n, h) => Span(w, Home(w, n)) + Span(w, h)
    case Splice(g, h) => Span(w, g) + Span(w, h)
    case SpliceTail(g, h) => Span(w, g) + Span(w, h)
    case SpliceInit(g, h) => Span(w, g) + Span(w, h)
    case SpliceTailInit(g, h) => Span(w, g) + Span(w, h)
  }

  /** The lists an operation works on. */
  ghost predicate Involved(w: World, op: Op, h: ListHead)
    requires Enabled(w, op)
  {
    match op
    case Add(n, g) => h == g || h == n
    case AddTail(n, g) => h == g || h == n
    case Del(n) => h == Home(w, n)
    case DelInit(n) => h == Home(w, n)
    case Move(n, g) => h == Home(w, n) || h == g
    case MoveTail(n, g) => h == Home(w, n) || h == g
    case Splice(f, g) => h == f || h == g
    case SpliceTail(f, g) => h == f || h == g
    case SpliceInit(f, g) => h == f || h == g
    case SpliceTailInit(f, g) => h == f || h == g
  }

  /** Any other list keeps its entries, and none of its nodes may be written. */
  lemma OthersKept(w: World, op: Op, h: ListHead)
    requires Enabled(w, op) && Separate(w) && h in w && !Involved(w, op, h)
    ensures h in Apply(w, op) && Apply(w, op)[h] == w[h]
    ensures Span(w, h) !! Touched(w, op)
  {
    assert forall n :: n in Span(w, h) ==> n in [h] + w[h] && n in Nodes(w);
    assert h in Span(w, h);
    if op.Del? || op.DelInit? || op.Move? || op.MoveTail? {
      assert op.entry in Span(w, Home(w, op.entry));
    }
    if op.Add? || op.AddTail? {
      assert op.entry in w ==> op.entry in Span(w, op.entry);
    }
  }

  /** Moving entries between two lists, or to the other end of their own, neither loses nor gains a node. */
  lemma SpliceConserves(w: World, g: ListHead, h: ListHead, tail: bool)
    requires Separate(w) && g in w && h in w && g != h && Distinct(Cycle(w, g))
    ensures var w' := With(Spliced(w, g, h, tail), g, []);
            && Nodes(w') == Nodes(w)
            && w'[h] == (if tail then w[h] + w[g] else w[g] + w[h]) && w'[g] == []
  {
    var w' := With(Spliced(w, g, h, tail), g, []);
    SpliceSeparate(w, g, h, tail);
    forall f, n | f in w && n in [f] + w[f]
      ensures n in Nodes(w')
    {
      if f == g && n != g {
        assert n in [h] + w'[h];
      } else if f == g {
        assert n in [g] + w'[g];
      } else {
        assert n in [f] + w'[f];
      }
    }
    forall f, n | f in w' && n in [f] + w'[f]
      ensures n in Nodes(w)
    {
      if f == g {
        assert n in [g] + w[g];
      } else {
        assert n in [f] + Spliced(w, g, h, tail)[f];
        assert n in Nodes(Spliced(w, g, h, tail));
      }
    }
  }

  /**
   What `list_del_init` is for: afterwards the node can be initialised, deleted, moved or added as
   often as one likes, with the effect the operation would have had on the entry.
   */
  lemma InitThen(w: World, n: ListHead, h: ListHead)
    requires Separate(w) && Bound(w, n) && Distinct(Cycle(w, Home(w, n)))
    requires h in w && h != n
    ensures var init := Apply(w, DelInit(n));
            && Bound(init, n) && Loose(init, n) && h in init
            && Apply(init, DelInit(n)) == init
            && Apply(init, Del(n)) == Apply(w, Del(n))
            && Apply(init, Move(n, h)) == Apply(init, Add(n, h)) == Apply(w, Move(n, h))
            && Apply(init, MoveTail(n, h)) == Apply(init, AddTail(n, h)) == Apply(w, MoveTail(n, h))
  {
    var left, init := Left(w, n), Apply(w, DelInit(n));
    LeaveSeparate(w, n);
    forall g | g in init
      ensures n !in init[g]
    {
      assert g in left ==> forall m :: m in init[g] ==> m in [g] + left[g];
    }
    assert !OnList(init, n);
    assert Drop(init, n) == left;
  }

  /**
   Every operation refines its sequence operation: all lists are rings again, apart from each other,
   and only nodes of the lists named in the operation have been written.
   */
  method Execute(op: Op, ghost w: World)
    requires Valid(w) && Enabled(w, op)
    modifies Touched(w, op)
    ensures Valid(Apply(w, op))
    ensures op.Add? || op.Move? ==> op.head.next == op.entry && op.entry.prev == op.head
    ensures op.AddTail? || op.MoveTail? ==> op.head.prev == op.entry && op.entry.next == op.head
    ensures op.Add? ==> op.entry.next == old(op.head.next)
    ensures op.AddTail? ==> op.entry.prev == old(op.head.prev)
    ensures op.Del? ==> op.entry.next == null && op.entry.prev == null
    ensures op.DelInit? ==> op.entry.next == op.entry && op.entry.prev == op.entry
    ensures (op.Del? || op.DelInit?) && old(op.entry.next) != op.entry ==> Joined(old(op.entry.prev), old(op.entry.next))
    ensures IsSplice(op) && old(op.list.next) != op.list ==>
              && (AtTail(op) ==> op.head.prev == old(op.list.prev) && Joined(old(op.head.prev), old(op.list.next)))
              && (!AtTail(op) ==> op.head.next == old(op.list.next) && Joined(old(op.list.prev), old(op.head.next)))
    ensures IsSplice(op) ==>
              (op.list.next == op.list <==> op.SpliceInit? || op.SpliceTailInit? || old(op.list.next) == op.list)
  {
    hide Valid, Bound, Home, Loose, Left, Spliced, Span;
    match op
    case Add(n, h) => AddTo(n, h, false, w);
    case AddTail(n, h) => AddTo(n, h, true, w);
    case Del(n) => Delete(n, w);
    case DelInit(n) => DeleteInit(n, w);
    case Move(n, h) => MoveTo(n, h, false, w);
    case MoveTail(n, h) => MoveTo(n, h, true, w);
    case Splice(g, h) => SpliceTo(g, h, false, w);
    case SpliceTail(g, h) => SpliceTo(g, h, true, w);
    case SpliceInit(g, h) => SpliceToInit(g, h, false, w);
    case SpliceTailInit(g, h) => SpliceToInit(g, h, true, w);
  }

  ghost predicate AllEnabled(w: World, ops: seq<Op>)
    decreases |ops|
  {
    ops == [] || (Enabled(w, ops[0]) && AllEnabled(Apply(w, ops[0]), ops[1..]))
  }

  ghost function ApplyAll(w: World, ops: seq<Op>): World
    requires AllEnabled(w, ops)
    decreases |ops|
  {
    if ops == [] then w else ApplyAll(Apply(w, ops[0]), ops[1..])
  }

  ghost predicate EntriesWithin(ops: seq<Op>, universe: set<ListHead>) {
    forall k :: 0 <= k < |ops| && (ops[k].Add? || ops[k].AddTail?) ==> ops[k].entry in universe
  }

  lemma TouchedWithin(w: World, op: Op, universe: set<ListHead>)
    requires Enabled(w, op) && Nodes(w) <= universe && EntriesWithin([op], universe)
    ensures Touched(w, op) <= universe
  {
    assert forall h :: h in w ==> Span(w, h) <= Nodes(w);
    assert [op][0] == op;
  }

  lemma NodesWithin(w: World, op: Op, universe: set<ListHead>)
    requires Enabled(w, op) && Separate(w) && Nodes(w) <= universe && EntriesWithin([op], universe)
    requires forall h :: h in w ==> Distinct(Cycle(w, h))
    ensures Nodes(Apply(w, op)) <= universe
  {
    assert [op][0] == op;
    match op
    case Add(n, h) => GrownWithin(w, Apply(w, op), n, h, universe);
    case AddTail(n, h) => GrownWithin(w, Apply(w, op), n, h, universe);
    case Del(n) => LeaveSeparate(w, n);
    case DelInit(n) =>
      LeaveSeparate(w, n);
      GrownWithin(Left(w, n), Apply(w, op), n, n, universe);
    case Move(n, h) =>
      LeaveSeparate(w, n);
      GrownWithin(Left(w, n), Apply(w, op), n, h, universe);
    case MoveTail(n, h) =>
      LeaveSeparate(w, n);
      GrownWithin(Left(w, n), Apply(w, op), n, h, universe);
    case Splice(g, h) => SpliceSeparate(w, g, h, false);
    case SpliceTail(g, h) => SpliceSeparate(w, g, h, true);
    case SpliceInit(g, h) =>
      SpliceSeparate(w, g, h, false);
      assert g in [g] + w[g];
      GrownWithin(Spliced(w, g, h, false), Apply(w, op), g, g, universe);
    case SpliceTailInit(g, h) =>
      SpliceSeparate(w, g, h, true);
      assert g in [g] + w[g];
      GrownWithin(Spliced(w, g, h, true), Apply(w, op), g, g, universe);
  }

  lemma GrownWithin(w: World, w': World, n: ListHead, h: ListHead, universe: set<ListHead>)
    requires Nodes(w) <= universe && n in universe && h in w'
    requires h in w || h == n
    requires forall g :: g in w' && g != h ==> g in w && w'[g] == w[g]
    requires forall m :: m in w'[h] ==> m == n || (h in w && m in w[h])
    ensures Nodes(w') <= universe
  {
    forall g, m | g in w' && m in [g] + w'[g]
      ensures m in universe
    {
      if g in w && m in [g] + w[g] {
        assert m in Nodes(w);
      } else if g in w {
        assert g in [g] + w[g] && g in Nodes(w);
      }
    }
  }

  /** Any run of operations refines the run of the sequence operations. */
  method Run(ops: seq<Op>, ghost w: World, ghost universe: set<ListHead>)
    requires Valid(w) && AllEnabled(w, ops)
    requires Nodes(w) <= universe && EntriesWithin(ops, universe)
    modifies universe
    ensures Valid(ApplyAll(w, ops))
  {
    ghost var world := w;
    assert ops[0..] == ops;
    for k := 0 to |ops|
      invariant Valid(world) && AllEnabled(world, ops[k..]) && Nodes(world) <= universe
      invariant ApplyAll(world, ops[k..]) == ApplyAll(w, ops)
    {
      assert ops[k..][0] == ops[k] && ops[k..][1..] == ops[k + 1..];
      assert EntriesWithin([ops[k]], universe);
      TouchedWithin(world, ops[k], universe);
      assert forall h :: h in world ==> Sound(world, h);
      NodesWithin(world, ops[k], universe);
      Execute(ops[k], world);
      world := Apply(world, ops[k]);
    }
    assert ops[|ops|..] == [];
  }
}
