/** `list_for_each` and the deletion-safe `list_for_each_safe`. */
module ListTraversal {
  import opened LinkedRing

  /** The entries that stay, in order. */
  ghost function Kept(s: seq<ListHead>, doomed: set<ListHead>): seq<ListHead> {
    if s == [] then [] else (if s[0] in doomed then [] else [s[0]]) + Kept(s[1..], doomed)
  }

  lemma {:induction false} KeptConcat(a: seq<ListHead>, b: seq<ListHead>, doomed: set<ListHead>)
    ensures Kept(a + b, doomed) == Kept(a, doomed) + Kept(b, doomed)
  {
    if a == [] {
      assert a + b == b;
    } else {
      KeptConcat(a[1..], b, doomed);
      assert (a + b)[1..] == a[1..] + b && (a + b)[0] == a[0];
      var first := if a[0] in doomed then [] else [a[0]];
      assert first + (Kept(a[1..], doomed) + Kept(b, doomed)) == (first + Kept(a[1..], doomed)) + Kept(b, doomed);
    }
  }

  lemma {:induction false} KeptMembers(s: seq<ListHead>, doomed: set<ListHead>, n: ListHead)
    ensures n in Kept(s, doomed) <==> n in s && n !in doomed
  {
    if s != [] {
      KeptMembers(s[1..], doomed, n);
    }
  }

  /** What the list holds once the first `i` entries have been visited. */
  ghost function Remaining(s: seq<ListHead>, i: nat, doomed: set<ListHead>): seq<ListHead>
    requires i <= |s|
  {
    Kept(s[..i], doomed) + s[i..]
  }

  /** Visiting an entry removes it from what remains when it is doomed, and changes nothing otherwise. */
  lemma RemainingStep(s: seq<ListHead>, i: nat, doomed: set<ListHead>)
    requires i < |s|
    ensures var k := |Kept(s[..i], doomed)|;
            var before, after := Remaining(s, i, doomed), Remaining(s, i + 1, doomed);
            && k < |before| && before[k] == s[i]
            && after == if s[i] in doomed then Without(before, k) else before
  {
    var kept := Kept(s[..i], doomed);
    assert s[..i + 1] == s[..i] + [s[i]];
    KeptConcat(s[..i], [s[i]], doomed);
    assert Kept([s[i]], doomed) == if s[i] in doomed then [] else [s[i]];
    assert s[i..] == [s[i]] + s[i + 1..];
    assert kept + ([s[i]] + s[i + 1..]) == kept + [s[i]] + s[i + 1..];
  }

  /** The link the loop follows: from the last entry kept, or from the one just read, to the next. */
  lemma NextOf(head: ListHead, s: seq<ListHead>, k: nat)
    requires Ring([head] + s) && k < |s|
    ensures s[k].next == if k + 1 < |s| then s[k + 1] else head
  {
    var r := [head] + s;
    assert r[k + 1] == s[k];
    if k + 1 < |s| {
      assert Linked(r[k + 1], r[k + 2]);
    }
  }

  lemma HeadNext(head: ListHead, s: seq<ListHead>)
    requires Ring([head] + s)
    ensures head.next == if s == [] then head else s[0]
    ensures head !in s && Distinct(s)
  {
    var r := [head] + s;
    if s != [] {
      assert Linked(r[0], r[1]);
    }
    assert forall i :: 0 <= i < |s| ==> r[i + 1] == s[i];
  }

  /** `list_for_each`: visits every entry once, in order, when the body changes no links. */
  method ForEach(head: ListHead, ghost s: seq<ListHead>) returns (visited: seq<ListHead>)
    requires Ring([head] + s)
    ensures visited == s
  {
    HeadNext(head, s);
    visited := [];
    var p := head.next;
    ghost var i := 0;
    while p != head
      invariant i <= |s| && visited == s[..i]
      invariant p == if i < |s| then s[i] else head
      decreases |s| - i
    {
      NextOf(head, s, i);
      visited := visited + [p];
      p := p.next;
      i := i + 1;
    }
  }

  /** The entries deleted among the first `i`. */
  ghost function Gone(s: seq<ListHead>, i: nat, doomed: set<ListHead>): set<ListHead>
    requires i <= |s|
  {
    set m | m in s[..i] && m in doomed
  }

  lemma GoneStep(s: seq<ListHead>, i: nat, doomed: set<ListHead>)
    requires i < |s|
    ensures Gone(s, i + 1, doomed) == Gone(s, i, doomed) + if s[i] in doomed then {s[i]} else {}
    ensures s[..i + 1] == s[..i] + [s[i]]
  {
  }

  /** Half-way through the traversal: the list holds what remains, and the deleted entries are off it. */
  ghost predicate Visited(head: ListHead, s: seq<ListHead>, i: nat, doomed: set<ListHead>, span: set<ListHead>)
    requires i <= |s|
    reads span
  {
    && (forall m :: m in [head] + Remaining(s, i, doomed) ==> m in span)
    && Ring([head] + Remaining(s, i, doomed))
    && forall m :: m in Gone(s, i, doomed) ==>
         m in span && m.next == null && m.prev == null && m !in [head] + Remaining(s, i, doomed)
  }

  lemma TraversalDone(head: ListHead, s: seq<ListHead>, doomed: set<ListHead>, span: set<ListHead>)
    requires Visited(head, s, |s|, doomed, span)
    ensures s[..|s|] == s && Ring([head] + Kept(s, doomed))
    ensures forall m: ListHead :: m in s && m in doomed ==> m.next == null && m.prev == null
  {
    assert s[..|s|] == s && s[|s|..] == [];
    assert Remaining(s, |s|, doomed) == Kept(s, doomed);
    assert forall m :: m in s && m in doomed ==> m in Gone(s, |s|, doomed);
  }

  ghost function Members(head: ListHead, s: seq<ListHead>): set<ListHead> {
    set m | m in [head] + s
  }

  /** What the body of the loop finds, and the nodes it must leave alone. */
  lemma VisitReady(p: ListHead, head: ListHead, doomed: set<ListHead>, s: seq<ListHead>, i: nat, span: set<ListHead>)
    requires i < |s| && p == s[i] && Visited(head, s, i, doomed, span)
    ensures var rest, k := Remaining(s, i, doomed), |Kept(s[..i], doomed)|;
            var gone, nodes := Gone(s, i, doomed), Members(head, rest);
            && Ring([head] + rest) && k < |rest| && rest[k] == p && nodes <= span && gone <= span && gone !! nodes
            && Remaining(s, i + 1, doomed) == (if p in doomed then Without(rest, k) else rest)
            && Members(head, Remaining(s, i + 1, doomed)) <= nodes
            && Gone(s, i + 1, doomed) == gone + (if p in doomed then {p} else {})
            && (p in doomed ==> p in nodes && p !in Members(head, Remaining(s, i + 1, doomed)))
    ensures forall m :: m in Gone(s, i, doomed) ==> m.next == null && m.prev == null
  {
    RemainingStep(s, i, doomed);
    GoneStep(s, i, doomed);
    EntryGone(head, Remaining(s, i, doomed), |Kept(s[..i], doomed)|);
    hide Ring, Remaining, Kept, Gone, Without;
  }

  /** The body of the loop: deletes the current entry when it is doomed. */
  method VisitOne(p: ListHead, head: ListHead, doomed: set<ListHead>, ghost s: seq<ListHead>, ghost i: nat, ghost span: set<ListHead>)
    requires i < |s| && p == s[i] && Visited(head, s, i, doomed, span)
    modifies span
    ensures Visited(head, s, i + 1, doomed, span)
  {
    ghost var rest, k := Remaining(s, i, doomed), |Kept(s[..i], doomed)|;
    ghost var gone, nodes := Gone(s, i, doomed), Members(head, rest);
    VisitReady(p, head, doomed, s, i, span);
    hide Ring, Remaining, Kept, Gone, Without, Members, Visited;
    DeleteIf(p, p in doomed, head, rest, k);
    MembersVisited(head, s, i + 1, doomed, span);
  }

  lemma MembersVisited(head: ListHead, s: seq<ListHead>, i: nat, doomed: set<ListHead>, span: set<ListHead>)
    requires i <= |s| && Ring([head] + Remaining(s, i, doomed)) && Members(head, Remaining(s, i, doomed)) <= span
    requires Gone(s, i, doomed) !! Members(head, Remaining(s, i, doomed))
    requires forall m :: m in Gone(s, i, doomed) ==> m in span && m.next == null && m.prev == null
    ensures Visited(head, s, i, doomed, span)
  {
  }

  method DeleteIf(p: ListHead, dead: bool, ghost head: ListHead, ghost rest: seq<ListHead>, ghost k: nat)
    requires Ring([head] + rest) && k < |rest| && rest[k] == p
    modifies Members(head, rest)
    ensures Ring([head] + if dead then Without(rest, k) else rest)
    ensures dead ==> p.next == null && p.prev == null
  {
    if dead {
      EntryGone(head, rest, k);
      ListDel(p, [head] + rest, k + 1);
    }
  }

  /** The node read ahead is still on the list after the body. */
  lemma AheadStays(head: ListHead, s: seq<ListHead>, i: nat, doomed: set<ListHead>, span: set<ListHead>)
    requires i < |s| && Visited(head, s, i, doomed, span)
    ensures s[i].next == if i + 1 < |s| then s[i + 1] else head
    ensures (if i + 1 < |s| then s[i + 1] else head) in [head] + Remaining(s, i + 1, doomed)
  {
    var rest, k := Remaining(s, i, doomed), |Kept(s[..i], doomed)|;
    NextOf(head, rest, k);
    var after := [head] + Remaining(s, i + 1, doomed);
    assert after[0] == head;
    if i + 1 < |s| {
      assert after[1 + |Kept(s[..i + 1], doomed)|] == s[i + 1];
    }
  }

  lemma NonNull(head: ListHead, s: seq<ListHead>, i: nat, doomed: set<ListHead>, span: set<ListHead>, n: ListHead)
    requires i <= |s| && Visited(head, s, i, doomed, span) && n in [head] + Remaining(s, i, doomed)
    ensures n.next != null
  {
    MutualInverses([head] + Remaining(s, i, doomed), n);
  }

  lemma TraversalStart(head: ListHead, s: seq<ListHead>, doomed: set<ListHead>, span: set<ListHead>)
    requires Ring([head] + s) && forall m :: m in [head] + s ==> m in span
    ensures Visited(head, s, 0, doomed, span)
    ensures head.next == (if s == [] then head else s[0]) && head !in s
    ensures head in [head] + Remaining(s, 0, doomed) && head.next in [head] + Remaining(s, 0, doomed)
  {
    assert Remaining(s, 0, doomed) == s;
    HeadNext(head, s);
  }

  /**
   `list_for_each_safe` with a body that deletes the current entry when it is doomed: every original
   entry is visited exactly once, in order; the list keeps exactly the others, in order, and the
   deleted entries end with null links. `span` holds the nodes of the list.
   */
  method ForEachSafe(head: ListHead, doomed: set<ListHead>, ghost s: seq<ListHead>, ghost span: set<ListHead>)
    returns (visited: seq<ListHead>)
    requires Ring([head] + s) && forall m :: m in span <==> m in [head] + s
    modifies span
    ensures visited == s
    ensures Ring([head] + Kept(s, doomed))
    ensures forall m: ListHead :: m in Kept(s, doomed) <==> m in s && m !in doomed
    ensures forall m: ListHead :: m in s && m in doomed ==> m.next == null && m.prev == null
  {
    hide Visited, Remaining, Gone, Ring, Kept;
    ghost var i := 0;
    TraversalStart(head, s, doomed, span);
    visited := [];
    NonNull(head, s, 0, doomed, span, head);
    var p: ListHead := head.next;
    NonNull(head, s, 0, doomed, span, p);
    var n: ListHead := p.next;
    while p != head
      invariant i <= |s| && visited == s[..i]
      invariant Visited(head, s, i, doomed, span)
      invariant p == if i < |s| then s[i] else head
      invariant n == p.next
      decreases |s| - i
    {
      AheadStays(head, s, i, doomed, span);
      visited := visited + [p];
      VisitOne(p, head, doomed, s, i, span);
      i := i + 1;
      p := n;
      NonNull(head, s, i, doomed, span, p);
      n := p.next;
    }
    TraversalDone(head, s, doomed, span);
    forall m: ListHead
      ensures m in Kept(s, doomed) <==> m in s && m !in doomed
    {
      KeptMembers(s, doomed, m);
    }
  }
}
