/**
 The intrusive circular list: nodes linked both ways in a ring, one of them serving as the list's
 head. Every operation is pointer surgery; each is shown to do to the ring what its sequence
 meaning says. The ghost parameters name the rings an operation works on, head first.
 */
module ListHead {

  class Node {
    var next: Node
    var prev: Node

    constructor ()
      ensures Ring([this])
    {
      next := this;
      prev := this;
    }
  }

  ghost predicate Distinct(s: seq<Node>) {
    forall i, j :: 0 <= i < j < |s| ==> s[i] != s[j]
  }

  // The nodes of s, in order, make up one ring.
  ghost predicate Ring(s: seq<Node>)
    reads s
  {
    && s != [] && Distinct(s)
    && Chain(s)
    && Linked(s[|s| - 1], s[0])
  }

  // Each node is linked to its successor in s; the two ends are left open.
  ghost predicate Chain(s: seq<Node>)
    reads s
  {
    forall i :: 0 <= i < |s| - 1 ==> Linked(s[i], s[i + 1])
  }

  predicate Linked(a: Node, b: Node)
    reads a, b
  {
    a.next == b && b.prev == a
  }

  // Two chains whose adjoining ends are linked are one chain.
  lemma ChainJoin(s: seq<Node>, t: seq<Node>)
    requires Chain(s) && Chain(t) && (s != [] && t != [] ==> Linked(s[|s| - 1], t[0]))
    ensures Chain(s + t)
  {
    var u := s + t;
    forall i | 0 <= i < |u| - 1
      ensures Linked(u[i], u[i + 1])
    {
      if i >= |s| {
        assert u[i] == t[i - |s|] && u[i + 1] == t[i - |s| + 1];
      }
    }
  }

  lemma ChainSplit(s: seq<Node>, k: nat)
    requires Chain(s) && k <= |s|
    ensures Chain(s[..k]) && Chain(s[k..])
    ensures 0 < k < |s| ==> Linked(s[k - 1], s[k])
  {
  }

  ghost predicate Disjoint(s: seq<Node>, t: seq<Node>) {
    forall i, j :: 0 <= i < |s| && 0 <= j < |t| ==> s[i] != t[j]
  }

  // ----- Tests -----

  function Empty(head: Node): bool
    reads head
  {
    head.next == head
  }

  function Last(list: Node, head: Node): bool
    reads list
  {
    list.next == head
  }

  function Singular(head: Node): bool
    reads head
  {
    !Empty(head) && head.next == head.prev
  }

  function EmptyCareful(head: Node): bool
    reads head
  {
    head.next == head && head.next == head.prev
  }

  lemma Tests(head: Node, xs: seq<Node>)
    requires Ring([head] + xs)
    ensures Empty(head) <==> xs == []
    ensures EmptyCareful(head) <==> xs == []
    ensures Singular(head) <==> |xs| == 1
    ensures forall i :: 0 <= i < |xs| ==> (Last(xs[i], head) <==> i == |xs| - 1)
  {
    var s := [head] + xs;
    if xs != [] {
      assert Linked(s[0], s[1]) && Linked(s[|s| - 1], s[0]);
    }
    forall i | 0 <= i < |xs|
      ensures Last(xs[i], head) <==> i == |xs| - 1
    {
      assert xs[i] == s[i + 1];
      if i < |xs| - 1 {
        assert Linked(s[i + 1], s[i + 2]);
      }
    }
  }

  // ----- Adding and deleting -----

  method InitListHead(list: Node)
    modifies list
    ensures Ring([list])
  {
    list.next := list;
    list.prev := list;
  }

  // Link node in between prev and next, which may be one node.
  method AddBetween(node: Node, prev: Node, next: Node)
    requires node != prev && node != next
    modifies node, prev`next, next`prev
    ensures Linked(prev, node) && Linked(node, next)
  {
    next.prev := node;
    node.next := next;
    node.prev := prev;
    prev.next := node;
  }

  method ListAdd(node: Node, head: Node, ghost xs: seq<Node>)
    requires Ring([head] + xs) && node !in [head] + xs
    modifies node, head, xs
    ensures Ring([head, node] + xs)
  {
    ghost var s := [head] + xs;
    ChainSplit(s, 1);
    assert s[1..] == xs && s[..1] == [head];
    AddBetween(node, head, head.next);
    assert Chain(xs);
    ChainJoin([head], [node]);
    assert [head] + [node] == [head, node];
    ChainJoin([head, node], xs);
  }

  method ListAddTail(node: Node, head: Node, ghost xs: seq<Node>)
    requires Ring([head] + xs) && node !in [head] + xs
    modifies node, head, xs
    ensures Ring([head] + xs + [node])
  {
    ghost var s := [head] + xs;
    AddBetween(node, head.prev, head);
    ChainJoin(s, [node]);
  }

  ghost function Without(s: seq<Node>, i: nat): seq<Node>
    requires i < |s|
  {
    s[..i] + s[i + 1..]
  }

  method Join(prev: Node, next: Node)
    modifies prev`next, next`prev
    ensures Linked(prev, next)
  {
    next.prev := prev;
    prev.next := next;
  }

  // Close the ring around entry, whose own links stay as they were unless it was alone.
  method DelEntry(entry: Node, ghost s: seq<Node>, ghost i: nat)
    requires Ring(s) && i < |s| && s[i] == entry
    modifies s
    ensures |s| > 1 ==> Ring(Without(s, i))
    ensures |s| == 1 ==> Ring([entry])
  {
    Opened(s, i);
    Join(entry.prev, entry.next);
    if |s| > 1 {
      assert Chain(s[..i]) && Chain(s[i + 1..]);
      ChainJoin(s[..i], s[i + 1..]);
    }
  }

  // The two poison values stand for addresses no list may use.
  method ListDel(entry: Node, poison1: Node, poison2: Node, ghost s: seq<Node>, ghost i: nat)
    requires Ring(s) && i < |s| && s[i] == entry
    modifies s
    ensures |s| > 1 ==> Ring(Without(s, i))
    ensures entry.next == poison1 && entry.prev == poison2
  {
    DelEntry(entry, s, i);
    WithoutLacks(s, i);
    entry.next := poison1;
    entry.prev := poison2;
  }

  lemma WithoutLacks(s: seq<Node>, i: nat)
    requires Distinct(s) && i < |s|
    ensures Distinct(Without(s, i)) && s[i] !in Without(s, i)
    ensures forall x :: x in Without(s, i) ==> x in s
  {
  }

  method ListDelInit(entry: Node, ghost s: seq<Node>, ghost i: nat)
    requires Ring(s) && i < |s| && s[i] == entry
    modifies s
    ensures |s| > 1 ==> Ring(Without(s, i))
    ensures Ring([entry])
  {
    DelEntry(entry, s, i);
    WithoutLacks(s, i);
    InitListHead(entry);
  }

  // ----- Replacing -----

  // node takes over the links of old_; the two neighbours may be one node, or old_ itself.
  method ReplaceLinks(old_: Node, node: Node)
    requires node != old_ && node != old_.next && node != old_.prev
    requires old_.next == old_ <==> old_.prev == old_
    modifies node, old_.next`prev, old_.prev`next
    ensures old(old_.next) == old_ ==> Linked(node, node)
    ensures old(old_.next) != old_ ==> Linked(node, old(old_.next)) && Linked(old(old_.prev), node)
  {
    node.next := old_.next;
    node.next.prev := node;
    node.prev := old_.prev;
    node.prev.next := node;
  }

  // An old head that was empty leaves node an empty head: s is then [old_] and the result [node].
  method ListReplace(old_: Node, node: Node, ghost s: seq<Node>, ghost i: nat)
    requires Ring(s) && i < |s| && s[i] == old_ && node !in s
    modifies node, s
    ensures Ring(s[i := node])
  {
    ghost var before, after := s[..i], s[i + 1..];
    Opened(s, i);
    DistinctUpdate(s, i, node);
    ReplaceLinks(old_, node);
    assert Chain(before);
    assert Chain(after);
    ChainJoin(before, [node]);
    ChainJoin(before + [node], after);
    assert before + [node] + after == s[i := node];
  }

  // What surrounds node i of a ring: the chains on its two sides and its two neighbours.
  lemma Opened(s: seq<Node>, i: nat)
    requires Ring(s) && i < |s|
    ensures Chain(s[..i]) && Chain(s[i + 1..])
    ensures s[i].next == s[if i + 1 < |s| then i + 1 else 0]
    ensures s[i].prev == s[if i > 0 then i - 1 else |s| - 1]
  {
    ChainSplit(s, i);
    ChainSplit(s[i..], 1);
    assert s[i..][1..] == s[i + 1..];
    assert i > 0 ==> Linked(s[i - 1], s[i]);
    assert i + 1 < |s| ==> Linked(s[i], s[i + 1]);
  }

  lemma DistinctUpdate(s: seq<Node>, i: nat, node: Node)
    requires Distinct(s) && i < |s| && node !in s
    ensures Distinct(s[i := node])
  {
  }

  method ListReplaceInit(old_: Node, node: Node, ghost s: seq<Node>, ghost i: nat)
    requires Ring(s) && i < |s| && s[i] == old_ && node !in s
    modifies node, s
    ensures Ring(s[i := node]) && Ring([old_])
  {
    ListReplace(old_, node, s, i);
    assert old_ !in s[i := node];
    InitListHead(old_);
  }

  // ----- Moving -----

  // A node moves within its own ring, or over from a ring that shares no node with head's.

  method ListMoveWithin(list: Node, head: Node, ghost xs: seq<Node>, ghost i: nat)
    requires Ring([head] + xs) && i < |xs| && xs[i] == list
    modifies head, xs
    ensures Ring([head, list] + Without(xs, i))
  {
    ghost var s, rest := [head] + xs, Without(xs, i);
    assert Without(s, i + 1) == [head] + rest;
    DelEntry(list, s, i + 1);
    WithoutLacks(s, i + 1);
    ListAdd(list, head, rest);
  }

  method ListMoveTailWithin(list: Node, head: Node, ghost xs: seq<Node>, ghost i: nat)
    requires Ring([head] + xs) && i < |xs| && xs[i] == list
    modifies head, xs
    ensures Ring([head] + Without(xs, i) + [list])
  {
    ghost var s, rest := [head] + xs, Without(xs, i);
    assert Without(s, i + 1) == [head] + rest;
    DelEntry(list, s, i + 1);
    WithoutLacks(s, i + 1);
    ListAddTail(list, head, rest);
  }

  method ListMoveAcross(list: Node, head: Node, ghost source: seq<Node>, ghost i: nat, ghost xs: seq<Node>)
    requires Ring(source) && i < |source| && source[i] == list
    requires Ring([head] + xs) && Disjoint(source, [head] + xs)
    modifies source, head, xs
    ensures Ring([head, list] + xs)
    ensures |source| > 1 ==> Ring(Without(source, i))
  {
    ghost var s := [head] + xs;
    assert s[0] == head && forall j :: 0 <= j < |xs| ==> xs[j] == s[j + 1];
    DelEntry(list, source, i);
    WithoutLacks(source, i);
    assert Ring(s);
    ghost var rest := Without(source, i);
    assert forall j :: 0 <= j < |rest| ==> rest[j] == source[if j < i then j else j + 1];
    ListAdd(list, head, xs);
  }

  method ListMoveTailAcross(list: Node, head: Node, ghost source: seq<Node>, ghost i: nat, ghost xs: seq<Node>)
    requires Ring(source) && i < |source| && source[i] == list
    requires Ring([head] + xs) && Disjoint(source, [head] + xs)
    modifies source, head, xs
    ensures Ring([head] + xs + [list])
    ensures |source| > 1 ==> Ring(Without(source, i))
  {
    ghost var s := [head] + xs;
    assert s[0] == head && forall j :: 0 <= j < |xs| ==> xs[j] == s[j + 1];
    DelEntry(list, source, i);
    WithoutLacks(source, i);
    assert Ring(s);
    ghost var rest := Without(source, i);
    assert forall j :: 0 <= j < |rest| ==> rest[j] == source[if j < i then j else j + 1];
    ListAddTail(list, head, xs);
  }

  method ListRotateLeft(head: Node, ghost xs: seq<Node>)
    requires Ring([head] + xs)
    modifies head, xs
    ensures Ring(if xs == [] then [head] else [head] + xs[1..] + [xs[0]])
  {
    Tests(head, xs);
    if !Empty(head) {
      ghost var s := [head] + xs;
      assert Linked(s[0], s[1]);
      ListMoveTailWithin(head.next, head, xs, 0);
      assert Without(xs, 0) == xs[1..];
    }
  }

  // ----- Cutting and splicing -----

  // The pointer surgery of a cut: the ring closes behind head, and list takes the piece through
  // entry. The node after entry may be head itself.
  method CutLinks(list: Node, head: Node, entry: Node)
    requires list != head && list != entry && entry != head
    requires head.next != list && head.next != head && entry.next != list && entry.next != head.next
    modifies list, head`next, head.next`prev, entry`next, entry.next`prev
    ensures Linked(list, old(head.next)) && Linked(entry, list) && Linked(head, old(entry.next))
  {
    var first := entry.next;
    list.next := head.next;
    list.next.prev := list;
    list.prev := entry;
    entry.next := list;
    head.next := first;
    first.prev := head;
  }

  lemma DistinctSplit(s: seq<Node>, k: nat)
    requires Distinct(s) && k <= |s|
    ensures Distinct(s[..k]) && Distinct(s[k..]) && Disjoint(s[..k], s[k..])
  {
  }

  method CutAt(list: Node, head: Node, entry: Node, ghost xs: seq<Node>, ghost k: nat)
    requires Ring([head] + xs) && list !in [head] + xs
    requires k < |xs| && xs[k] == entry
    modifies list, head, xs
    ensures Ring([list] + xs[..k + 1]) && Ring([head] + xs[k + 1..])
  {
    CutChains(head, xs, k);
    ghost var piece, rest := xs[..k + 1], xs[k + 1..];
    HeadNotAmong(head, xs);
    DistinctSplit(xs, k + 1);
    DistinctJoin([list], piece);
    DistinctJoin([head], rest);
    CutLinks(list, head, entry);
    assert Chain(piece);
    assert Chain(rest);
    ChainJoin([list], piece);
    ChainJoin([head], rest);
  }

  lemma CutChains(head: Node, xs: seq<Node>, k: nat)
    requires Ring([head] + xs) && k < |xs|
    ensures Chain(xs[..k + 1]) && Chain(xs[k + 1..])
    ensures Linked(head, xs[0]) && Linked(xs[k], if k + 1 < |xs| then xs[k + 1] else head)
    ensures Linked(xs[|xs| - 1], head)
  {
    var s := [head] + xs;
    ChainSplit(s, k + 2);
    ChainSplit(s[..k + 2], 1);
    assert s[..k + 2][1..] == xs[..k + 1];
    assert s[k + 2..] == xs[k + 1..];
    assert Linked(s[0], s[1]);
    assert k + 2 < |s| ==> Linked(s[k + 1], s[k + 2]);
  }

  // Move the entries through `entry` to the list headed by `list`. The list being cut is left
  // alone when it is empty, and when its only entry is not the one asked for; an `entry` that is
  // the head itself empties `list` and cuts nothing.
  method ListCutPosition(list: Node, head: Node, entry: Node, ghost xs: seq<Node>, ghost k: nat)
    requires Ring([head] + xs) && list !in [head] + xs
    requires xs == [] || entry == head || |xs| == 1 || (k < |xs| && xs[k] == entry)
    requires entry in xs ==> k < |xs| && xs[k] == entry
    modifies list, head, xs
    ensures entry in xs ==> Ring([list] + xs[..k + 1]) && Ring([head] + xs[k + 1..])
    ensures entry !in xs ==> Ring([head] + xs)
    ensures entry == head && xs != [] ==> Ring([list])
    ensures xs == [] || (|xs| == 1 && entry !in [head] + xs) ==>
      list.next == old(list.next) && list.prev == old(list.prev)
  {
    Tests(head, xs);
    ghost var s := [head] + xs;
    if Empty(head) {
      return;
    }
    assert Linked(s[0], s[1]);
    if Singular(head) && head.next != entry && head != entry {
      return;
    }
    if entry == head {
      assert head !in xs by {
        assert s[0] == head && forall i :: 0 <= i < |xs| ==> xs[i] == s[i + 1];
      }
      InitListHead(list);
    } else {
      CutAt(list, head, entry, xs, k);
    }
  }

  // Put the entries of `list` between the adjoining nodes prev and next.
  method SpliceBetween(list: Node, prev: Node, next: Node, ghost ys: seq<Node>)
    requires Ring([list] + ys) && ys != []
    requires prev !in [list] + ys && next !in [list] + ys
    modifies prev`next, next`prev, ys
    ensures Chain(ys) && Linked(prev, ys[0]) && Linked(ys[|ys| - 1], next)
  {
    ghost var t := [list] + ys;
    ChainSplit(t, 1);
    assert t[1..] == ys;
    assert Linked(t[0], t[1]);
    var first := list.next;
    var last := list.prev;
    first.prev := prev;
    prev.next := first;
    last.next := next;
    next.prev := last;
  }

  method ListSplice(list: Node, head: Node, ghost ys: seq<Node>, ghost xs: seq<Node>)
    requires Ring([list] + ys) && Ring([head] + xs) && Disjoint([list] + ys, [head] + xs)
    modifies head, xs, ys
    ensures Ring([head] + ys + xs)
    ensures ys == [] ==> Ring([list])
  {
    Tests(list, ys);
    if !Empty(list) {
      ghost var s := [head] + xs;
      RingsApart(list, ys, head, xs);
      ChainSplit(s, 1);
      assert s[1..] == xs;
      assert |s| > 1 ==> Linked(s[0], s[1]);
      SpliceBetween(list, head, head.next, ys);
      assert Chain(xs);
      ChainJoin([head], ys);
      ChainJoin([head] + ys, xs);
    } else {
      assert [head] + ys + xs == [head] + xs;
    }
  }

  method ListSpliceTail(list: Node, head: Node, ghost ys: seq<Node>, ghost xs: seq<Node>)
    requires Ring([list] + ys) && Ring([head] + xs) && Disjoint([list] + ys, [head] + xs)
    modifies head, xs, ys
    ensures Ring([head] + xs + ys)
    ensures ys == [] ==> Ring([list])
  {
    Tests(list, ys);
    if !Empty(list) {
      ghost var s := [head] + xs;
      RingsApart(list, ys, head, xs);
      SpliceBetween(list, head.prev, head, ys);
      assert Chain(s);
      ChainJoin(s, ys);
    } else {
      assert [head] + xs + ys == [head] + xs;
    }
  }

  method ListSpliceInit(list: Node, head: Node, ghost ys: seq<Node>, ghost xs: seq<Node>)
    requires Ring([list] + ys) && Ring([head] + xs) && Disjoint([list] + ys, [head] + xs)
    modifies list, head, xs, ys
    ensures Ring([head] + ys + xs) && Ring([list])
  {
    RingsApart(list, ys, head, xs);
    Tests(list, ys);
    if !Empty(list) {
      ListSplice(list, head, ys, xs);
      InitListHead(list);
    } else {
      assert [head] + ys + xs == [head] + xs;
    }
  }

  method ListSpliceTailInit(list: Node, head: Node, ghost ys: seq<Node>, ghost xs: seq<Node>)
    requires Ring([list] + ys) && Ring([head] + xs) && Disjoint([list] + ys, [head] + xs)
    modifies list, head, xs, ys
    ensures Ring([head] + xs + ys) && Ring([list])
  {
    RingsApart(list, ys, head, xs);
    Tests(list, ys);
    if !Empty(list) {
      ListSpliceTail(list, head, ys, xs);
      InitListHead(list);
    } else {
      assert [head] + xs + ys == [head] + xs;
    }
  }

  lemma RingsApart(list: Node, ys: seq<Node>, head: Node, xs: seq<Node>)
    requires Distinct([list] + ys) && Distinct([head] + xs) && Disjoint([list] + ys, [head] + xs)
    ensures list !in ys && list != head && list !in xs && head !in ys
    ensures forall i, j :: 0 <= i < |xs| && 0 <= j < |ys| ==> xs[i] != ys[j]
    ensures Distinct([head] + xs + ys) && Distinct([head] + ys + xs)
  {
    HeadNotAmong(list, ys);
    HeadNotAmong(head, xs);
    var s, u := [head] + xs, [list] + ys;
    assert s[0] == head && u[0] == list;
    assert forall i :: 0 <= i < |xs| ==> xs[i] == s[i + 1];
    assert forall i :: 0 <= i < |ys| ==> ys[i] == u[i + 1];
    DistinctJoin([head] + xs, ys);
    DistinctJoin([head], ys);
    DistinctJoin([head] + ys, xs);
  }

  lemma DistinctJoin(s: seq<Node>, t: seq<Node>)
    requires Distinct(s) && Distinct(t)
    requires forall i, j :: 0 <= i < |s| && 0 <= j < |t| ==> s[i] != t[j]
    ensures Distinct(s + t)
  {
  }

  lemma HeadNotAmong(head: Node, xs: seq<Node>)
    requires Distinct([head] + xs)
    ensures head !in xs && Distinct(xs)
  {
    var s := [head] + xs;
    assert s[0] == head && forall i :: 0 <= i < |xs| ==> xs[i] == s[i + 1];
  }

  // Cutting anywhere and splicing the piece back at the front restores the original order.
  method CutThenSplice(list: Node, head: Node, entry: Node, ghost xs: seq<Node>, ghost k: nat)
    requires Ring([head] + xs) && list !in [head] + xs
    requires k < |xs| && xs[k] == entry
    modifies list, head, xs
    ensures Ring([head] + xs) && Ring([list])
  {
    ListCutPosition(list, head, entry, xs, k);
    HeadNotAmong(head, xs);
    ListSpliceInit(list, head, xs[..k + 1], xs[k + 1..]);
    assert [head] + xs[..k + 1] + xs[k + 1..] == [head] + xs;
  }
}
