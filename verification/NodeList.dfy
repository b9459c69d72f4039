/**
 Circular doubly linked lists: list.c.

 A list is a pointer to one of its nodes, NULL when empty. A `node **` argument becomes a
 pointer passed in and handed back. The ghost argument `s` is the ring read forwards from
 that pointer; every operation is specified by what it makes of that sequence.
 */
module NodeList {
  import opened Rings

  class Node<T> {
    var next: Node?<T>
    var prev: Node?<T>
    const data: T

    constructor (value: T)
      ensures data == value
    {
      data, next, prev := value, null, null;
    }
  }

  // ---------- rings ----------

  /** `s` lists, in forward order, all the nodes of one ring (none when `s` is empty). */
  ghost predicate IsRing<T>(s: seq<Node<T>>)
    reads s
  {
    && Distinct(s)
    && (forall i {:trigger s[i].next} | 0 <= i < |s| :: s[i].next == At(s, i + 1))
    && (forall i {:trigger s[i].prev} | 0 <= i < |s| :: s[i].prev == At(s, i - 1))
  }

  ghost function Head<T>(s: seq<Node<T>>): Node?<T> {
    if s == [] then null else s[0]
  }

  /** `list` is a head pointer of the ring `s`. */
  ghost predicate IsList<T>(list: Node?<T>, s: seq<Node<T>>)
    reads s
  {
    IsRing(s) && list == Head(s)
  }

  /** What a ring is, link by link. */
  lemma RingIs<T>(s: seq<Node<T>>)
    requires s != []
    ensures IsRing(s) <==>
              && (forall i, j | 0 <= i < j < |s| :: s[i] != s[j])
              && (forall i | 0 <= i < |s| - 1 :: s[i].next == s[i + 1] && s[i + 1].prev == s[i])
              && s[|s| - 1].next == s[0] && s[0].prev == s[|s| - 1]
  {}

  /** A ring read from any of its nodes is a ring. */
  lemma RotatedIsRing<T>(s: seq<Node<T>>, k: nat)
    requires IsRing(s) && k <= |s|
    ensures IsRing(Rotated(s, k))
  {
    var r := Rotated(s, k);
    forall i | 0 <= i < |r|
      ensures r[i].next == At(r, i + 1) && r[i].prev == At(r, i - 1)
    {
      assert r[i] == At(s, i + k);
    }
  }

  /** The head pointer and the links determine the sequence. */
  lemma RingIsUnique<T>(s: seq<Node<T>>, t: seq<Node<T>>)
    requires IsRing(s) && IsRing(t)
    requires Head(s) == Head(t)
    ensures s == t
  {
    if s != [] {
      if |s| <= |t| {
        NotShorter(s, t);
      } else {
        NotShorter(t, s);
      }
    }
  }

  lemma NotShorter<T>(s: seq<Node<T>>, t: seq<Node<T>>)
    requires IsRing(s) && IsRing(t)
    requires s != [] && t != [] && s[0] == t[0] && |s| <= |t|
    ensures s == t
  {
    CommonPrefix(s, t, |s|);
    var last := |s| - 1;
    assert s[last] == s[..|s|][last] == t[last];
    assert s[last].next == s[0] && t[last].next == At(t, last + 1);
  }

  lemma {:induction false} CommonPrefix<T>(s: seq<Node<T>>, t: seq<Node<T>>, k: nat)
    requires IsRing(s) && IsRing(t)
    requires s != [] && t != [] && s[0] == t[0]
    requires 1 <= k <= |s| && k <= |t|
    ensures s[..k] == t[..k]
  {
    if k > 1 {
      CommonPrefix(s, t, k - 1);
      assert s[k - 2] == s[..k - 1][k - 2] == t[k - 2];
      assert s[k - 2].next == s[k - 1] && t[k - 2].next == t[k - 1];
    }
  }

  // ---------- adding ----------

  method AddNodeBefore<T>(list: Node?<T>, value: T, ghost s: seq<Node<T>>)
    returns (list': Node<T>, node: Node<T>)
    requires IsList(list, s)
    modifies s
    ensures fresh(node) && node.data == value
    ensures IsList(list', s + [node])
  {
    node := new Node(value);
    if list == null {
      node.next := node;
      node.prev := node;
      list' := node;
      return;
    }
    node.next := list;
    node.prev := list.prev;
    list.prev.next := node;
    list.prev := node;
    list' := list;
  }

  method PushBack<T>(list: Node?<T>, value: T, ghost s: seq<Node<T>>)
    returns (list': Node<T>, node: Node<T>)
    requires IsList(list, s)
    modifies s
    ensures fresh(node) && node.data == value
    ensures IsList(list', s + [node])
  {
    list', node := AddNodeBefore(list, value, s);
  }

  method PushFront<T>(list: Node?<T>, value: T, ghost s: seq<Node<T>>)
    returns (list': Node<T>, node: Node<T>)
    requires IsList(list, s)
    modifies s
    ensures fresh(node) && node.data == value
    ensures IsRing([node] + s) && list' == node
  {
    list', node := PushBack(list, value, s);
    RotatedIsRing(s + [node], |s|);
    assert Rotated(s + [node], |s|) == [node] + s;
    list' := node;
  }

  // ---------- removing ----------

  /** Takes the node pointed at out of its ring and leaves it a ring of its own. */
  method ExtractNode<T>(list: Node?<T>, ghost s: seq<Node<T>>) returns (list': Node?<T>, out: Node?<T>)
    requires IsList(list, s)
    modifies s
    ensures out == list
    ensures s == [] ==> list' == null
    ensures s != [] ==> IsList(list', s[1..]) && IsRing([s[0]])
  {
    if list == null {
      return null, null;
    }
    var ptr := list;
    if list.next == list {
      return null, ptr;
    }
    ptr.prev.next := list.next;
    ptr.next.prev := list.prev;
    list' := list.next;
    ptr.next := ptr;
    ptr.prev := ptr;
    out := ptr;
  }

  method PopBack<T>(list: Node?<T>, ghost s: seq<Node<T>>) returns (list': Node?<T>, out: Node?<T>)
    requires IsList(list, s)
    modifies s
    ensures s == [] ==> list' == null && out == null
    ensures s != [] ==> out == s[|s| - 1] && IsList(list', s[..|s| - 1]) && IsRing([out])
  {
    if list == null {
      return null, null;
    }
    var ptr := list.prev;
    ghost var r := Rotated(s, |s| - 1);
    RotatedIsRing(s, |s| - 1);
    assert r[1..] == s[..|s| - 1];
    if ptr.next == ptr {
      list', out := ExtractNode(list, s);
    } else {
      var _, node := ExtractNode(ptr, r);
      list', out := list, node;
    }
  }

  method PopFront<T>(list: Node?<T>, ghost s: seq<Node<T>>) returns (list': Node?<T>, out: Node?<T>)
    requires IsList(list, s)
    modifies s
    ensures s == [] ==> list' == null && out == null
    ensures s != [] ==> out == s[0] && IsList(list', s[1..]) && IsRing([out])
  {
    if list == null {
      return null, null;
    }
    list' := list.next;
    ghost var r := Rotated(s, 1);
    RotatedIsRing(s, 1);
    assert r[..|r| - 1] == s[1..];
    list', out := PopBack(list', r);
  }

  // ---------- positions ----------

  method FindIndex<T>(list: Node?<T>, index: nat, ghost s: seq<Node<T>>) returns (r: Node?<T>)
    requires IsList(list, s)
    ensures r == if index < |s| then s[index] else null
  {
    if list == null {
      return null;
    }
    var ptr, i := list, 0;
    while true
      invariant 0 <= i < |s| && i <= index && ptr == s[i]
      decreases |s| - i
    {
      if i == index {
        return ptr;
      }
      ptr := ptr.next;
      i := i + 1;
      if list == ptr {
        break;
      }
    }
    return null;
  }

  /** Removing the head of the ring read from position k removes position k. */
  lemma RemovedAt<T>(s: seq<Node<T>>, k: nat)
    requires k < |s| && IsRing(Rotated(s, k)[1..])
    ensures IsRing(Without(s, k))
  {
    var r := Rotated(s, k)[1..];
    RotatedIsRing(r, |s| - 1 - k);
    assert r == s[k + 1..] + s[..k];
    assert Rotated(r, |s| - 1 - k) == Without(s, k);
  }

  /** Adding before the head of the ring read from position k inserts at position k. */
  lemma AddedAt<T>(s: seq<Node<T>>, k: nat, node: Node<T>)
    requires k <= |s| && IsRing(Rotated(s, k) + [node])
    ensures IsRing(With(s, k, node))
  {
    RotatedIsRing(Rotated(s, k) + [node], |s| - k);
    assert Rotated(Rotated(s, k) + [node], |s| - k) == With(s, k, node);
  }

  method PopIndex<T>(list: Node?<T>, index: nat, ghost s: seq<Node<T>>) returns (list': Node?<T>, out: Node?<T>)
    requires IsList(list, s)
    modifies s
    ensures index >= |s| ==> IsRing(s) && list' == list && out == null
    ensures index < |s| ==> out == s[index] && IsList(list', s[..index] + s[index + 1..]) && IsRing([out])
  {
    if list == null {
      return null, null;
    }
    var ptr := FindIndex(list, index, s);
    if ptr == null {
      return list, null;
    }
    ghost var r := Rotated(s, index);
    RotatedIsRing(s, index);
    var next, node := ExtractNode(ptr, r);
    RemovedAt(s, index);
    return if list == ptr then next else list, node;
  }

  method PushIndex<T>(list: Node?<T>, index: nat, value: T, ghost s: seq<Node<T>>)
    returns (list': Node?<T>, node: Node?<T>)
    requires IsList(list, s)
    modifies s
    ensures index > |s| ==> node == null && list' == list && IsRing(s)
    ensures index <= |s| ==> node != null && fresh(node) && node.data == value
    ensures index <= |s| ==> IsList(list', s[..index] + [node] + s[index..])
  {
    if list == null && index != 0 {
      return null, null;
    }
    if index == 0 {
      list', node := PushFront(list, value, s);
      assert With(s, 0, node) == [node] + s;
      return;
    }
    var ptr, i := list, 0;
    while true
      invariant 0 <= i < |s| && i <= index && ptr == s[i]
      invariant IsRing(s)
      decreases |s| - i
    {
      if i == index {
        break;
      }
      ptr := ptr.next;
      i := i + 1;
      if list == ptr {
        break;
      }
    }
    if list == ptr && i != index {
      return list, null;
    }
    RotatedIsRing(s, index);
    var _, added := PushBack(ptr, value, Rotated(s, index));
    AddedAt(s, index, added);
    return list, added;
  }

  // ---------- exchanging two nodes ----------

  /** The exchange of a and b, on pointers. */
  ghost function Exchange<A>(a: A, b: A, x: A): A {
    if x == a then b else if x == b then a else x
  }

  /** `s` with a and b exchanged wherever they occur. */
  ghost function Exchanged<A>(s: seq<A>, a: A, b: A): (r: seq<A>)
    ensures |r| == |s|
  {
    seq(|s|, i requires 0 <= i < |s| => Exchange(a, b, s[i]))
  }

  lemma ExchangedDistinct<A>(s: seq<A>, a: A, b: A)
    requires Distinct(s)
    ensures Distinct(Exchanged(s, a, b))
  {}

  lemma ExchangedAt<A>(s: seq<A>, i: nat, j: nat)
    requires Distinct(s) && i < |s| && j < |s|
    ensures Exchanged(s, s[i], s[j]) == s[i := s[j]][j := s[i]]
  {}

  ghost function Nodes<A>(s: seq<A>): set<A> {
    set x | x in s
  }

  /** Links that can be followed and followed back, without leaving `nodes`. */
  ghost predicate Linked<T>(nodes: set<Node<T>>)
    reads nodes
  {
    forall x | x in nodes ::
      x.next in nodes && x.prev in nodes && x.next.prev == x && x.prev.next == x
  }

  lemma RingIsLinked<T>(s: seq<Node<T>>)
    requires IsRing(s)
    ensures Linked(Nodes(s))
  {
    forall k | 0 <= k < |s|
      ensures s[k].next in s && s[k].prev in s && s[k].next.prev == s[k] && s[k].prev.next == s[k]
    {
      AtIn(s, k + 1);
      AtIn(s, k - 1);
    }
  }

  lemma BothLinked<T>(s: seq<Node<T>>, t: seq<Node<T>>)
    requires IsRing(s) && IsRing(t)
    ensures Linked(Nodes(s) + Nodes(t))
  {
    RingIsLinked(s);
    RingIsLinked(t);
  }

  lemma Inverse<T>(nodes: set<Node<T>>, n: Node<T>)
    requires Linked(nodes) && n in nodes
    ensures n.next in nodes && n.prev in nodes
    ensures forall x | x in nodes :: (x.next == n <==> x == n.prev) && (x.prev == n <==> x == n.next)
  {}

  /** When swap works: on one node, or on two of which the second is not immediately before
      the first and neither is alone in its ring. */
  ghost predicate Exchangeable<T>(n1: Node<T>, n2: Node<T>)
    reads n1, n2
  {
    n1 == n2 || (n1.prev != n2 && n1.next != n1 && n2.next != n2)
  }

  ghost function Nexts<T>(nodes: set<Node<T>>): (m: map<Node<T>, Node?<T>>)
    reads nodes
  {
    map x | x in nodes :: x.next
  }

  ghost function Prevs<T>(nodes: set<Node<T>>): (m: map<Node<T>, Node?<T>>)
    reads nodes
  {
    map x | x in nodes :: x.prev
  }

  /** The nodes have the links they had, but with n1 and n2 exchanged both as holders of links
      and as their targets. */
  ghost predicate LinksExchanged<T>(nodes: set<Node<T>>, n1: Node<T>, n2: Node<T>,
                                    nexts: map<Node<T>, Node?<T>>, prevs: map<Node<T>, Node?<T>>)
    reads nodes, n1, n2
  {
    forall x | x in nodes ::
      && x in nexts && Exchange(n1, n2, x).next == Exchange(n1, n2, nexts[x])
      && x in prevs && Exchange(n1, n2, x).prev == Exchange(n1, n2, prevs[x])
  }

  /** The link assignments of swap (list.c:252-269): they exchange the nodes, both as holders
      of links and as their targets, exactly when these are exchangeable. */
  method ExchangeLinks<T>(n1: Node<T>, n2: Node<T>, ghost nodes: set<Node<T>>)
    requires Linked(nodes) && n1 in nodes && n2 in nodes
    modifies nodes
    ensures old(Exchangeable(n1, n2)) <==>
              forall x | x in nodes ::
                && Exchange(n1, n2, x).next == Exchange(n1, n2, old(x.next))
                && Exchange(n1, n2, x).prev == Exchange(n1, n2, old(x.prev))
    ensures n1 != n2 && old(n1.prev) == n2 ==> n1.next == n1
  {
    hide Linked;
    Inverse(nodes, n1);
    Inverse(nodes, n2);
    var n1Prev := n1.prev;
    var n2Next := n2.next;
    n1Prev.next := n2;
    n2Next.prev := n1;
    if n1.next == n2 || n1.prev == n2 {
      n1.prev := n2;
      n2.next := n1;
    } else {
      n1.next.prev := n2;
      n2.prev.next := n1;
      n1.prev := n2.prev;
      n2.next := n1.next;
    }
    n1.next := n2Next;
    n2.prev := n1Prev;
    if !old(Exchangeable(n1, n2)) {
      assert Exchange(n1, n2, n2).next != Exchange(n1, n2, old(n2.next))
             || Exchange(n1, n2, n1).next != Exchange(n1, n2, old(n1.next));
    }
  }

  /** The same in terms of what the links were. */
  method ExchangeMapped<T>(n1: Node<T>, n2: Node<T>, ghost nodes: set<Node<T>>,
                           ghost nexts: map<Node<T>, Node?<T>>, ghost prevs: map<Node<T>, Node?<T>>)
    requires Linked(nodes) && n1 in nodes && n2 in nodes
    requires nexts == Nexts(nodes) && prevs == Prevs(nodes)
    modifies nodes
    ensures old(Exchangeable(n1, n2)) <==> LinksExchanged(nodes, n1, n2, nexts, prevs)
    ensures n1 != n2 && old(n1.prev) == n2 ==> n1.next == n1
  {
    hide Exchangeable, Linked;
    assert forall x | x in nodes :: x in nexts && nexts[x] == x.next && x in prevs && prevs[x] == x.prev;
    ExchangeLinks(n1, n2, nodes);
  }

  lemma LinksOfBoth<T>(s: seq<Node<T>>, t: seq<Node<T>>, n1: Node<T>, n2: Node<T>,
                       nexts: map<Node<T>, Node?<T>>, prevs: map<Node<T>, Node?<T>>)
    ensures LinksExchanged(Nodes(s) + Nodes(t), n1, n2, nexts, prevs)
            <==> LinksExchanged(Nodes(s), n1, n2, nexts, prevs)
                 && LinksExchanged(Nodes(t), n1, n2, nexts, prevs)
  {}

  /** What the links of a ring were. */
  ghost predicate RingMaps<T>(s: seq<Node<T>>, nexts: map<Node<T>, Node?<T>>, prevs: map<Node<T>, Node?<T>>) {
    && Distinct(s)
    && forall k | 0 <= k < |s| ::
         && s[k] in nexts && nexts[s[k]] == At(s, k + 1)
         && s[k] in prevs && prevs[s[k]] == At(s, k - 1)
  }

  lemma RingHasMaps<T>(s: seq<Node<T>>, nodes: set<Node<T>>)
    requires IsRing(s) && forall x | x in s :: x in nodes
    ensures RingMaps(s, Nexts(nodes), Prevs(nodes))
  {}

  lemma NodesOf<T>(s: seq<Node<T>>)
    ensures forall x :: x in Nodes(s) <==> x in s
  {}

  lemma ExchangedIsRing<T>(s: seq<Node<T>>, n1: Node<T>, n2: Node<T>,
                           nexts: map<Node<T>, Node?<T>>, prevs: map<Node<T>, Node?<T>>)
    requires RingMaps(s, nexts, prevs)
    ensures IsRing(Exchanged(s, n1, n2)) <==> LinksExchanged(Nodes(s), n1, n2, nexts, prevs)
  {
    var t := Exchanged(s, n1, n2);
    ExchangedDistinct(s, n1, n2);
    forall k | 0 <= k < |s|
      ensures t[k] == Exchange(n1, n2, s[k])
      ensures At(t, k + 1) == Exchange(n1, n2, nexts[s[k]]) && At(t, k - 1) == Exchange(n1, n2, prevs[s[k]])
    {}
  }

  ghost predicate ExchangedAreRings<T>(s: seq<Node<T>>, t: seq<Node<T>>, a: Node<T>, b: Node<T>)
    reads s, t, a, b
  {
    IsRing(Exchanged(s, a, b)) && IsRing(Exchanged(t, a, b))
  }

  lemma AreRings<T>(s: seq<Node<T>>, t: seq<Node<T>>, a: Node<T>, b: Node<T>)
    ensures ExchangedAreRings(s, t, a, b) <==> IsRing(Exchanged(s, a, b)) && IsRing(Exchanged(t, a, b))
  {}

  /** What the link assignments make of the rings of the two nodes. */
  method ExchangeInRings<T>(n1: Node<T>, n2: Node<T>, ghost s: seq<Node<T>>, ghost t: seq<Node<T>>)
    requires IsRing(s) && IsRing(t) && n1 in s && n2 in t
    modifies s, t
    ensures ExchangedAreRings(s, t, n1, n2) <==> old(Exchangeable(n1, n2))
    ensures n1 != n2 && old(n1.prev) == n2 ==> n1.next == n1
  {
    hide *;
    ghost var nodes := Nodes(s) + Nodes(t);
    NodesOf(s);
    NodesOf(t);
    BothLinked(s, t);
    RingHasMaps(s, nodes);
    RingHasMaps(t, nodes);
    ghost var nexts, prevs := Nexts(nodes), Prevs(nodes);
    ExchangeMapped(n1, n2, nodes, nexts, prevs);
    LinksOfBoth(s, t, n1, n2, nexts, prevs);
    ExchangedIsRing(s, n1, n2, nexts, prevs);
    ExchangedIsRing(t, n1, n2, nexts, prevs);
    AreRings(s, t, n1, n2);
  }

  /** The condition, in one ring and in two. */
  lemma ExchangeableIs<T>(s: seq<Node<T>>, t: seq<Node<T>>, n1: Node<T>, n2: Node<T>)
    requires IsRing(s) && IsRing(t) && n1 in s && n2 in t
    ensures s == t ==> (Exchangeable(n1, n2) <==> n1 == n2 || n1.prev != n2)
    ensures (forall x | x in s :: x !in t) ==> (Exchangeable(n1, n2) <==> n1.next != n1 && n2.next != n2)
  {
    AtInRing(s, n1);
    if s == t {
      ExchangeableInRing(s, n1, n2);
    }
  }

  lemma AtInRing<T>(s: seq<Node<T>>, n: Node<T>)
    requires IsRing(s) && n in s
    ensures n.next in s && n.prev in s
  {
    RingIsLinked(s);
  }

  /** The exchanged sequences, by position. */
  lemma ExchangedAre<A>(s: seq<A>, t: seq<A>, a: A, b: A)
    requires Distinct(s) && Distinct(t) && a in s && b in t
    ensures forall i, j | 0 <= i < |s| && 0 <= j < |s| && s == t && s[i] == a && s[j] == b ::
              Exchanged(s, a, b) == s[i := s[j]][j := s[i]]
    ensures forall i, j | 0 <= i < |s| && 0 <= j < |t| && (forall x | x in s :: x !in t) && s[i] == a && t[j] == b ::
              Exchanged(s, a, b) == s[i := t[j]] && Exchanged(t, a, b) == t[j := s[i]]
  {
    forall i, j | 0 <= i < |s| && 0 <= j < |s| && s == t && s[i] == a && s[j] == b
      ensures Exchanged(s, a, b) == s[i := s[j]][j := s[i]]
    {
      ExchangedAt(s, i, j);
    }
    forall i, j | 0 <= i < |s| && 0 <= j < |t| && (forall x | x in s :: x !in t) && s[i] == a && t[j] == b
      ensures Exchanged(s, a, b) == s[i := t[j]] && Exchanged(t, a, b) == t[j := s[i]]
    {
      assert a !in t && b !in s;
    }
  }

  /** Exchanges the nodes, which lie in rings s and t (one ring or two), and the two pointers.
      Both sequences with the nodes exchanged are rings again exactly when the nodes were
      exchangeable. */
  method Swap<T>(n1: Node?<T>, n2: Node?<T>, ghost s: seq<Node<T>>, ghost t: seq<Node<T>>)
    returns (n1': Node?<T>, n2': Node?<T>, result: Node?<T>)
    requires IsRing(s) && IsRing(t)
    requires (n1 != null ==> n1 in s) && (n2 != null ==> n2 in t)
    modifies s, t
    ensures n1 == null || n2 == null ==> IsRing(s) && IsRing(t) && n1' == n1 && n2' == n2 && result == null
    ensures n1 != null && n2 != null ==> n1' == n2 && n2' == n1 && result == n2
    ensures n1 != null && n2 != null ==>
              (ExchangedAreRings(s, t, n1, n2) <==> old(Exchangeable(n1, n2)))
    ensures n1 != null && n2 != null && n1 != n2 && old(n1.prev) == n2 ==> n1.next == n1
  {
    hide *;
    if n1 == null || n2 == null {
      return n1, n2, null;
    }
    ExchangeInRings(n1, n2, s, t);
    return n2, n1, n2;
  }

  /** Two nodes of one ring always are exchangeable but when the second is immediately before
      the first. */
  lemma ExchangeableInRing<T>(s: seq<Node<T>>, n1: Node<T>, n2: Node<T>)
    requires IsRing(s) && n1 in s && n2 in s
    ensures Exchangeable(n1, n2) <==> n1 == n2 || n1.prev != n2
  {}

  /** In a ring of two nodes swap leaves the first one linked to itself. */
  method SwapInRingOfTwo<T>(x: T, y: T) returns (a: Node<T>, b: Node<T>)
    ensures a.data == x && b.data == y && a != b
    ensures a.next == a && !IsRing([b, a])
  {
    var list;
    assert IsList<T>(null, []);
    list, a := PushBack(null, x, []);
    assert [] + [a] == [a];
    list, b := PushBack(list, y, [a]);
    assert [a] + [b] == [a, b];
    var _, _, _ := Swap(a, b, [a, b], [a, b]);
    assert [b, a][1].next == a;
  }

  // ---------- deleting ----------

  /** Frees the nodes in ring order; `freed` lists the calls to free. The invariant on ptr says
      that the node whose link the loop reads next has not been freed yet. */
  method DeleteList<T>(list: Node?<T>, ghost s: seq<Node<T>>) returns (list': Node?<T>, freed: seq<Node<T>>)
    requires IsList(list, s)
    ensures list' == null
    ensures freed == s && Distinct(freed)
  {
    freed := [];
    if list == null {
      return null, [];
    }
    var ptr := list;
    while true
      invariant |freed| < |s| && freed == s[..|freed|]
      invariant ptr == s[|freed|] && ptr !in freed
      decreases |s| - |freed|
    {
      var toFree := ptr;
      ptr := ptr.next;
      freed := freed + [toFree];
      if list == ptr {
        break;
      }
    }
    list' := null;
  }
}
