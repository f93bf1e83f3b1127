/**
 * The circular doubly linked list of List.hpp: a by-value sentinel node
 * closes a ring of heap nodes, a size counter follows the number of nodes,
 * and every operation is pointer surgery on `next`/`prev` links.
 *
 * Node identity is Dafny object identity.  Allocating a node
 * (`obj_construct`) is `new Node`; releasing one (`obj_destruct`) clears its
 * ghost `owner`, so a released node is one that no list owns any more.  The
 * ghost sequence `nodes` lists the ring in `next` order without the sentinel,
 * and `Valid()` ties it to the links: the ring is doubly consistent and
 * `sz` is its length.
 */
module LinkedList {
  import StableSort

  /** `List_Node`: a payload and two links, both null until the node is linked. */
  class Node {
    const data: int
    var next: Node?
    var prev: Node?
    /** The list that owns this node; null before it is linked and after it is released. */
    ghost var owner: List?

    constructor (el: int)
      ensures data == el && next == null && prev == null && owner == null
    {
      data := el;
      next := null;
      prev := null;
      owner := null;
    }
  }

  /** The sort key of a node: its payload. */
  function Payload(n: Node): int
  {
    n.data
  }

  /** The payloads of `ns`, in order. */
  function DataOf(ns: seq<Node>): seq<int>
  {
    seq(|ns|, i requires 0 <= i < |ns| => ns[i].data)
  }

  lemma DataOfConcat(a: seq<Node>, b: seq<Node>)
    ensures DataOf(a + b) == DataOf(a) + DataOf(b)
  {
  }

  ghost predicate NoDuplicates<A>(s: seq<A>)
  {
    forall i, j :: 0 <= i < j < |s| ==> s[i] != s[j]
  }

  lemma InsertNoDuplicates<A>(s: seq<A>, x: A, k: int)
    requires NoDuplicates(s) && x !in s && 0 <= k <= |s|
    ensures NoDuplicates(s[..k] + [x] + s[k..])
  {
    var t := s[..k] + [x] + s[k..];
    forall i, j | 0 <= i < j < |t|
      ensures t[i] != t[j]
    {
      if i != k && j != k {
        var i', j' := if i < k then i else i - 1, if j < k then j else j - 1;
        assert t[i] == s[i'] && t[j] == s[j'];
      }
    }
  }

  lemma RemoveNoDuplicates<A>(s: seq<A>, k: int)
    requires NoDuplicates(s) && 0 <= k < |s|
    ensures NoDuplicates(s[..k] + s[k + 1..]) && s[k] !in s[..k] + s[k + 1..]
  {
    var t := s[..k] + s[k + 1..];
    forall i | 0 <= i < |t|
      ensures t[i] == s[if i < k then i else i + 1]
    {
    }
  }

  /** Position `i` of the ring made of `sen` and `s`: the sentinel stands at -1 and at |s|. */
  ghost function Slot(s: seq<Node>, sen: Node, i: int): Node
  {
    if 0 <= i < |s| then s[i] else sen
  }

  /** The node at position `i` points forward at position `i + 1` of the ring. */
  ghost predicate NextAt(s: seq<Node>, sen: Node, i: int)
    reads s
    requires 0 <= i < |s|
  {
    s[i].next == Slot(s, sen, i + 1)
  }

  /** The node at position `i` points back at position `i - 1` of the ring. */
  ghost predicate PrevAt(s: seq<Node>, sen: Node, i: int)
    reads s
    requires 0 <= i < |s|
  {
    s[i].prev == Slot(s, sen, i - 1)
  }

  /**
   * `sen` and `s` form a doubly consistent ring: following `next` from the
   * sentinel visits `s` in order and comes back, and `prev` retraces it.
   */
  ghost predicate Ring(s: seq<Node>, sen: Node)
    reads sen, s
  {
    sen !in s && NoDuplicates(s) &&
    sen.next == Slot(s, sen, 0) && sen.prev == Slot(s, sen, |s| - 1) &&
    forall i :: 0 <= i < |s| ==> NextAt(s, sen, i) && PrevAt(s, sen, i)
  }

  /**
   * Linking `n` in at position `k` of the ring of `sen` and `s`: when `n`
   * and its two new neighbours point at each other and every other link is
   * still the ring's, `n` sits at position `k` of a ring again.
   */
  lemma RingAfterInsert(s: seq<Node>, sen: Node, n: Node, k: int)
    requires sen !in s && NoDuplicates(s) && 0 <= k <= |s| && n != sen && n !in s
    requires n.next == Slot(s, sen, k) && n.prev == Slot(s, sen, k - 1)
    requires Slot(s, sen, k - 1).next == n && Slot(s, sen, k).prev == n
    requires forall m :: 0 <= m < |s| && m != k - 1 ==> NextAt(s, sen, m)
    requires forall m :: 0 <= m < |s| && m != k ==> PrevAt(s, sen, m)
    requires k != 0 ==> sen.next == Slot(s, sen, 0)
    requires k != |s| ==> sen.prev == Slot(s, sen, |s| - 1)
    ensures Ring(s[..k] + [n] + s[k..], sen)
  {
    var t := s[..k] + [n] + s[k..];
    InsertNoDuplicates(s, n, k);
    forall i | 0 <= i < |t|
      ensures NextAt(t, sen, i) && PrevAt(t, sen, i)
    {
      if i < k {
        assert t[i] == s[i];
        if i < k - 1 {
          assert NextAt(s, sen, i) && t[i + 1] == s[i + 1];
        }
        assert PrevAt(s, sen, i);
        assert i > 0 ==> t[i - 1] == s[i - 1];
      } else if i > k {
        assert t[i] == s[i - 1];
        assert NextAt(s, sen, i - 1);
        assert i + 1 < |t| ==> t[i + 1] == s[i];
        if i - 1 != k {
          assert PrevAt(s, sen, i - 1) && t[i - 1] == s[i - 2];
        }
      }
    }
  }

  /**
   * Unlinking position `k` of the ring of `sen` and `s`: when its two
   * neighbours point at each other and every other link is still the ring's,
   * the remaining nodes form a ring.
   */
  lemma RingAfterRemove(s: seq<Node>, sen: Node, k: int)
    requires sen !in s && NoDuplicates(s) && 0 <= k < |s|
    requires Slot(s, sen, k - 1).next == Slot(s, sen, k + 1)
    requires Slot(s, sen, k + 1).prev == Slot(s, sen, k - 1)
    requires forall m :: 0 <= m < |s| && m != k - 1 ==> NextAt(s, sen, m)
    requires forall m :: 0 <= m < |s| && m != k + 1 ==> PrevAt(s, sen, m)
    requires k != 0 ==> sen.next == Slot(s, sen, 0)
    requires k != |s| - 1 ==> sen.prev == Slot(s, sen, |s| - 1)
    ensures Ring(s[..k] + s[k + 1..], sen)
  {
    var t := s[..k] + s[k + 1..];
    RemoveNoDuplicates(s, k);
    forall i | 0 <= i < |t|
      ensures NextAt(t, sen, i) && PrevAt(t, sen, i)
    {
      if i < k {
        assert t[i] == s[i] && PrevAt(s, sen, i);
        assert i > 0 ==> t[i - 1] == s[i - 1];
        if i < k - 1 {
          assert NextAt(s, sen, i) && t[i + 1] == s[i + 1];
        } else {
          assert i + 1 < |t| ==> t[i + 1] == s[i + 2];
        }
      } else {
        assert t[i] == s[i + 1] && NextAt(s, sen, i + 1);
        assert i + 1 < |t| ==> t[i + 1] == s[i + 2];
        if i > k {
          assert PrevAt(s, sen, i + 1) && t[i - 1] == s[i];
        } else {
          assert i > 0 ==> t[i - 1] == s[i - 1];
        }
      }
    }
  }

  /**
   * Splicing the chain `t`, whose inner links are those of a ring with
   * sentinel `b`, in after the last node of the ring of `a` and `s`: when the
   * seam and the two ends point the right way, `a` closes a ring over `s + t`.
   */
  lemma RingAfterSplice(s: seq<Node>, t: seq<Node>, a: Node, b: Node)
    requires a !in s && a !in t && NoDuplicates(s) && NoDuplicates(t)
    requires forall n :: n in s ==> n !in t
    requires a.next == Slot(s + t, a, 0) && a.prev == Slot(s + t, a, |s| + |t| - 1)
    requires s != [] ==> s[|s| - 1].next == Slot(t, a, 0)
    requires t != [] ==> t[0].prev == Slot(s, a, |s| - 1) && t[|t| - 1].next == a
    requires forall m :: 0 <= m < |s| - 1 ==> NextAt(s, a, m)
    requires forall m :: 0 <= m < |s| ==> PrevAt(s, a, m)
    requires forall m :: 0 <= m < |t| - 1 ==> NextAt(t, b, m)
    requires forall m :: 0 < m < |t| ==> PrevAt(t, b, m)
    ensures Ring(s + t, a)
  {
    var u := s + t;
    forall i, j | 0 <= i < j < |u|
      ensures u[i] != u[j]
    {
      if j < |s| {
        assert u[i] == s[i] && u[j] == s[j];
      } else if i >= |s| {
        assert u[i] == t[i - |s|] && u[j] == t[j - |s|];
      } else {
        assert u[i] in s && u[j] in t;
      }
    }
    forall i | 0 <= i < |u|
      ensures NextAt(u, a, i) && PrevAt(u, a, i)
    {
      if i < |s| {
        assert u[i] == s[i] && PrevAt(s, a, i);
        if i < |s| - 1 {
          assert NextAt(s, a, i);
        }
      } else {
        var k := i - |s|;
        assert u[i] == t[k];
        if k < |t| - 1 {
          assert NextAt(t, b, k);
        }
        if k > 0 {
          assert PrevAt(t, b, k);
        }
      }
    }
  }

  /** Taking out the element at `i` and putting it back before position `j` permutes the sequence. */
  lemma MovePermutes<A>(p: seq<A>, i: int, j: int)
    requires 0 <= j < i < |p|
    ensures var q := p[..i] + p[i + 1..];
      multiset(q[..j] + [p[i]] + q[j..]) == multiset(p)
  {
    var q := p[..i] + p[i + 1..];
    var r := q[..j] + [p[i]] + q[j..];
    calc {
      multiset(r);
      multiset(q[..j]) + multiset{p[i]} + multiset(q[j..]);
      { assert q == q[..j] + q[j..]; }
      multiset(q) + multiset{p[i]};
      multiset(p[..i]) + multiset(p[i + 1..]) + multiset{p[i]};
      { assert p == p[..i] + [p[i]] + p[i + 1..]; }
      multiset(p);
    }
  }

  /** Every element of a permutation of `t` stands at some position of `t`. */
  lemma PermutationMembers<A>(s: seq<A>, t: seq<A>)
    requires multiset(s) == multiset(t)
    ensures forall k :: 0 <= k < |s| ==> s[k] in t
  {
    forall k | 0 <= k < |s|
      ensures s[k] in t
    {
      assert s[k] in multiset(s);
    }
  }

  function Reversed<A>(s: seq<A>): seq<A>
  {
    seq(|s|, i requires 0 <= i < |s| => s[|s| - 1 - i])
  }

  /** The node at position `i` has its two links exchanged. */
  ghost predicate FlippedAt(s: seq<Node>, sen: Node, i: int)
    reads s
    requires 0 <= i < |s|
  {
    s[i].next == Slot(s, sen, i - 1) && s[i].prev == Slot(s, sen, i + 1)
  }

  /** Exchanging the two links of every node of a ring, sentinel included, gives the reversed ring. */
  lemma RingReversed(s: seq<Node>, sen: Node)
    requires sen !in s && NoDuplicates(s)
    requires sen.next == Slot(s, sen, |s| - 1) && sen.prev == Slot(s, sen, 0)
    requires forall i :: 0 <= i < |s| ==> FlippedAt(s, sen, i)
    ensures Ring(Reversed(s), sen)
  {
    var r := Reversed(s);
    forall i, j | 0 <= i < j < |r|
      ensures r[i] != r[j]
    {
      assert r[i] == s[|s| - 1 - i] && r[j] == s[|s| - 1 - j];
    }
    assert sen !in r by {
      forall i | 0 <= i < |r|
        ensures r[i] != sen
      {
        assert r[i] == s[|s| - 1 - i];
      }
    }
    forall i | 0 <= i < |r|
      ensures NextAt(r, sen, i) && PrevAt(r, sen, i)
    {
      assert FlippedAt(s, sen, |s| - 1 - i);
      assert i + 1 < |r| ==> r[i + 1] == s[|s| - 2 - i];
      assert i > 0 ==> r[i - 1] == s[|s| - i];
    }
  }

  /** Reversing twice gives back the original sequence. */
  lemma ReversedTwice<A>(s: seq<A>)
    ensures Reversed(Reversed(s)) == s
  {
  }

  /**
   * What `sort` guarantees of the order it produces: it is ordered by
   * payload in the requested direction, it is a rearrangement of the
   * nodes, and nodes with equal payloads keep their relative order.
   */
  lemma SortGuarantees(s: seq<Node>, ascending: bool)
    ensures var r := StableSort.InsertionSort(s, Payload, ascending);
      StableSort.Sorted(r, Payload, ascending) && multiset(r) == multiset(s) &&
      forall k :: StableSort.Filter(r, Payload, k) == StableSort.Filter(s, Payload, k)
  {
    StableSort.InsertionSortIsSorted(s, Payload, ascending);
    StableSort.InsertionSortPermutes(s, Payload, ascending);
    forall k {
      StableSort.InsertionSortIsStable(s, Payload, ascending, k);
    }
  }

  /**
   * `List_Base_Iterator`: a cursor holding one node.  Prefix `++` follows
   * `next`, prefix `--` follows `prev`, `==` compares node identity and `*`
   * reads the payload.
   */
  datatype Iterator = Iterator(node: Node)
  {
    /** `operator*`: the payload of the node; `IteratorSteps` says which element that is. */
    function Deref(): (r: int)
      ensures r == Payload(node)
    {
      node.data
    }

    /** Prefix `++`: where the links agree, `--` takes the step back. */
    function Increment(): (r: Iterator)
      reads node, node.next
      requires node.next != null
      ensures r.node == node.next
      ensures node.next.prev == node ==> r.Decrement() == this
    {
      Iterator(node.next)
    }

    /** Prefix `--`: where the links agree, the new node's `next` leads back. */
    function Decrement(): (r: Iterator)
      reads node, node.prev
      requires node.prev != null
      ensures r.node == node.prev
      ensures node.prev.next == node ==> r.node.next == node
    {
      Iterator(node.prev)
    }

    /** `==` compares node identity, which makes it equality of iterators. */
    predicate Equals(other: Iterator)
      ensures Equals(other) <==> this == other
    {
      node == other.node
    }

    /** `!=` is the negation of `==`. */
    predicate NotEquals(other: Iterator)
      ensures NotEquals(other) <==> !Equals(other) && this != other
    {
      node != other.node
    }
  }

  class List {
    /** `fake_node_`: the end position; its payload is never read. */
    const sentinel: Node
    /** `sz_` */
    var sz: nat
    /** The nodes of the ring in `next` order, the sentinel excluded. */
    ghost var nodes: seq<Node>

    /** The ring seen from the nodes: positions -1 and |nodes| are the sentinel. */
    ghost function At(i: int): Node
      reads this
    {
      Slot(nodes, sentinel, i)
    }

    ghost predicate InRing(n: Node)
      reads this
    {
      n == sentinel || n in nodes
    }

    /** The position of a ring node, |nodes| for the sentinel. */
    ghost function Position(n: Node): (k: int)
      reads this
      requires InRing(n)
      ensures 0 <= k <= |nodes| && At(k) == n
    {
      if n == sentinel then |nodes| else var k :| 0 <= k < |nodes| && nodes[k] == n; k
    }

    ghost predicate Distinct()
      reads this
    {
      sentinel !in nodes && NoDuplicates(nodes)
    }

    /** The ring is doubly consistent: every node's `next` has it as `prev`. */
    ghost predicate Linked()
      reads this, sentinel, nodes
    {
      Ring(nodes, sentinel)
    }

    ghost predicate Owned()
      reads this, sentinel, nodes
    {
      sentinel.owner == this && forall n :: n in nodes ==> n.owner == this
    }

    ghost predicate Valid()
      reads this, sentinel, nodes
    {
      Linked() && Owned() && sz == |nodes|
    }

    ghost function Contents(): seq<int>
      reads this
    {
      DataOf(nodes)
    }

    /** Two distinct lists share neither their sentinel nor any node. */
    lemma Disjoint(other: List)
      requires Valid() && other.Valid() && other != this
      ensures sentinel != other.sentinel && sentinel !in other.nodes && other.sentinel !in nodes
      ensures forall n :: n in nodes ==> n !in other.nodes
      ensures forall n :: n in other.nodes ==> n !in nodes && n != sentinel
    {
    }

    /**
     * Iterators walk the ring: from position `k`, `++` reaches the next
     * position and `--` the previous one, with the sentinel (the end
     * position) between the last node and the first.
     */
    lemma IteratorSteps(k: int)
      requires Valid() && 0 <= k <= |nodes|
      ensures At(k).next != null && Iterator(At(k)).Increment() == Iterator(At(if k == |nodes| then 0 else k + 1))
      ensures At(k).prev != null && Iterator(At(k)).Decrement() == Iterator(At(if k == 0 then |nodes| else k - 1))
      ensures k < |nodes| ==> Iterator(At(k)).Deref() == Contents()[k]
    {
      if k < |nodes| {
        assert NextAt(nodes, sentinel, k) && PrevAt(nodes, sentinel, k);
      }
    }

    /** Default construction: an empty ring, the sentinel linked to itself. */
    constructor ()
      ensures Valid() && nodes == [] && fresh(sentinel)
      ensures sentinel.next == sentinel && sentinel.prev == sentinel && sz == 0
    {
      sentinel := new Node(0);
      sz := 0;
      nodes := [];
      new;
      sentinel.next := sentinel;
      sentinel.prev := sentinel;
      sentinel.owner := this;
    }

    function Size(): (r: nat)
      reads this, sentinel, nodes
      requires Valid()
      ensures r == |Contents()|
    {
      sz
    }

    function Empty(): (r: bool)
      reads this, sentinel, nodes
      requires Valid()
      ensures r <==> Contents() == []
    {
      sz == 0
    }

    function Begin(): (it: Iterator)
      reads this, sentinel, nodes
      requires Valid()
      ensures nodes != [] ==> it.node == nodes[0]
      ensures nodes == [] ==> it == End()
    {
      Iterator(sentinel.next)
    }

    function End(): (it: Iterator)
      reads this
      requires Distinct()
      ensures it.node == sentinel && it.node !in nodes
    {
      Iterator(sentinel)
    }

    function Front(): (r: int)
      reads this, sentinel, nodes
      requires Valid() && Contents() != []
      ensures r == Contents()[0]
    {
      Begin().Deref()
    }

    function Back(): (r: int)
      reads this, sentinel, nodes
      requires Valid() && Contents() != []
      ensures r == Contents()[|Contents()| - 1]
    {
      End().Decrement().Deref()
    }

    /** `obj_construct`: a fresh node holding `el`, owned by this list, not yet linked. */
    method ObjConstruct(el: int) returns (n: Node)
      ensures fresh(n) && n.data == el && n.owner == this
    {
      n := new Node(el);
      n.owner := this;
    }

    /** `obj_destruct`: the node is released and no list owns it any more. */
    method ObjDestruct(n: Node)
      modifies n`owner
      ensures n.owner == null
    {
      n.owner := null;
    }

    /** `insert_node`: links `n` immediately before `pos`, the node at position `k`. */
    method InsertNode(pos: Node, n: Node, ghost k: int)
      requires Linked() && 0 <= k <= |nodes| && pos == At(k)
      requires n != sentinel && n !in nodes
      modifies this`nodes, pos`prev, At(k - 1)`next, n`next, n`prev
      ensures Linked()
      ensures nodes == old(nodes[..k]) + [n] + old(nodes[k..])
    {
      ghost var s := nodes;
      ghost var t := s[..k] + [n] + s[k..];
      ghost var before := At(k - 1);
      assert k < |s| ==> pos == s[k] && pos != sentinel;
      assert k > 0 ==> before == s[k - 1] && before != sentinel;
      assert pos.prev == before by {
        if k < |s| {
          assert PrevAt(s, sentinel, k);
        }
      }
      n.next := pos;
      n.prev := pos.prev;
      pos.prev.next := n;
      pos.prev := n;
      forall m | 0 <= m < |s| && m != k - 1
        ensures NextAt(s, sentinel, m)
      {
        assert s[m] != before && s[m] != n && old(NextAt(s, sentinel, m));
      }
      forall m | 0 <= m < |s| && m != k
        ensures PrevAt(s, sentinel, m)
      {
        assert s[m] != pos && s[m] != n && old(PrevAt(s, sentinel, m));
      }
      RingAfterInsert(s, sentinel, n, k);
      nodes := t;
    }

    method PushFront(el: int)
      requires Valid()
      modifies this, sentinel, nodes
      ensures Valid()
      ensures |nodes| == |old(nodes)| + 1 && fresh(nodes[0]) && nodes[1..] == old(nodes)
      ensures Contents() == [el] + old(Contents())
    {
      var n := ObjConstruct(el);
      InsertNode(sentinel.next, n, 0);
      sz := sz + 1;
    }

    method PushBack(el: int)
      requires Valid()
      modifies this, sentinel, nodes
      ensures Valid()
      ensures |nodes| == |old(nodes)| + 1 && fresh(nodes[|nodes| - 1]) && nodes[..|nodes| - 1] == old(nodes)
      ensures Contents() == old(Contents()) + [el]
    {
      var n := ObjConstruct(el);
      InsertNode(sentinel, n, |nodes|);
      sz := sz + 1;
    }

    /** Inserts `el` immediately before the node of `it` and returns an iterator to it. */
    method Insert(it: Iterator, el: int) returns (r: Iterator)
      requires Valid() && InRing(it.node)
      modifies this, sentinel, nodes
      ensures Valid() && fresh(r.node) && r.node.data == el
      ensures var k := old(Position(it.node));
        nodes == old(nodes[..k]) + [r.node] + old(nodes[k..]) &&
        Contents() == old(Contents()[..k]) + [el] + old(Contents()[k..])
    {
      var n := ObjConstruct(el);
      InsertNode(it.node, n, Position(it.node));
      sz := sz + 1;
      r := Iterator(n);
    }

    /**
     * The unlinking step of `erase` (and of `sort`): the neighbours of `del`,
     * the node at position `k`, are made to point at each other.  `del`
     * keeps its own links.
     */
    method Unlink(del: Node, ghost k: int)
      requires Linked() && 0 <= k < |nodes| && del == nodes[k]
      modifies this`nodes, At(k - 1)`next, At(k + 1)`prev
      ensures Linked() && del !in nodes && del != sentinel
      ensures nodes == old(nodes[..k]) + old(nodes[k + 1..])
    {
      ghost var s := nodes;
      ghost var before, after := At(k - 1), At(k + 1);
      assert k > 0 ==> before == s[k - 1] && before != sentinel;
      assert k + 1 < |s| ==> after == s[k + 1] && after != sentinel;
      assert del.prev == before && del.next == after by {
        assert NextAt(s, sentinel, k) && PrevAt(s, sentinel, k);
      }
      del.prev.next := del.next;
      del.next.prev := del.prev;
      forall m | 0 <= m < |s| && m != k - 1
        ensures NextAt(s, sentinel, m)
      {
        assert s[m] != before && old(NextAt(s, sentinel, m));
      }
      forall m | 0 <= m < |s| && m != k + 1
        ensures PrevAt(s, sentinel, m)
      {
        assert s[m] != after && old(PrevAt(s, sentinel, m));
      }
      RingAfterRemove(s, sentinel, k);
      RemoveNoDuplicates(s, k);
      nodes := s[..k] + s[k + 1..];
    }

    /** Unlinks and releases the node of `it`; its neighbours become linked to each other. */
    method Erase(it: Iterator)
      requires Valid() && it.node in nodes
      modifies this, sentinel, nodes
      ensures Valid() && it.node.owner == null
      ensures var k := old(Position(it.node));
        nodes == old(nodes[..k]) + old(nodes[k + 1..]) &&
        Contents() == old(Contents()[..k]) + old(Contents()[k + 1..])
    {
      var del := it.node;
      Unlink(del, Position(del));
      ObjDestruct(del);
      sz := sz - 1;
    }

    /**
     * Unlinks and releases the first node.  The sentinel is that node's
     * `prev`, so pointing the sentinel past it is the unlinking of `Unlink`.
     */
    method PopFront()
      requires Valid() && nodes != []
      modifies this, sentinel, nodes
      ensures Valid() && nodes == old(nodes[1..]) && old(nodes[0]).owner == null
      ensures Contents() == old(Contents()[1..])
    {
      var del := sentinel.next;
      Unlink(del, 0);
      ObjDestruct(del);
      sz := sz - 1;
    }

    /**
     * Unlinks and releases the last node.  The sentinel is that node's
     * `next`, so pointing the sentinel before it is the unlinking of `Unlink`.
     */
    method PopBack()
      requires Valid() && nodes != []
      modifies this, sentinel, nodes
      ensures Valid() && nodes == old(nodes[..|nodes| - 1]) && old(nodes[|nodes| - 1]).owner == null
      ensures Contents() == old(Contents()[..|Contents()| - 1])
    {
      var del := sentinel.prev;
      assert del == nodes[|nodes| - 1] by {
        assert PrevAt(nodes, sentinel, |nodes| - 1);
      }
      Unlink(del, |nodes| - 1);
      ObjDestruct(del);
      sz := sz - 1;
    }

    /**
     * The relinking step of `sort`: the node `n` at position `i` is unlinked
     * and linked back in before `pos`, the node at position `j < i`.
     */
    method MoveBefore(n: Node, ghost i: int, pos: Node, ghost j: int)
      requires Valid() && 0 <= j < i < |nodes| && n == nodes[i] && pos == nodes[j]
      modifies this`nodes, sentinel`next, sentinel`prev, nodes`next, nodes`prev
      ensures Valid()
      ensures var q := old(nodes[..i] + nodes[i + 1..]);
        nodes == q[..j] + [n] + q[j..]
    {
      ghost var p := nodes;
      Unlink(n, i);
      assert nodes[j] == p[j] && (j > 0 ==> nodes[j - 1] == p[j - 1]);
      InsertNode(pos, n, j);
      assert forall m :: m in nodes ==> m in p;
    }

    /**
     * `reverse`: walks the ring exchanging each node's two links (the walk
     * steps with `--`, which after the exchange follows the old `next`),
     * then exchanges the sentinel's.
     */
    method Reverse()
      requires Valid()
      modifies this, sentinel, nodes
      ensures Valid() && nodes == Reversed(old(nodes))
      ensures Contents() == Reversed(old(Contents()))
    {
      ghost var s := nodes;
      var it := Begin();
      ghost var k := 0;
      while !it.Equals(End())
        invariant nodes == s && sz == |s| && Owned() && Distinct()
        invariant 0 <= k <= |s| && it.node == Slot(s, sentinel, k)
        invariant sentinel.next == Slot(s, sentinel, 0) && sentinel.prev == Slot(s, sentinel, |s| - 1)
        invariant forall i :: 0 <= i < k ==> FlippedAt(s, sentinel, i)
        invariant forall i :: k <= i < |s| ==> NextAt(s, sentinel, i) && PrevAt(s, sentinel, i)
        decreases |s| - k
      {
        assert NextAt(s, sentinel, k) && PrevAt(s, sentinel, k);
        label Before:
        it.node.next, it.node.prev := it.node.prev, it.node.next;
        forall i | 0 <= i < k
          ensures FlippedAt(s, sentinel, i)
        {
          assert s[i] != s[k] && old@Before(FlippedAt(s, sentinel, i));
        }
        forall i | k < i < |s|
          ensures NextAt(s, sentinel, i) && PrevAt(s, sentinel, i)
        {
          assert s[i] != s[k] && old@Before(NextAt(s, sentinel, i) && PrevAt(s, sentinel, i));
        }
        it := it.Decrement();
        k := k + 1;
      }
      sentinel.next, sentinel.prev := sentinel.prev, sentinel.next;
      RingReversed(s, sentinel);
      nodes := Reversed(s);
      assert forall n :: n in nodes ==> n in s;
    }

    /**
     * The inner walk of `sort`: from the node before `itI` (at position `i`)
     * back towards the sentinel, the first node whose payload the payload of
     * `itI` strictly precedes while the payload before it (if any) precedes
     * or equals the payload of `itI`.
     */
    method FindInsertionPoint(itI: Iterator, ghost i: int, ascending: bool) returns (found: bool, itJ: Iterator, ghost j: int)
      requires Valid() && 0 < i < |nodes| && itI.node == nodes[i]
      ensures found ==>
        0 <= j < i && itJ.node == nodes[j] &&
        StableSort.IsInsertionPoint(nodes[..i], nodes[i], Payload, ascending, j)
      ensures forall m :: (if found then j else -1) < m < i ==>
        !StableSort.IsInsertionPoint(nodes[..i], nodes[i], Payload, ascending, m)
    {
      assert PrevAt(nodes, sentinel, i);
      itJ := itI.Decrement();
      j := i - 1;
      while !itJ.Equals(End())
        invariant -1 <= j < i && itJ.node == At(j)
        invariant forall m :: j < m < i ==> !StableSort.IsInsertionPoint(nodes[..i], nodes[i], Payload, ascending, m)
        decreases j + 1
      {
        assert PrevAt(nodes, sentinel, j);
        var itNext := itJ.Decrement();
        assert itNext.Equals(End()) <==> j == 0;
        if StableSort.Precedes(itI.Deref(), itJ.Deref(), ascending) &&
           (itNext.Equals(End()) || StableSort.PrecedesOrEqual(itNext.Deref(), itI.Deref(), ascending))
        {
          return true, itJ, j;
        }
        itJ := itJ.Decrement();
        j := j - 1;
      }
      found := false;
    }

    /**
     * One pass of the outer walk of `sort`, for the node `itI` at position
     * `i`: when the nodes before it have an insertion point for it, the node
     * is moved there and the walk goes on at its old successor; otherwise
     * the walk steps past it.  Either way the sorted prefix grows by one.
     */
    method SortPass(itI: Iterator, ghost i: int, ascending: bool, ghost orig: seq<Node>) returns (itNext: Iterator)
      requires Valid() && 1 <= i < |nodes| == |orig| && itI.node == nodes[i]
      requires nodes[..i] == StableSort.InsertionSort(orig[..i], Payload, ascending) && nodes[i..] == orig[i..]
      requires multiset(nodes) == multiset(orig)
      modifies this`nodes, sentinel`next, sentinel`prev, orig`next, orig`prev
      ensures Valid() && |nodes| == |orig| && multiset(nodes) == multiset(orig)
      ensures nodes[..i + 1] == StableSort.InsertionSort(orig[..i + 1], Payload, ascending) && nodes[i + 1..] == orig[i + 1..]
      ensures itNext.node == At(i + 1)
    {
      ghost var p := nodes;
      var flag := true;
      assert NextAt(p, sentinel, i);
      var found, itJ, j := FindInsertionPoint(itI, i, ascending);
      if found {
        var itS := itI.Increment();
        PermutationMembers(nodes, orig);
        MoveBefore(itI.node, i, itJ.node, j);
        StableSort.SortStepMove(p, orig, Payload, ascending, i, j);
        MovePermutes(p, i, j);
        assert i + 1 < |p| ==> nodes[i + 1] == p[i + 1];
        itNext := itS;
        flag := false;
      }
      if flag {
        StableSort.SortStepKeep(p, orig, Payload, ascending, i);
        itNext := itI.Increment();
      }
    }

    /**
     * `sort`: insertion sort by relinking nodes, one `SortPass` for each
     * node from the second on.  The resulting order is the stable insertion
     * sort of the node sequence by payload.
     */
    method Sort(ascending: bool)
      requires Valid()
      modifies this, sentinel, nodes
      ensures Valid()
      ensures nodes == StableSort.InsertionSort(old(nodes), Payload, ascending)
      ensures multiset(nodes) == multiset(old(nodes)) && sz == old(sz)
    {
      ghost var orig := nodes;
      if sz < 2 {
        assert orig == [] || orig == [orig[0]];
        return;
      }
      assert NextAt(orig, sentinel, 0);
      var itI := Begin().Increment();
      ghost var i := 1;
      assert orig[..1] == [orig[0]];
      while !itI.Equals(End())
        invariant Valid() && sz == |orig| && 1 <= i <= |orig|
        invariant multiset(nodes) == multiset(orig)
        invariant nodes[..i] == StableSort.InsertionSort(orig[..i], Payload, ascending)
        invariant nodes[i..] == orig[i..]
        invariant itI.node == At(i)
        decreases |orig| - i
      {
        itI := SortPass(itI, i, ascending, orig);
        i := i + 1;
      }
      assert i == |orig| && nodes == nodes[..i] && orig == orig[..i];
    }

    /**
     * `merge(List&)`: walks `other` from its first node to its sentinel and
     * appends a copy of each payload; merging a list into itself does
     * nothing.  Each copy is appended and counted as `push_back` does it.
     */
    method MergeCopy(other: List)
      requires Valid() && other.Valid()
      modifies this, sentinel, nodes
      ensures Valid() && other.Valid() && other.nodes == old(other.nodes)
      ensures other == this ==> nodes == old(nodes)
      ensures other != this ==> Contents() == old(Contents()) + old(other.Contents())
      ensures other != this ==>
        |nodes| == |old(nodes)| + |old(other.nodes)| && nodes[..|old(nodes)|] == old(nodes) &&
        forall i :: |old(nodes)| <= i < |nodes| ==> fresh(nodes[i])
    {
      if this == other {
        return;
      }
      Disjoint(other);
      ghost var mine, theirs := nodes, other.nodes;
      assert forall m :: 0 <= m < |theirs| ==> theirs[m] !in mine;
      var it := other.Begin();
      ghost var k := 0;
      while !it.Equals(other.End())
        invariant Valid() && 0 <= k <= |theirs| && it.node == Slot(theirs, other.sentinel, k)
        invariant Contents() == DataOf(mine) + DataOf(theirs[..k])
        invariant |nodes| == |mine| + k && nodes[..|mine|] == mine
        invariant forall i :: |mine| <= i < |nodes| ==> fresh(nodes[i])
        decreases |theirs| - k
      {
        assert NextAt(theirs, other.sentinel, k);
        assert forall i :: 0 <= i < |mine| ==> nodes[i] == mine[i];
        PushBack(it.Deref());
        it := it.Increment();
        k := k + 1;
      }
      assert theirs[..k] == theirs;
    }

    /**
     * Copy assignment: releases this list's nodes, then appends a copy of
     * each payload of `other` as `merge(List&)` does.  A list assigned to
     * itself is left as it is.
     */
    method CopyAssign(other: List)
      requires Valid() && other.Valid()
      modifies this, sentinel, nodes
      ensures Valid() && other.Valid() && other.nodes == old(other.nodes)
      ensures Contents() == old(other.Contents())
      ensures other == this ==> nodes == old(nodes)
      ensures other != this ==> forall i :: 0 <= i < |nodes| ==> fresh(nodes[i])
      ensures other != this ==> forall n :: n in old(nodes) ==> n.owner == null
    {
      if this == other {
        return;
      }
      Disjoint(other);
      ghost var theirs := other.nodes;
      Clear();
      assert forall m :: 0 <= m < |theirs| ==> theirs[m] !in old(nodes);
      assert other.Valid();
      MergeCopy(other);
    }

    /** The copy constructor: an empty list, then copy assignment from `other`. */
    constructor Copy(other: List)
      requires other.Valid()
      ensures Valid() && other.Valid() && other.nodes == old(other.nodes)
      ensures Contents() == other.Contents() && fresh(sentinel)
      ensures forall i :: 0 <= i < |nodes| ==> fresh(nodes[i])
    {
      sentinel := new Node(0);
      sz := 0;
      nodes := [];
      new;
      sentinel.next := sentinel;
      sentinel.prev := sentinel;
      sentinel.owner := this;
      CopyAssign(other);
    }

    /**
     * Closes the ring of the sentinel over `t`, a chain of nodes whose inner
     * links are those of a ring with sentinel `from`: when `sz` is 0 the
     * sentinel is linked to itself, otherwise the first and last node of `t`
     * are pointed back at the sentinel, which already points at them.  These
     * are the repointing stores of move assignment, with the empty case that
     * move assignment and `swap` miss.
     */
    method Adopt(ghost t: seq<Node>, ghost from: Node)
      requires sentinel !in t && NoDuplicates(t) && sz == |t|
      requires t != [] ==> sentinel.next == t[0] && sentinel.prev == t[|t| - 1]
      requires forall m :: 0 <= m < |t| - 1 ==> NextAt(t, from, m)
      requires forall m :: 0 < m < |t| ==> PrevAt(t, from, m)
      modifies sentinel`next, sentinel`prev, Slot(t, sentinel, 0)`prev, Slot(t, sentinel, |t| - 1)`next
      ensures Ring(t, sentinel)
    {
      if sz == 0 {
        sentinel.next := sentinel;
        sentinel.prev := sentinel;
      } else {
        sentinel.next.prev := sentinel;
        sentinel.prev.next := sentinel;
        forall m | 0 <= m < |t|
          ensures NextAt(t, sentinel, m) && PrevAt(t, sentinel, m)
        {
          if m < |t| - 1 {
            assert t[m] != t[|t| - 1] && old(NextAt(t, from, m));
          }
          if m > 0 {
            assert t[m] != t[0] && old(PrevAt(t, from, m));
          }
        }
      }
    }

    /**
     * Move assignment: releases this list's nodes and takes over the ring of
     * `other`, whose sentinel is left linked to itself.  A list moved into
     * itself is left as it is.
     */
    method MoveAssign(other: List)
      requires Valid() && other.Valid()
      modifies this, sentinel, nodes, other, other.sentinel, other.nodes
      ensures Valid() && other.Valid()
      ensures other == this ==> nodes == old(nodes)
      ensures other != this ==> nodes == old(other.nodes) && other.nodes == []
      ensures other != this ==> Contents() == old(other.Contents())
      ensures other != this ==> forall n :: n in old(nodes) ==> n.owner == null
    {
      if other == this {
        return;
      }
      ghost var theirs := other.nodes;
      Disjoint(other);
      Clear();
      assert forall m :: 0 <= m < |theirs| ==> theirs[m] !in old(nodes);
      assert other.Valid();
      TakeOver(other);
    }

    /**
     * The part of move assignment after `clear`: the sentinel takes the
     * links of `other`'s sentinel, the ring is closed on it, `other`'s
     * sentinel is linked to itself and the sizes move across.
     */
    method TakeOver(other: List)
      requires Valid() && nodes == [] && other.Valid() && other != this
      modifies this, sentinel, other, other.sentinel, other.nodes
      ensures Valid() && other.Valid() && other.nodes == [] && nodes == old(other.nodes)
    {
      ghost var t := other.nodes;
      Disjoint(other);
      sentinel.next := other.sentinel.next;
      sentinel.prev := other.sentinel.prev;
      sz := other.sz;
      Adopt(t, other.sentinel);
      assert other.sentinel !in t;
      other.sentinel.next := other.sentinel;
      other.sentinel.prev := other.sentinel;
      other.sz := 0;
      Reassign(other, t, []);
    }

    /**
     * The move constructor: an empty list, then the corrected move assignment
     * from `other`, so an empty `other` leaves this list linked to itself.
     */
    constructor Move(other: List)
      requires other.Valid()
      modifies other, other.sentinel, other.nodes
      ensures Valid() && other.Valid() && other.nodes == []
      ensures nodes == old(other.nodes) && Contents() == old(other.Contents()) && fresh(sentinel)
    {
      sentinel := new Node(0);
      sz := 0;
      nodes := [];
      new;
      sentinel.next := sentinel;
      sentinel.prev := sentinel;
      sentinel.owner := this;
      MoveAssign(other);
    }

    /**
     * `merge(List&&)`: splices the ring of `other` in after this list's last
     * node and leaves `other` empty, its sentinel linked to itself.  No node
     * is allocated or released; merging a list into itself does nothing.
     */
    method MergeMove(other: List)
      requires Valid() && other.Valid()
      modifies this, sentinel, nodes, other, other.sentinel, other.nodes
      ensures Valid() && other.Valid()
      ensures other == this ==> nodes == old(nodes)
      ensures other != this ==> nodes == old(nodes) + old(other.nodes) && other.nodes == []
      ensures other != this ==> Contents() == old(Contents()) + old(other.Contents())
    {
      if this == other {
        return;
      }
      Disjoint(other);
      Splice(other);
      assert other.sentinel !in nodes + other.nodes;
      other.sentinel.next := other.sentinel;
      other.sentinel.prev := other.sentinel;
      sz := sz + other.sz;
      other.sz := 0;
      Reassign(other, nodes + other.nodes, []);
    }

    /**
     * The bookkeeping after rings have changed hands: `mine` is now the ring
     * of this list's sentinel and `theirs` that of `other`'s, and each list
     * owns the nodes of its ring.
     */
    ghost method Reassign(other: List, mine: seq<Node>, theirs: seq<Node>)
      requires other != this && other.sentinel != sentinel
      requires Ring(mine, sentinel) && Ring(theirs, other.sentinel) && sz == |mine| && other.sz == |theirs|
      requires sentinel !in theirs && other.sentinel !in mine && forall n :: n in mine ==> n !in theirs
      requires sentinel.owner == this && other.sentinel.owner == other
      modifies this, other, mine, theirs
      ensures Valid() && other.Valid() && nodes == mine && other.nodes == theirs
    {
      forall n | n in mine {
        n.owner := this;
      }
      forall n | n in theirs {
        n.owner := other;
      }
      assert Ring(mine, sentinel) by {
        forall m | 0 <= m < |mine|
          ensures NextAt(mine, sentinel, m) && PrevAt(mine, sentinel, m)
        {
          assert old(NextAt(mine, sentinel, m) && PrevAt(mine, sentinel, m));
        }
      }
      assert Ring(theirs, other.sentinel) by {
        forall m | 0 <= m < |theirs|
          ensures NextAt(theirs, other.sentinel, m) && PrevAt(theirs, other.sentinel, m)
        {
          assert old(NextAt(theirs, other.sentinel, m) && PrevAt(theirs, other.sentinel, m));
        }
      }
      nodes := mine;
      other.nodes := theirs;
    }

    /**
     * The four stores of `merge(List&&)` that join the rings: the last node
     * and the first node of `other` point at each other, and the last node
     * of `other` and this list's sentinel close the ring.  Either ring may be
     * empty, in which case its sentinel stands in for the missing node.
     */
    method Splice(other: List)
      requires Linked() && other.Linked() && other != this
      requires sentinel != other.sentinel && sentinel !in other.nodes && other.sentinel !in nodes
      requires forall n :: n in nodes ==> n !in other.nodes
      modifies At(|nodes| - 1)`next, sentinel`prev, other.At(0)`prev, other.At(|other.nodes| - 1)`next
      ensures Ring(nodes + other.nodes, sentinel)
    {
      ghost var s, t := nodes, other.nodes;
      ghost var last, first, tail := At(|s| - 1), other.At(0), other.At(|t| - 1);
      assert sentinel.prev == last && other.sentinel.next == first && other.sentinel.prev == tail by {
        if s != [] {
          assert PrevAt(s, sentinel, |s| - 1);
        }
      }
      sentinel.prev.next := other.sentinel.next;
      other.sentinel.next.prev := sentinel.prev;
      sentinel.prev := other.sentinel.prev;
      sentinel.prev.next := sentinel;
      assert first == other.sentinel || first in t;
      assert tail == other.sentinel || tail in t;
      assert last == sentinel || last in s;
      forall m | 0 <= m < |s|
        ensures (m < |s| - 1 ==> NextAt(s, sentinel, m)) && PrevAt(s, sentinel, m)
      {
        assert s[m] != first && s[m] != tail && (m < |s| - 1 ==> s[m] != last);
        assert old(NextAt(s, sentinel, m) && PrevAt(s, sentinel, m));
      }
      forall m | 0 <= m < |t|
        ensures (m < |t| - 1 ==> NextAt(t, other.sentinel, m)) && (m > 0 ==> PrevAt(t, other.sentinel, m))
      {
        assert t[m] != last && (m < |t| - 1 ==> t[m] != tail) && (m > 0 ==> t[m] != first);
        assert old(NextAt(t, other.sentinel, m) && PrevAt(t, other.sentinel, m));
      }
      RingAfterSplice(s, t, sentinel, other.sentinel);
    }

    /**
     * `swap`: the two sentinels exchange their links and the two lists their
     * sizes, then each sentinel's ring is closed on it (see Findings for
     * this last step, which the source leaves out).  Swapping a list with
     * itself does nothing.
     */
    method Swap(other: List)
      requires Valid() && other.Valid()
      modifies this, sentinel, nodes, other, other.sentinel, other.nodes
      ensures Valid() && other.Valid()
      ensures other == this ==> nodes == old(nodes)
      ensures other != this ==> nodes == old(other.nodes) && other.nodes == old(nodes)
      ensures other != this ==> Contents() == old(other.Contents()) && other.Contents() == old(Contents())
    {
      if this == other {
        return;
      }
      Disjoint(other);
      ghost var s, t := nodes, other.nodes;
      sentinel.next, other.sentinel.next := other.sentinel.next, sentinel.next;
      sentinel.prev, other.sentinel.prev := other.sentinel.prev, sentinel.prev;
      sz, other.sz := other.sz, sz;
      forall m | 0 <= m < |t|
        ensures NextAt(t, other.sentinel, m) && PrevAt(t, other.sentinel, m)
      {
        assert old(NextAt(t, other.sentinel, m) && PrevAt(t, other.sentinel, m));
      }
      forall m | 0 <= m < |s|
        ensures NextAt(s, sentinel, m) && PrevAt(s, sentinel, m)
      {
        assert old(NextAt(s, sentinel, m) && PrevAt(s, sentinel, m));
      }
      label Crossed:
      Adopt(t, other.sentinel);
      forall m | 0 <= m < |s|
        ensures NextAt(s, sentinel, m) && PrevAt(s, sentinel, m)
      {
        assert s[m] !in t && old@Crossed(NextAt(s, sentinel, m) && PrevAt(s, sentinel, m));
      }
      label Adopted:
      other.Adopt(s, sentinel);
      assert Ring(t, sentinel) by {
        forall m | 0 <= m < |t|
          ensures NextAt(t, sentinel, m) && PrevAt(t, sentinel, m)
        {
          assert t[m] !in s && old@Adopted(NextAt(t, sentinel, m) && PrevAt(t, sentinel, m));
        }
      }
      Reassign(other, t, s);
    }

    /** Releases every node and leaves the sentinel linked to itself. */
    method Clear()
      requires Valid()
      modifies this, sentinel, nodes
      ensures Valid() && nodes == []
      ensures sentinel.next == sentinel && sentinel.prev == sentinel && sz == 0
      ensures forall n :: n in old(nodes) ==> n.owner == null
    {
      ghost var all := nodes;
      ghost var k := 0;
      var del := sentinel.next;
      while del != sentinel
        invariant nodes == all && Distinct() && sentinel.owner == this
        invariant 0 <= k <= |all| && del == sentinel.next == At(k)
        invariant forall i :: 0 <= i < |all| ==> NextAt(all, sentinel, i)
        invariant forall i :: 0 <= i < k ==> all[i].owner == null
        decreases |all| - k
      {
        assert NextAt(all, sentinel, k);
        label Step:
        sentinel.next := sentinel.next.next;
        ObjDestruct(del);
        forall i | 0 <= i < |all|
          ensures NextAt(all, sentinel, i)
        {
          assert old@Step(NextAt(all, sentinel, i));
        }
        del := sentinel.next;
        k := k + 1;
      }
      sentinel.prev := sentinel;
      sz := 0;
      nodes := [];
    }
  }
}
