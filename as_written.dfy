/**
 * Four operations of List.hpp as they are written, beside the corrected
 * versions in `LinkedList`.  Each contract states, for the inputs that show
 * it, the state the written code leaves behind.
 */
module AsWritten {
  import opened LinkedList

  /**
   * `merge(List&)` as written: each copy is linked in before the sentinel
   * but the size counter is never incremented, so merging a non-empty list
   * leaves `sz` short of the number of nodes.
   */
  method MergeCopy(self: List, other: List)
    requires self.Valid() && other.Valid()
    modifies self, self.sentinel, self.nodes
    ensures self.Linked() && self.sz == old(self.sz) && other.nodes == old(other.nodes)
    ensures other != self ==> self.Contents() == old(self.Contents()) + old(other.Contents())
    ensures other != self && old(other.nodes) != [] ==> !self.Valid()
  {
    if self == other {
      return;
    }
    self.Disjoint(other);
    ghost var mine, theirs := self.nodes, other.nodes;
    assert forall m :: 0 <= m < |theirs| ==> theirs[m] !in mine;
    var it := other.Begin();
    ghost var k := 0;
    while !it.Equals(other.End())
      invariant self.Linked() && self.Owned() && self.sz == old(self.sz)
      invariant 0 <= k <= |theirs| && it.node == Slot(theirs, other.sentinel, k)
      invariant self.Contents() == DataOf(mine) + DataOf(theirs[..k])
      invariant |self.nodes| == |mine| + k && self.nodes[..|mine|] == mine
      invariant forall i :: |mine| <= i < |self.nodes| ==> fresh(self.nodes[i])
      decreases |theirs| - k
    {
      assert NextAt(theirs, other.sentinel, k);
      assert forall i :: 0 <= i < |mine| ==> self.nodes[i] == mine[i];
      AppendCopy(self, it.Deref());
      assert theirs[..k + 1] == theirs[..k] + [theirs[k]];
      DataOfConcat(theirs[..k], [theirs[k]]);
      it := it.Increment();
      k := k + 1;
    }
    assert theirs[..k] == theirs;
  }

  /**
   * The body of the copy loop of `merge(List&)`: a new node holding `el`
   * is linked in before the sentinel, and the size is left as it was.
   */
  method AppendCopy(self: List, el: int)
    requires self.Linked() && self.Owned()
    modifies self, self.sentinel, self.nodes
    ensures self.Linked() && self.Owned() && self.sz == old(self.sz)
    ensures |self.nodes| == |old(self.nodes)| + 1 && self.nodes[..|self.nodes| - 1] == old(self.nodes)
    ensures fresh(self.nodes[|self.nodes| - 1]) && self.Contents() == old(self.Contents()) + [el]
  {
    var n := self.ObjConstruct(el);
    self.InsertNode(self.End().node, n, |self.nodes|);
    DataOfConcat(old(self.nodes), [n]);
  }

  /**
   * Copy assignment as written: `clear` followed by the copy loop, with no
   * check for assignment to itself.  A list assigned to itself has been
   * cleared before the loop reads it, so it ends up empty.
   */
  method CopyAssign(self: List, other: List)
    requires self.Valid() && other.Valid()
    modifies self, self.sentinel, self.nodes
    ensures self.Valid()
    ensures other == self ==> self.Contents() == []
    ensures other != self ==> self.Contents() == old(other.Contents())
  {
    if other != self {
      self.Disjoint(other);
    }
    ghost var theirs := other.nodes;
    self.Clear();
    if other != self {
      assert forall m :: 0 <= m < |theirs| ==> theirs[m] !in old(self.nodes);
      assert other.Valid();
    }
    self.MergeCopy(other);
  }

  /**
   * Move assignment as written: after `clear` the sentinel takes the links
   * of `other`'s sentinel and the nodes they reach are pointed back at it.
   * When `other` is empty those links are `other`'s sentinel itself, so this
   * list is left pointing into `other` while its size says it is empty.  With
   * no check for a move into itself, such a move empties the list.
   */
  method MoveAssign(self: List, other: List)
    requires self.Valid() && other.Valid()
    modifies self, self.sentinel, self.nodes, other, other.sentinel, other.nodes
    ensures other == self ==> self.Valid() && self.Contents() == []
    ensures other != self && old(other.nodes) == [] ==>
      self.sz == 0 && self.sentinel.next == other.sentinel && self.sentinel.prev == other.sentinel
  {
    if other != self {
      self.Disjoint(other);
    }
    ghost var theirs := other.nodes;
    self.Clear();
    if other != self {
      assert forall m :: 0 <= m < |theirs| ==> theirs[m] !in old(self.nodes);
      assert other.Valid();
    }
    self.sentinel.next := other.sentinel.next;
    self.sentinel.prev := other.sentinel.prev;
    self.sentinel.next.prev := self.sentinel;
    self.sentinel.prev.next := self.sentinel;
    other.sentinel.next := other.sentinel;
    other.sentinel.prev := other.sentinel;
    self.sz := other.sz;
    other.sz := 0;
  }

  /**
   * `swap` as written: the sentinels exchange their links and the lists
   * their sizes, but the first and last nodes still point back at the
   * sentinel they came from, and an empty list hands over links to its own
   * sentinel.  Neither sentinel closes a ring afterwards.
   */
  method Swap(self: List, other: List)
    requires self.Valid() && other.Valid()
    modifies self, self.sentinel, other, other.sentinel
    ensures other != self && old(self.nodes) != [] ==>
      other.sentinel.next == old(self.nodes[0]) && old(self.nodes[0]).prev == self.sentinel &&
      !Ring(old(self.nodes), other.sentinel)
    ensures other != self && old(self.nodes) == [] ==> other.sentinel.next == self.sentinel
  {
    if self == other {
      return;
    }
    self.Disjoint(other);
    self.sentinel.next, other.sentinel.next := other.sentinel.next, self.sentinel.next;
    self.sentinel.prev, other.sentinel.prev := other.sentinel.prev, self.sentinel.prev;
    self.sz, other.sz := other.sz, self.sz;
    if old(self.nodes) != [] {
      assert PrevAt(old(self.nodes), self.sentinel, 0);
      assert !PrevAt(old(self.nodes), other.sentinel, 0);
    }
  }
}
