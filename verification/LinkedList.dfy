/** The intrusive doubly linked list of heap chunks. */
module LinkedLists {
  import opened Chunks

  /** Width of the size bit-field of a chunk: storing truncates to 28 bits. */
  const SIZE_FIELD: nat := 0x1000_0000

  class ChunkNode {
    var start: nat
    var size: nat
    var free: bool
    var prev: ChunkNode?
    var next: ChunkNode?

    constructor (start: nat, size: nat)
      ensures Value() == Chunk(start, size % SIZE_FIELD, true)
      ensures prev == null && next == null
    {
      this.start := start;
      this.size := size % SIZE_FIELD;
      free := true;
      prev, next := null, null;
    }

    ghost function Value(): Chunk
      reads this`start, this`size, this`free
    {
      Chunk(start, size, free)
    }
  }

  /** The node at position i, null off either end: what a link at that position must hold. */
  ghost function At(ns: seq<ChunkNode>, i: int): ChunkNode? {
    if 0 <= i < |ns| then ns[i] else null
  }

  ghost predicate Distinct(ns: seq<ChunkNode>) {
    forall i, j :: 0 <= i < j < |ns| ==> ns[i] != ns[j]
  }

  ghost predicate Linked(ns: seq<ChunkNode>)
    reads ns`prev, ns`next
  {
    && (forall i {:trigger ns[i].prev} :: 0 <= i < |ns| ==> ns[i].prev == At(ns, i - 1))
    && (forall i {:trigger ns[i].next} :: 0 <= i < |ns| ==> ns[i].next == At(ns, i + 1))
  }

  lemma InsertedDistinct(ns: seq<ChunkNode>, k: nat, x: ChunkNode)
    requires k <= |ns| && Distinct(ns) && x !in ns
    ensures Distinct(Inserted(ns, k, x))
    ensures At(Inserted(ns, k, x), 0) == if k == 0 then x else At(ns, 0)
    ensures At(Inserted(ns, k, x), |ns|) == if k == |ns| then x else At(ns, |ns| - 1)
  {}

  lemma InsertedAt(ns: seq<ChunkNode>, k: nat, x: ChunkNode, i: int)
    requires k <= |ns|
    ensures At(Inserted(ns, k, x), i) == if i < k then At(ns, i) else if i == k then x else At(ns, i - 1)
  {}

  lemma RemovedDistinct(ns: seq<ChunkNode>, k: nat)
    requires k < |ns| && Distinct(ns)
    ensures Distinct(Removed(ns, k))
    ensures At(Removed(ns, k), 0) == if k == 0 then At(ns, 1) else At(ns, 0)
    ensures At(Removed(ns, k), |ns| - 2) == if k == |ns| - 1 then At(ns, k - 1) else At(ns, |ns| - 1)
  {}

  lemma RemovedAt(ns: seq<ChunkNode>, k: nat, i: int)
    requires k < |ns|
    ensures At(Removed(ns, k), i) == if i < k then At(ns, i) else At(ns, i + 1)
  {}

  /** The links around position k already lead to x, and those of x lead back. */
  ghost predicate SplicedIn(ns: seq<ChunkNode>, k: nat, x: ChunkNode)
    reads ns`prev, ns`next, x`prev, x`next
  {
    && x.prev == At(ns, k - 1) && x.next == At(ns, k)
    && (forall j {:trigger ns[j].prev} :: 0 <= j < |ns| ==>
          ns[j].prev == if j == k then x else At(ns, j - 1))
    && (forall j {:trigger ns[j].next} :: 0 <= j < |ns| ==>
          ns[j].next == if j == k - 1 then x else At(ns, j + 1))
  }

  /** The links around position k already pass it by. */
  ghost predicate SplicedOut(ns: seq<ChunkNode>, k: nat)
    reads ns`prev, ns`next
  {
    && (forall j {:trigger ns[j].prev} :: 0 <= j < |ns| && j != k ==>
          ns[j].prev == if j == k + 1 then At(ns, k - 1) else At(ns, j - 1))
    && (forall j {:trigger ns[j].next} :: 0 <= j < |ns| && j != k ==>
          ns[j].next == if j == k - 1 then At(ns, k + 1) else At(ns, j + 1))
  }

  lemma LinkedIn(ns: seq<ChunkNode>, k: nat, x: ChunkNode)
    requires k <= |ns| && SplicedIn(ns, k, x)
    ensures Linked(Inserted(ns, k, x))
  {
    var r := Inserted(ns, k, x);
    forall i | 0 <= i < |r| ensures r[i].prev == At(r, i - 1) && r[i].next == At(r, i + 1) {
      InsertedAt(ns, k, x, i - 1);
      InsertedAt(ns, k, x, i + 1);
      assert r[i] == if i < k then ns[i] else if i == k then x else ns[i - 1];
    }
  }

  lemma LinkedOut(ns: seq<ChunkNode>, k: nat)
    requires k < |ns| && SplicedOut(ns, k)
    ensures Linked(Removed(ns, k))
  {
    var r := Removed(ns, k);
    forall i | 0 <= i < |r| ensures r[i].prev == At(r, i - 1) && r[i].next == At(r, i + 1) {
      RemovedAt(ns, k, i - 1);
      RemovedAt(ns, k, i + 1);
      assert r[i] == if i < k then ns[i] else ns[i + 1];
    }
  }

  class LinkedList {
    var mFirst: ChunkNode?
    var mLast: ChunkNode?
    ghost var nodes: seq<ChunkNode>

    /** The links represent `nodes`, forwards and backwards. */
    ghost predicate Valid()
      reads this, nodes`prev, nodes`next
    {
      && mFirst == At(nodes, 0)
      && mLast == At(nodes, |nodes| - 1)
      && Distinct(nodes)
      && Linked(nodes)
    }

    constructor ()
      ensures Valid() && nodes == []
    {
      mFirst, mLast := null, null;
      nodes := [];
    }

    method InsertAfter(node: ChunkNode, newNode: ChunkNode, ghost k: nat)
      requires Valid() && k < |nodes| && nodes[k] == node && newNode !in nodes
      modifies this, nodes`prev, nodes`next, newNode`prev, newNode`next
      ensures Valid() && nodes == Inserted(old(nodes), k + 1, newNode)
    {
      InsertedDistinct(nodes, k + 1, newNode);
      ghost var after := Inserted(nodes, k + 1, newNode);
      newNode.prev := node;
      newNode.next := node.next;
      if node.next == null {
        mLast := newNode;
      } else {
        node.next.prev := newNode;
      }
      node.next := newNode;
      LinkedIn(nodes, k + 1, newNode);
      nodes := after;
    }

    method InsertBefore(node: ChunkNode, newNode: ChunkNode, ghost k: nat)
      requires Valid() && k < |nodes| && nodes[k] == node && newNode !in nodes
      modifies this, nodes`prev, nodes`next, newNode`prev, newNode`next
      ensures Valid() && nodes == Inserted(old(nodes), k, newNode)
    {
      InsertedDistinct(nodes, k, newNode);
      ghost var after := Inserted(nodes, k, newNode);
      newNode.prev := node.prev;
      newNode.next := node;
      if node.prev == null {
        mFirst := newNode;
      } else {
        node.prev.next := newNode;
      }
      node.prev := newNode;
      LinkedIn(nodes, k, newNode);
      nodes := after;
    }

    method InsertHead(newNode: ChunkNode)
      requires Valid() && newNode !in nodes
      modifies this, nodes`prev, newNode`prev, newNode`next
      ensures Valid() && nodes == [newNode] + old(nodes)
    {
      if mFirst == null {
        mFirst, mLast := newNode, newNode;
        newNode.prev, newNode.next := null, null;
      } else {
        newNode.prev := null;
        newNode.next := mFirst;
        mFirst.prev := newNode;
        mFirst := newNode;
      }
      nodes := [newNode] + nodes;
    }

    method InsertTail(newNode: ChunkNode)
      requires Valid() && newNode !in nodes
      modifies this, nodes`prev, nodes`next, newNode`prev, newNode`next
      ensures Valid() && nodes == old(nodes) + [newNode]
    {
      if mLast == null {
        InsertHead(newNode);
      } else {
        newNode.prev := mLast;
        newNode.next := null;
        mLast.next := newNode;
        mLast := newNode;
        nodes := nodes + [newNode];
      }
    }

    /** Unlinks node, whose own links are left as they were. */
    method Remove(node: ChunkNode, ghost k: nat) returns (r: ChunkNode)
      requires Valid() && k < |nodes| && nodes[k] == node
      modifies this, nodes`prev, nodes`next
      ensures Valid() && nodes == Removed(old(nodes), k)
      ensures r == node && node.prev == old(node.prev) && node.next == old(node.next)
    {
      RemovedDistinct(nodes, k);
      ghost var after := Removed(nodes, k);
      if node.prev == null {
        mFirst := node.next;
      } else {
        node.prev.next := node.next;
      }
      if node.next == null {
        mLast := node.prev;
      } else {
        node.next.prev := node.prev;
      }
      LinkedOut(nodes, k);
      nodes := after;
      return node;
    }
  }
}
