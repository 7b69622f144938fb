/** ChainedList of huffman.py: a singly linked list of tree nodes kept in
    non-decreasing frequency order, used by build_tree as its priority queue. */
module ChainedLists {
  import opened HuffmanTree

  /** ChainedListNode: one cell. The tree node it carries is fixed at creation;
      only the link to the next cell is ever rewired. */
  class ListNode<S> {
    const treeNode: Node<S>
    var next: ListNode?<S>

    constructor (treeNode: Node<S>)
      ensures this.treeNode == treeNode && next == null
    {
      this.treeNode := treeNode;
      next := null;
    }
  }

  /** The tree nodes carried by a chain of cells, in chain order. */
  function TreeNodes<S>(cells: seq<ListNode<S>>): (r: seq<Node<S>>)
    ensures |r| == |cells|
    ensures forall i :: 0 <= i < |cells| ==> r[i] == cells[i].treeNode
  {
    seq(|cells|, i requires 0 <= i < |cells| => cells[i].treeNode)
  }

  /** Splicing a new cell into a chain of distinct cells keeps them distinct. */
  lemma SpliceDistinct<S>(cells: seq<ListNode<S>>, k: nat, c: ListNode<S>)
    requires k <= |cells|
    requires forall i, j :: 0 <= i < j < |cells| ==> cells[i] != cells[j]
    requires c !in cells
    ensures var r := cells[..k] + [c] + cells[k..];
      forall i, j :: 0 <= i < j < |r| ==> r[i] != r[j]
  {
    var r := cells[..k] + [c] + cells[k..];
    forall i, j | 0 <= i < j < |r|
      ensures r[i] != r[j]
    {
      if j < k || i > k {
        assert r[i] == cells[if i < k then i else i - 1];
        assert r[j] == cells[if j < k then j else j - 1];
      } else if i == k {
        assert r[j] == cells[j - 1];
      } else if j == k {
        assert r[i] == cells[i];
      } else {
        assert r[i] == cells[i] && r[j] == cells[j - 1];
      }
    }
  }

  /** The tree nodes of a spliced chain are those of the old chain with the new
      cell's node spliced in at the same place. */
  lemma TreeNodesSplice<S>(cells: seq<ListNode<S>>, k: nat, c: ListNode<S>)
    requires k <= |cells|
    ensures TreeNodes(cells[..k] + [c] + cells[k..])
         == TreeNodes(cells)[..k] + [c.treeNode] + TreeNodes(cells)[k..]
  {
  }

  /** The cells are in non-decreasing frequency order. */
  ghost predicate SortedCells<S>(cells: seq<ListNode<S>>) {
    forall i, j :: 0 <= i < j < |cells| ==> cells[i].treeNode.freq <= cells[j].treeNode.freq
  }

  lemma SortedCellsItems<S>(cells: seq<ListNode<S>>)
    ensures SortedCells(cells) <==> Sorted(TreeNodes(cells))
  {
  }

  /** Splicing a cell in where insert_sorted puts it keeps the cells sorted. */
  lemma InsertKeepsSorted<S>(cells: seq<ListNode<S>>, c: ListNode<S>, k: nat)
    requires SortedCells(cells)
    requires k == InsertPos(TreeNodes(cells), c.treeNode.freq)
    ensures k <= |cells|
    ensures SortedCells(cells[..k] + [c] + cells[k..])
  {
    var s := TreeNodes(cells);
    SortedCellsItems(cells);
    InsertSortedProperties(s, c.treeNode);
    TreeNodesSplice(cells, k, c);
    SortedCellsItems(cells[..k] + [c] + cells[k..]);
  }

  class ChainedList<S> {
    var head: ListNode?<S>
    var size: int
    /** The cells reachable from `head`, in order. */
    ghost var spine: seq<ListNode<S>>
    ghost var Repr: set<object>

    /** `head` starts a null-terminated chain through exactly the cells of `spine`,
        `size` is its length, and the list is sorted by frequency. */
    ghost predicate Valid()
      reads this, Repr
    {
      && this in Repr
      && (forall i :: 0 <= i < |spine| ==> spine[i] in Repr)
      && head == (if spine == [] then null else spine[0])
      && (forall i {:trigger spine[i].next} :: 0 <= i < |spine| - 1 ==> spine[i].next == spine[i + 1])
      && (spine != [] ==> spine[|spine| - 1].next == null)
      && (forall i, j :: 0 <= i < j < |spine| ==> spine[i] != spine[j])
      && size == |spine|
      && SortedCells(spine)
    }

    /** The tree nodes in the list, front first. */
    ghost function Items(): seq<Node<S>>
      reads this
    {
      TreeNodes(spine)
    }

    constructor ()
      ensures Valid() && fresh(Repr)
      ensures Items() == []
    {
      head := null;
      size := 0;
      spine := [];
      Repr := {this};
    }

    /** insert_sorted: link a new cell in front of the first cell whose frequency is
        not below the new node's. */
    method InsertSorted(treeNode: Node<S>)
      requires Valid()
      modifies Repr
      ensures Valid() && fresh(Repr - old(Repr))
      ensures Items() == HuffmanTree.InsertSorted(old(Items()), treeNode)
    {
      var newNode := new ListNode(treeNode);
      if head == null || head.treeNode.freq >= treeNode.freq {
        InsertPosUnique(Items(), treeNode.freq, 0);
        InsertKeepsSorted(spine, newNode, 0);
        TreeNodesSplice(spine, 0, newNode);
        assert spine[..0] + [newNode] + spine[0..] == [newNode] + spine;
        LinkFront(newNode);
        return;
      }

      var current := head;
      ghost var k := 0;
      while current.next != null && current.next.treeNode.freq < treeNode.freq
        invariant Valid()
        invariant 0 <= k < |spine| && current == spine[k]
        invariant forall i :: 0 <= i <= k ==> spine[i].treeNode.freq < treeNode.freq
        decreases |spine| - k
      {
        current := current.next;
        k := k + 1;
      }
      InsertPosUnique(Items(), treeNode.freq, k + 1);
      InsertKeepsSorted(spine, newNode, k + 1);
      TreeNodesSplice(spine, k + 1, newNode);
      LinkAfter(current, k, newNode);
    }

    /** The other splice of insert_sorted: `newNode` becomes the head. */
    method LinkFront(newNode: ListNode<S>)
      requires Valid()
      requires newNode !in Repr
      requires SortedCells([newNode] + spine)
      modifies this, newNode
      ensures Valid()
      ensures spine == [newNode] + old(spine)
      ensures Repr == old(Repr) + {newNode}
    {
      ghost var sp := spine;
      SpliceDistinct(sp, 0, newNode);
      assert sp[..0] + [newNode] + sp[0..] == [newNode] + sp;
      newNode.next := head;
      head := newNode;
      spine := [newNode] + sp;
      Repr := Repr + {newNode};
      size := size + 1;
      forall i | 1 <= i < |spine| - 1
        ensures spine[i].next == spine[i + 1]
      {
        assert spine[i] == sp[i - 1] && spine[i + 1] == sp[i];
      }
    }

    /** The splice at the heart of insert_sorted: link `newNode` in directly after
        `current`, the cell at position `k`. */
    method LinkAfter(current: ListNode<S>, ghost k: nat, newNode: ListNode<S>)
      requires Valid()
      requires k < |spine| && current == spine[k]
      requires newNode !in Repr
      requires SortedCells(spine[..k + 1] + [newNode] + spine[k + 1..])
      modifies this, current, newNode
      ensures Valid()
      ensures spine == old(spine[..k + 1] + [newNode] + spine[k + 1..])
      ensures Repr == old(Repr) + {newNode}
    {
      ghost var sp := spine;
      SpliceDistinct(sp, k + 1, newNode);
      label before:
      newNode.next := current.next;
      current.next := newNode;
      spine := sp[..k + 1] + [newNode] + sp[k + 1..];
      Repr := Repr + {newNode};
      size := size + 1;
      forall i | 0 <= i < |spine| - 1
        ensures spine[i].next == spine[i + 1]
      {
        if i < k {
          assert spine[i] == sp[i] && spine[i + 1] == sp[i + 1];
          assert sp[i] != current;
          assert sp[i].next == old@before(sp[i].next);
        } else if i > k + 1 {
          assert spine[i] == sp[i - 1] && spine[i + 1] == sp[i];
          assert sp[i - 1] != current;
          assert sp[i - 1].next == old@before(sp[i - 1].next);
        } else if i == k + 1 {
          assert spine[i] == newNode && spine[i + 1] == sp[k + 1];
        }
      }
      if k + 1 < |sp| {
        var last := |sp| - 1;
        assert spine[|spine| - 1] == sp[last];
        assert sp[last] != sp[k];
        assert sp[last].next == old@before(sp[last].next);
      }
      forall i | 0 <= i < |spine|
        ensures spine[i] in Repr
      {
        if i <= k {
          assert spine[i] == sp[i];
        } else if i > k + 1 {
          assert spine[i] == sp[i - 1];
        }
      }
    }

    /** remove_first: unlink and return the front node, a node of minimum
        frequency; on an empty list return nothing and leave `size` alone. */
    method RemoveFirst() returns (r: Option<Node<S>>)
      requires Valid()
      modifies this
      ensures Valid() && Repr <= old(Repr)
      ensures old(Items()) == [] ==> r == None && Items() == [] && size == old(size)
      ensures old(Items()) != [] ==>
        && r == Some(old(Items())[0])
        && Items() == old(Items())[1..]
        && size == old(size) - 1
      ensures r.Some? ==> forall i :: 0 <= i < |old(Items())| ==> r.value.freq <= old(Items())[i].freq
    {
      if head == null {
        return None;
      }
      var treeNode := head.treeNode;
      ghost var first := head;
      head := head.next;
      size := size - 1;
      spine := spine[1..];
      Repr := Repr - {first};
      assert Items() == old(Items())[1..];
      return Some(treeNode);
    }

    /** is_empty. */
    function IsEmpty(): (b: bool)
      reads this, Repr
      requires Valid()
      ensures b <==> Items() == []
    {
      head == null
    }

    /** get_size: the number of nodes in the list. */
    function GetSize(): (n: int)
      reads this, Repr
      requires Valid()
      ensures n == |Items()|
    {
      size
    }
  }
}
