/**
 * The work items of an SP-GiST scan and the queue that orders them
 * (spgproc.c and the queue half of spgscan.c). The queue is a search tree
 * of nodes, one per distinct key (the item distances), each holding a chain
 * of items; the scan takes items from the leftmost node's chain and drops a
 * node once its chain is empty. How a new item finds its node (the tree's
 * comparator and combiner) is not part of this model: it is an insertion
 * function given to the queue.
 */
module SpgQueue {
  import opened Wrappers

  const InvalidOffsetNumber: nat := 0
  const FirstOffsetNumber: nat := 1

  datatype ItemPointer = ItemPointer(blkno: nat, offset: nat)

  predicate ItemPointerIsValid(p: ItemPointer) {
    p.offset != InvalidOffsetNumber
  }

  /** An ordering distance; the nulls and the nodes without distances get infinity. */
  datatype Distance = Finite(d: real) | Infinity

  function Infinities(n: nat): (r: seq<Distance>)
    ensures |r| == n && forall i :: 0 <= i < n ==> r[i] == Infinity
  {
    seq(n, _ => Infinity)
  }

  function Zeros(n: nat): (r: seq<Distance>)
    ensures |r| == n && forall i :: 0 <= i < n ==> r[i] == Finite(0.0)
  {
    seq(n, _ => Finite(0.0))
  }

  /** A heap tuple to report (with or without recheck) or an inner tuple to visit. */
  datatype ItemState = HeapRecheck | HeapNoRecheck | Inner

  /** SpGistSearchItem: the tid of the heap tuple or of the index tuple, and the traversal state. */
  datatype SearchItem = SearchItem(heap: ItemPointer, level: int, value: int, traversalValue: Option<int>,
                                   itemState: ItemState, isnull: bool, distances: seq<Distance>)

  /** SPGISTSearchItemIsHeap. */
  predicate IsHeapItem(item: SearchItem) {
    item.itemState == HeapRecheck || item.itemState == HeapNoRecheck
  }

  /**
   * spgNewHeapItem: a heap item for a leaf that passed, at the leaf's level;
   * a null leaf carries the value 0; there is never a traversal value.
   */
  function NewHeapItem(level: int, heapPtr: ItemPointer, leafValue: int, recheck: bool, isnull: bool): (r: SearchItem)
    ensures IsHeapItem(r) && (r.itemState == HeapRecheck <==> recheck)
    ensures r.level == level && r.heap == heapPtr && r.isnull == isnull
    ensures r.value == (if isnull then 0 else leafValue) && r.traversalValue.None?
  {
    SearchItem(heapPtr, level, if isnull then 0 else leafValue, None,
               if recheck then HeapRecheck else HeapNoRecheck, isnull, [])
  }

  /**
   * SpGistSearchTreeItem: a tree node, its chain of items and, when the
   * chain starts with heap items, the position of the last of them.
   */
  datatype TreeNode = TreeNode(key: seq<Distance>, chain: seq<SearchItem>, lastHeap: Option<nat>)

  /** Unlink the head of a node's chain; lastHeap is cleared when it was the head. */
  function PopHead(n: TreeNode): (r: (SearchItem, TreeNode))
    requires n.chain != []
    ensures r.0 == n.chain[0] && r.1.chain == n.chain[1..] && r.1.key == n.key
    ensures r.1.lastHeap.None? <==> (n.lastHeap.None? || n.lastHeap == Some(0))
    ensures n.lastHeap.Some? && n.lastHeap.value > 0 ==> r.1.lastHeap == Some(n.lastHeap.value - 1)
  {
    var last := match n.lastHeap
      case None => None
      case Some(k) => if k == 0 then None else Some(k - 1);
    (n.chain[0], TreeNode(n.key, n.chain[1..], last))
  }

  /** Every item of the queue, in the order the scan takes them: the current node's chain first. */
  function Items(cur: Option<TreeNode>, tree: seq<TreeNode>): seq<SearchItem> {
    (if cur.Some? then cur.value.chain else []) + Chains(tree)
  }

  function Chains(tree: seq<TreeNode>): seq<SearchItem> {
    if tree == [] then [] else tree[0].chain + Chains(tree[1..])
  }

  /** The outcome of spgGetNextQueueItem: the item, the current node, the rest of the tree. */
  datatype PopResult = PopResult(item: Option<SearchItem>, cur: Option<TreeNode>, tree: seq<TreeNode>)

  /**
   * spgGetNextQueueItem, stated by recursion: take the leftmost node when
   * there is no current one, return the head of its chain, or drop the node
   * when its chain is empty and look again.
   */
  function NextItem(cur: Option<TreeNode>, tree: seq<TreeNode>): (r: PopResult)
    decreases |tree|, cur.Some?
  {
    match cur
    case None => if tree == [] then PopResult(None, None, []) else NextItem(Some(tree[0]), tree[1..])
    case Some(n) =>
      if n.chain != [] then
        var (item, n') := PopHead(n);
        PopResult(Some(item), Some(n'), tree)
      else NextItem(None, tree)
  }

  /**
   * The queue hands items out first in, first out along the chains: the
   * item returned is the first of all queued items and the rest stay in
   * order; nothing is returned only when the tree is empty.
   */
  lemma {:induction false} NextItemTakesFirst(cur: Option<TreeNode>, tree: seq<TreeNode>)
    ensures var r := NextItem(cur, tree);
            (r.item.None? <==> Items(cur, tree) == [])
            && (r.item.None? ==> r.cur.None? && r.tree == [])
            && (r.item.Some? ==> r.cur.Some? && r.item.value == Items(cur, tree)[0]
                                 && Items(r.cur, r.tree) == Items(cur, tree)[1..])
    decreases |tree|, cur.Some?
  {
    match cur
    case None =>
      if tree != [] {
        assert Items(None, tree) == Items(Some(tree[0]), tree[1..]);
        NextItemTakesFirst(Some(tree[0]), tree[1..]);
      }
    case Some(n) =>
      if n.chain == [] {
        assert Items(cur, tree) == Items(None, tree);
        NextItemTakesFirst(None, tree);
      }
  }

  /**
   * Popping only drops leading tree nodes, and only those whose chains were
   * empty; the node the item came from stays as the current node.
   */
  lemma {:induction false} NextItemDropsOnlyEmpty(cur: Option<TreeNode>, tree: seq<TreeNode>)
    ensures var r := NextItem(cur, tree);
            |r.tree| <= |tree| && r.tree == tree[|tree| - |r.tree|..]
            && (forall i :: 0 <= i < |tree| - |r.tree| - 1 ==> tree[i].chain == [])
    decreases |tree|, cur.Some?
  {
    match cur
    case None =>
      if tree != [] {
        NextItemDropsOnlyEmpty(Some(tree[0]), tree[1..]);
        var r := NextItem(Some(tree[0]), tree[1..]);
        assert tree[1..][|tree[1..]| - |r.tree|..] == tree[|tree| - |r.tree|..];
        forall i | 0 < i < |tree| - |r.tree| - 1 ensures tree[i].chain == [] {
          assert tree[i] == tree[1..][i - 1];
        }
      }
    case Some(n) =>
      if n.chain == [] {
        NextItemDropsOnlyEmpty(None, tree);
      }
  }

  /** A popped node keeps lastHeap pointing at the same item, or clears it once that item is handed out. */
  lemma LastHeapFollowsItem(n: TreeNode)
    requires n.chain != [] && n.lastHeap.Some? && n.lastHeap.value < |n.chain|
    ensures var (item, n') := PopHead(n);
            (n'.lastHeap.Some? ==> n'.lastHeap.value < |n'.chain| && n'.chain[n'.lastHeap.value] == n.chain[n.lastHeap.value])
            && (n'.lastHeap.None? <==> item == n.chain[n.lastHeap.value] && n.lastHeap.value == 0)
  {
  }

  /** The queue's tree: the current node, kept apart, and the other nodes, leftmost first. */
  type QueueTree = (Option<TreeNode>, seq<TreeNode>)

  /** The tree after a run of insertions, first to last. */
  function InsertAll(insert: (QueueTree, SearchItem) -> QueueTree, t: QueueTree, items: seq<SearchItem>): QueueTree {
    if items == [] then t else insert(InsertAll(insert, t, items[..|items| - 1]), items[|items| - 1])
  }

  /** One more insertion after a run of them. */
  lemma InsertAllSnoc(insert: (QueueTree, SearchItem) -> QueueTree, t: QueueTree, items: seq<SearchItem>, x: SearchItem)
    ensures InsertAll(insert, t, items + [x]) == insert(InsertAll(insert, t, items), x)
  {
    assert (items + [x])[..|items|] == items;
  }

  /**
   * The search queue: the current tree node (curTreeItem) kept apart from
   * the rest of the tree, leftmost node first, and the insertion of one
   * item, which is left to the tree (rb_insert / pairingheap_add).
   */
  class SearchQueue {
    var curTreeItem: Option<TreeNode>
    var tree: seq<TreeNode>
    const numberOfOrderBys: nat
    const insert: (QueueTree, SearchItem) -> QueueTree
    /** Every item given to the queue, with the distances it was given. */
    ghost var added: seq<SearchItem>

    function Tree(): QueueTree
      reads this
    {
      (curTreeItem, tree)
    }

    constructor (numberOfOrderBys: nat, insert: (QueueTree, SearchItem) -> QueueTree)
      ensures this.numberOfOrderBys == numberOfOrderBys && this.insert == insert
      ensures curTreeItem.None? && tree == [] && added == []
    {
      this.numberOfOrderBys := numberOfOrderBys;
      this.insert := insert;
      curTreeItem := None;
      tree := [];
      added := [];
    }

    /** spgAddSearchItemToQueue: the item takes the first numberOfOrderBys distances, then joins the tree. */
    method Add(item: SearchItem, distances: seq<Distance>)
      requires |distances| >= numberOfOrderBys
      modifies this
      ensures added == old(added) + [item.(distances := distances[..numberOfOrderBys])]
      ensures Tree() == insert(old(Tree()), item.(distances := distances[..numberOfOrderBys]))
    {
      var queued := item.(distances := distances[..numberOfOrderBys]);
      added := added + [queued];
      var (c, t) := insert(Tree(), queued);
      curTreeItem := c;
      tree := t;
    }

    /** spgGetNextQueueItem. */
    method Next() returns (item: Option<SearchItem>)
      modifies this
      ensures item == NextItem(old(curTreeItem), old(tree)).item
      ensures curTreeItem == NextItem(old(curTreeItem), old(tree)).cur && tree == NextItem(old(curTreeItem), old(tree)).tree
      ensures added == old(added)
    {
      item := None;
      while item == None
        invariant item.None? ==> NextItem(curTreeItem, tree) == NextItem(old(curTreeItem), old(tree))
        invariant item.Some? ==> PopResult(item, curTreeItem, tree) == NextItem(old(curTreeItem), old(tree))
        invariant added == old(added)
        decreases |tree|, curTreeItem.Some?, item.None?
      {
        if curTreeItem == None {
          if tree == [] {
            break;
          }
          curTreeItem := Some(tree[0]);
          tree := tree[1..];
        }
        var node := curTreeItem.value;
        if node.chain != [] {
          var (head, rest) := PopHead(node);
          item := Some(head);
          curTreeItem := Some(rest);
        } else {
          curTreeItem := None;
        }
      }
    }
  }
}
