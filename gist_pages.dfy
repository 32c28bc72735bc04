/**
 * The page-level vocabulary of the GiST buffering build: index tuples,
 * pages as sequences of items, downlinks, and the parent map's update rules.
 */
module GistPages {
  import opened Wrappers

  type BlockNumber = nat

  const GIST_ROOT_BLKNO: BlockNumber := 0
  const InvalidBlockNumber: BlockNumber := 0xFFFF_FFFF
  const InvalidOffsetNumber: nat := 0
  const FirstOffsetNumber: nat := 1

  /**
   * An index tuple: its key (opaque to the build), the block number its
   * item pointer carries (the child page of a downlink), and IndexTupleSize.
   */
  datatype IndexTuple = IndexTuple(key: int, tid: BlockNumber, size: nat)

  /** A page: leaf flag and its items; offset o (1-based) is items[o - 1]. */
  datatype Page = Page(leaf: bool, items: seq<IndexTuple>)

  type PageMap = map<BlockNumber, Page>

  /** One page produced by a split, with the downlink that must go to its parent. */
  datatype SplitPage = SplitPage(blk: BlockNumber, downlink: IndexTuple)

  /** The ERRORs the build can raise. */
  datatype BuildError =
    | CorruptTree                     // a page, offset or split result the tree cannot have
    | ParentNotFound(child: BlockNumber)  // "could not find parent of block %d in lookup table"
    | NoParentBuffer(child: BlockNumber)  // "no parent buffer provided of child %d"
    | RefindFailed(child: BlockNumber)    // "failed to re-find parent for block %u"
    | TunerDiverges                   // the levelStep search has no bound to stop at

  /** The child blocks the downlinks of items point at. */
  function Children(items: seq<IndexTuple>): set<BlockNumber> {
    set t | t in items :: t.tid
  }

  /** The first offset at or after `from` whose downlink points at child. */
  function FirstDownlinkFrom(items: seq<IndexTuple>, child: BlockNumber, from: nat): (r: Option<nat>)
    requires 1 <= from
    ensures r.Some? ==> from <= r.value <= |items| && items[r.value - 1].tid == child
    ensures r.Some? ==> forall k :: from - 1 <= k < r.value - 1 ==> items[k].tid != child
    ensures r.None? ==> forall k :: from - 1 <= k < |items| ==> items[k].tid != child
    decreases |items| + 1 - from
  {
    if from > |items| then None
    else if items[from - 1].tid == child then Some(from)
    else FirstDownlinkFrom(items, child, from + 1)
  }

  /** The first offset on the page whose downlink points at child, if any. */
  function FirstDownlinkTo(items: seq<IndexTuple>, child: BlockNumber): (r: Option<nat>)
    ensures r.Some? ==> 1 <= r.value <= |items| && items[r.value - 1].tid == child
    ensures r.Some? ==> forall k :: 0 <= k < r.value - 1 ==> items[k].tid != child
    ensures r.None? <==> child !in Children(items)
  {
    FirstDownlinkFrom(items, child, 1)
  }

  /**
   * The parent map after memorizing every downlink of items, in page order,
   * as a child of parent (gistMemorizeAllDownlinks).
   */
  function MemorizeAll(m: map<BlockNumber, BlockNumber>, items: seq<IndexTuple>, parent: BlockNumber): (r: map<BlockNumber, BlockNumber>)
    ensures forall c :: c in r <==> c in m || c in Children(items)
    ensures forall c :: c in r ==> r[c] == if c in Children(items) then parent else m[c]
  {
    if |items| == 0 then m
    else
      var front := items[..|items| - 1];
      assert items == front + [items[|items| - 1]];
      assert Children(items) == Children(front) + {items[|items| - 1].tid};
      MemorizeAll(m, front, parent)[items[|items| - 1].tid := parent]
  }

  /**
   * The parent map after a root split is recorded: for each child of the
   * new root, in page order, its own downlinks are memorized and then the
   * child itself is mapped to the root.
   */
  function AfterRootSplit(m: map<BlockNumber, BlockNumber>, children: seq<BlockNumber>, pages: PageMap): Option<map<BlockNumber, BlockNumber>>
  {
    if |children| == 0 then Some(m)
    else
      var c := children[|children| - 1];
      match AfterRootSplit(m, children[..|children| - 1], pages)
      case None => None
      case Some(m') =>
        if c !in pages then None
        else Some(MemorizeAll(m', pages[c].items, c)[c := GIST_ROOT_BLKNO])
  }

  /**
   * In a tree where none of the new root's children is also a grandchild of
   * the root, every child ends up mapped to the root after a root split.
   */
  lemma {:induction false} RootSplitMapsChildrenToRoot(m: map<BlockNumber, BlockNumber>, children: seq<BlockNumber>, pages: PageMap)
    requires AfterRootSplit(m, children, pages).Some?
    requires forall c, d :: c in children && d in children && d in pages ==> c !in Children(pages[d].items)
    ensures forall c :: c in children ==>
      c in AfterRootSplit(m, children, pages).value && AfterRootSplit(m, children, pages).value[c] == GIST_ROOT_BLKNO
  {
    if |children| > 0 {
      var front := children[..|children| - 1];
      var c := children[|children| - 1];
      assert children == front + [c];
      assert AfterRootSplit(m, front, pages).Some?;
      var m' := AfterRootSplit(m, front, pages).value;
      assert forall x :: x in front ==> x in children;
      RootSplitMapsChildrenToRoot(m, front, pages);
      var r := AfterRootSplit(m, children, pages).value;
      assert r == MemorizeAll(m', pages[c].items, c)[c := GIST_ROOT_BLKNO];
      forall d | d in children
        ensures d in r && r[d] == GIST_ROOT_BLKNO
      {
        if d != c {
          assert d in front;
          assert d !in Children(pages[c].items);
        }
      }
    }
  }

  /**
   * In a tree where the children of the new root have disjoint sets of
   * children, a root split maps every grandchild of the root that is not
   * itself a child of the root to the child page whose downlink it is.
   */
  lemma {:induction false} RootSplitMapsGrandchildren(m: map<BlockNumber, BlockNumber>, children: seq<BlockNumber>, pages: PageMap)
    requires AfterRootSplit(m, children, pages).Some?
    requires forall c, d :: c in children && d in children && c != d && c in pages && d in pages ==>
      Children(pages[c].items) !! Children(pages[d].items)
    ensures forall c, g :: c in children && c in pages && g in Children(pages[c].items) && g !in children ==>
      g in AfterRootSplit(m, children, pages).value && AfterRootSplit(m, children, pages).value[g] == c
  {
    if |children| > 0 {
      var front := children[..|children| - 1];
      var last := children[|children| - 1];
      assert children == front + [last];
      assert forall x :: x in front ==> x in children;
      RootSplitMapsGrandchildren(m, front, pages);
      var m' := AfterRootSplit(m, front, pages).value;
      var r := AfterRootSplit(m, children, pages).value;
      assert last in pages && r == MemorizeAll(m', pages[last].items, last)[last := GIST_ROOT_BLKNO];
      forall c, g | c in children && c in pages && g in Children(pages[c].items) && g !in children
        ensures g in r && r[g] == c
      {
        if c != last {
          assert c in front;
          assert g !in Children(pages[last].items);
        }
      }
    }
  }

  /** The child block of every item, in page order. */
  function Downlinks(items: seq<IndexTuple>): (r: seq<BlockNumber>)
    ensures |r| == |items| && forall k :: 0 <= k < |items| ==> r[k] == items[k].tid
  {
    if |items| == 0 then [] else Downlinks(items[..|items| - 1]) + [items[|items| - 1].tid]
  }

  /**
   * The parent map after the split pages blks of a page at `level` are
   * recorded, in order: each page is mapped to parent when level > 0, and
   * then, when level > 1, its own downlinks are memorized.
   */
  function AfterSplit(m: map<BlockNumber, BlockNumber>, blks: seq<BlockNumber>, level: nat,
                      parent: BlockNumber, pages: PageMap): Option<map<BlockNumber, BlockNumber>>
  {
    if |blks| == 0 then Some(m)
    else
      var c := blks[|blks| - 1];
      match AfterSplit(m, blks[..|blks| - 1], level, parent, pages)
      case None => None
      case Some(m') =>
        var m1 := if level > 0 then m'[c := parent] else m';
        if level <= 1 then Some(m1)
        else if c !in pages then None
        else Some(MemorizeAll(m1, pages[c].items, c))
  }

  /**
   * In a tree where no split page is a child of a split page and the split
   * pages have disjoint children, recording a split at level > 0 maps every
   * split page to the parent, and at level > 1 maps every child of a split
   * page to that page; every other entry is left alone.
   */
  lemma {:induction false} SplitRecordsParents(m: map<BlockNumber, BlockNumber>, blks: seq<BlockNumber>, level: nat,
                                               parent: BlockNumber, pages: PageMap)
    requires AfterSplit(m, blks, level, parent, pages).Some?
    requires level > 1 ==> forall c, d :: c in blks && d in blks && d in pages ==> c !in Children(pages[d].items)
    requires level > 1 ==> forall c, d :: c in blks && d in blks && c != d && c in pages && d in pages ==>
      Children(pages[c].items) !! Children(pages[d].items)
    ensures var r := AfterSplit(m, blks, level, parent, pages).value;
      && (level > 0 ==> forall c :: c in blks ==> c in r && r[c] == parent)
      && (level > 1 ==> forall c, x :: c in blks && c in pages && x in Children(pages[c].items) ==> x in r && r[x] == c)
      && (forall x :: x in m && x !in blks && (level <= 1 || forall c :: c in blks && c in pages ==> x !in Children(pages[c].items))
            ==> x in r && r[x] == m[x])
  {
    if |blks| > 0 {
      var front := blks[..|blks| - 1];
      var c := blks[|blks| - 1];
      assert blks == front + [c];
      assert forall x :: x in front ==> x in blks;
      SplitRecordsParents(m, front, level, parent, pages);
      var m' := AfterSplit(m, front, level, parent, pages).value;
      var m1 := if level > 0 then m'[c := parent] else m';
      var r := AfterSplit(m, blks, level, parent, pages).value;
      assert level > 1 ==> c in pages && r == MemorizeAll(m1, pages[c].items, c);
      assert level <= 1 ==> r == m1;
      assert c in blks;
      if level > 1 {
        forall d | d in blks
          ensures d in r && r[d] == parent
        {
          assert d !in Children(pages[c].items);
        }
        forall d, x | d in blks && d in pages && x in Children(pages[d].items)
          ensures x in r && r[x] == d
        {
          assert c !in Children(pages[d].items);
          if d != c {
            assert d in front;
            assert x !in Children(pages[c].items);
          }
        }
      }
    }
  }

  /** gistGetParent: the memorized parent, or the lookup error. */
  function ParentOf(m: map<BlockNumber, BlockNumber>, child: BlockNumber): (r: Result<BlockNumber, BuildError>)
    ensures r.Ok? <==> child in m
    ensures r.Ok? ==> r.value == m[child]
    ensures r.Err? ==> r.error == ParentNotFound(child)
  {
    if child in m then Ok(m[child]) else Err(ParentNotFound(child))
  }

  /** Memorizing is an overwrite: the last memorized parent is what the lookup returns. */
  lemma LastMemorizedWins(m: map<BlockNumber, BlockNumber>, child: BlockNumber, p1: BlockNumber, p2: BlockNumber, other: BlockNumber)
    requires other != child
    ensures ParentOf(m[child := p1][child := p2], child) == Ok(p2)
    ensures ParentOf(m[child := p1], other) == ParentOf(m, other)
  {
  }
}
