/**
 * The GiST index build (gistbuild.c, GISTBuildState): the per-tuple
 * callback with its mode switch, the switch to the buffering algorithm,
 * the parent map, and the buffering insertion: the descent of a tuple to a
 * leaf or a node buffer, the insertion of tuples into a page with its split
 * bookkeeping, the emptying queue and the final flush.
 *
 * Pages are a map from block number to page. The page-level routines of
 * GiST (gistchoose, gistgetadjusted, gistplacetopage, gistdoinsert) and
 * smgrnblocks are parameters of the build, gathered in Callbacks.
 */
module GistBuild {
  import opened Wrappers
  import opened GistPages
  import opened GistBuffers
  import GistMode
  import GistTuner

  /** What gistplacetopage reports: the new pages, whether it split, where the first tuple went, and the split pages. */
  datatype Placement = Placement(pages: PageMap, isSplit: bool, placedTo: BlockNumber, splitinfo: seq<SplitPage>)

  /** The routines of the build that are not part of this model. */
  datatype Callbacks = Callbacks(
    choose: (Page, IndexTuple) -> nat,                                   // gistchoose: an offset on the page
    adjust: (IndexTuple, IndexTuple) -> Option<IndexTuple>,              // gistgetadjusted: the widened key, if needed
    place: (PageMap, int, BlockNumber, seq<IndexTuple>, nat) -> Placement, // gistplacetopage(freespace, blk, tuples, oldoffnum)
    doinsert: (PageMap, int, IndexTuple) -> PageMap,                     // gistdoinsert, the plain insertion
    nblocks: PageMap -> int,                                             // smgrnblocks of the index
    halfFilled: (seq<IndexTuple>, int) -> bool,                          // BUFFER_HALF_FILLED
    overflowed: (seq<IndexTuple>, int) -> bool,                          // BUFFER_OVERFLOWED
    levelHasBuffers: (int, int, int) -> bool,                            // LEVEL_HAS_BUFFERS(level, levelStep, rootlevel)
    relocationTarget: (IndexTuple, seq<SplitPage>) -> nat)               // the split page a relocated tuple goes to

  /** The page that gistbuild starts from: an empty leaf root. */
  function EmptyIndex(): (r: PageMap)
    ensures r.Keys == {GIST_ROOT_BLKNO} && r[GIST_ROOT_BLKNO].leaf && r[GIST_ROOT_BLKNO].items == []
  {
    map[GIST_ROOT_BLKNO := Page(true, [])]
  }

  /** The inputs of the levelStep search, from the statistics gathered so far. */
  function TunerInputOf(freespace: int, indtuples: int, indtuplesSize: int, attlens: seq<int>,
                        effectiveCacheSize: int, maintenanceWorkMem: int): GistTuner.TunerInput
    requires indtuples > 0 && indtuplesSize > 0 && GistTuner.MinTupleSizeOf(attlens) > 0
  {
    GistTuner.TunerInput(
      GistTuner.AvgTuplesPerPage(freespace, indtuples, indtuplesSize),
      GistTuner.PageFreeSpace(freespace) / GistTuner.MinTupleSizeOf(attlens),
      effectiveCacheSize, maintenanceWorkMem)
  }

  /** The statistics admit a levelStep search that ends. */
  predicate Tunable(freespace: int, indtuples: int, indtuplesSize: int, attlens: seq<int>,
                    effectiveCacheSize: int, maintenanceWorkMem: int)
  {
    indtuples > 0 && indtuplesSize > 0 && GistTuner.MinTupleSizeOf(attlens) > 0
    && var p := TunerInputOf(freespace, indtuples, indtuplesSize, attlens, effectiveCacheSize, maintenanceWorkMem);
       GistTuner.WellFormed(p) && GistTuner.SearchEnds(p)
  }

  /** The levelStep gistInitBuffering would choose now, or 0 when the statistics admit no search that ends. */
  function TunedLevelStep(freespace: int, indtuples: int, indtuplesSize: int, attlens: seq<int>,
                          effectiveCacheSize: int, maintenanceWorkMem: int): int
  {
    if Tunable(freespace, indtuples, indtuplesSize, attlens, effectiveCacheSize, maintenanceWorkMem)
    then GistTuner.ChosenLevelStep(TunerInputOf(freespace, indtuples, indtuplesSize, attlens, effectiveCacheSize, maintenanceWorkMem))
    else 0
  }

  /**
   * The depth of the tree below blk, following first downlinks
   * (gistGetMaxLevel); None when a page is missing, an internal page is
   * empty, or the path is longer than fuel.
   */
  function DepthBelow(pages: PageMap, blk: BlockNumber, fuel: nat): (r: Option<nat>)
    ensures r.Some? ==> r.value <= fuel
    decreases fuel
  {
    if blk !in pages then None
    else if pages[blk].leaf then Some(0)
    else if |pages[blk].items| == 0 || fuel == 0 then None
    else
      match DepthBelow(pages, pages[blk].items[0].tid, fuel - 1)
      case None => None
      case Some(d) => Some(d + 1)
  }

  /** A leaf is at depth 0, and an internal page is one deeper than its first child. */
  lemma DepthSteps(pages: PageMap, blk: BlockNumber, fuel: nat)
    requires DepthBelow(pages, blk, fuel).Some?
    ensures blk in pages
    ensures pages[blk].leaf <==> DepthBelow(pages, blk, fuel).value == 0
    ensures !pages[blk].leaf ==>
      (|pages[blk].items| > 0 && fuel > 0
       && DepthBelow(pages, pages[blk].items[0].tid, fuel - 1) == Some(DepthBelow(pages, blk, fuel).value - 1))
  {
  }

  /** The blocks of the split pages, in order. */
  function SplitBlocks(si: seq<SplitPage>): (r: seq<BlockNumber>)
    ensures |r| == |si| && forall k :: 0 <= k < |si| ==> r[k] == si[k].blk
  {
    if |si| == 0 then [] else SplitBlocks(si[..|si| - 1]) + [si[|si| - 1].blk]
  }

  /** The downlinks of the split pages, in order: what goes to the parent. */
  function SplitDownlinks(si: seq<SplitPage>): (r: seq<IndexTuple>)
    ensures |r| == |si| && forall k :: 0 <= k < |si| ==> r[k] == si[k].downlink
  {
    if |si| == 0 then [] else SplitDownlinks(si[..|si| - 1]) + [si[|si| - 1].downlink]
  }

  /**
   * A placement that needs no follow-up: neither a root split nor split
   * pages whose downlinks must go to a parent.
   */
  predicate Settles(q: Placement, blk: BlockNumber) {
    !(q.isSplit && blk == GIST_ROOT_BLKNO) && q.splitinfo == []
  }

  /**
   * Where the descent of gistProcessItup ends: the page and level reached,
   * the page and offset of the downlink followed to it, the page that
   * downlink was read from, and the pages and parent map at that point.
   */
  datatype Descent =
    | Reached(blk: BlockNumber, level: nat, parent: BlockNumber, off: nat, from: BlockNumber,
              pages: PageMap, parents: map<BlockNumber, BlockNumber>)
    | SplitOnTheWay   // a widened downlink split its page; the rest is not described here
    | Failed          // a missing page or an offset outside the page

  /**
   * The descent of a tuple from page blk at `level` while no widened
   * downlink splits its page: stop at the leaf level or at a buffered level
   * other than the start; otherwise memorize the chosen child's parent when
   * level > 1, widen the downlink when the key does not cover the tuple, and
   * go one level down.
   */
  function Walk(cb: Callbacks, freespace: int, levelHasBuffers: (int, int, int) -> bool, levelStep: int, rootlevel: nat,
                itup: IndexTuple, pages: PageMap, parents: map<BlockNumber, BlockNumber>,
                blk: BlockNumber, level: nat, startlevel: nat, parent: BlockNumber, off: nat, from: BlockNumber): Descent
    decreases level
  {
    if level == 0 || (levelHasBuffers(level, levelStep, rootlevel) && level != startlevel) then
      Reached(blk, level, parent, off, from, pages, parents)
    else if blk !in pages then Failed
    else
      var page := pages[blk];
      var c := cb.choose(page, itup);
      if c < FirstOffsetNumber || c > |page.items| then Failed
      else
        var child := page.items[c - 1].tid;
        var parents' := if level > 1 then parents[child := blk] else parents;
        match cb.adjust(page.items[c - 1], itup)
        case None =>
          Walk(cb, freespace, levelHasBuffers, levelStep, rootlevel, itup, pages, parents', child, level - 1, startlevel, blk, c, blk)
        case Some(nt) =>
          if level > rootlevel then Failed   // a page above the root level: not in a consistent tree
          else
            var q := cb.place(pages, freespace, blk, [nt], c);
            if !Settles(q, blk) then SplitOnTheWay
            else Walk(cb, freespace, levelHasBuffers, levelStep, rootlevel, itup, q.pages, parents', child, level - 1, startlevel, q.placedTo, c, blk)
  }

  /**
   * Where Walk stops: at or below the level it starts from, at the leaf
   * level or a buffered level other than the start. Once it has gone down,
   * the parent hint carries a real offset, and a page reached at level 1 or
   * above is memorized with the page its downlink was read from as parent.
   */
  lemma {:induction false} WalkStops(cb: Callbacks, freespace: int, levelHasBuffers: (int, int, int) -> bool, levelStep: int, rootlevel: nat,
                                     itup: IndexTuple, pages: PageMap, parents: map<BlockNumber, BlockNumber>,
                                     blk: BlockNumber, level: nat, startlevel: nat, parent: BlockNumber, off: nat, from: BlockNumber)
    ensures var r := Walk(cb, freespace, levelHasBuffers, levelStep, rootlevel, itup, pages, parents, blk, level, startlevel, parent, off, from);
      && (r.Reached? ==> r.level <= level && (r.level == 0 || (levelHasBuffers(r.level, levelStep, rootlevel) && r.level != startlevel)))
      && (r.Reached? && r.level == level ==> r == Reached(blk, level, parent, off, from, pages, parents))
      && (r.Reached? && r.level < level ==> r.off >= FirstOffsetNumber)
      && (r.Reached? && 1 <= r.level < level ==> r.blk in r.parents && r.parents[r.blk] == r.from)
    decreases level
  {
    if !(level == 0 || (levelHasBuffers(level, levelStep, rootlevel) && level != startlevel)) && blk in pages {
      var page := pages[blk];
      var c := cb.choose(page, itup);
      if FirstOffsetNumber <= c <= |page.items| {
        var child := page.items[c - 1].tid;
        var parents' := if level > 1 then parents[child := blk] else parents;
        match cb.adjust(page.items[c - 1], itup)
        case None =>
          WalkStops(cb, freespace, levelHasBuffers, levelStep, rootlevel, itup, pages, parents', child, level - 1, startlevel, blk, c, blk);
        case Some(nt) =>
          var q := cb.place(pages, freespace, blk, [nt], c);
          WalkStops(cb, freespace, levelHasBuffers, levelStep, rootlevel, itup, q.pages, parents', child, level - 1, startlevel, q.placedTo, c, blk);
      }
    }
  }

  /** One step of Walk below a page that is not a stopping point. */
  lemma WalkStep(cb: Callbacks, freespace: int, levelHasBuffers: (int, int, int) -> bool, levelStep: int, rootlevel: nat,
                 itup: IndexTuple, pages: PageMap, parents: map<BlockNumber, BlockNumber>,
                 blk: BlockNumber, level: nat, startlevel: nat, parent: BlockNumber, off: nat, from: BlockNumber)
    requires level != 0 && !(levelHasBuffers(level, levelStep, rootlevel) && level != startlevel)
    requires blk in pages && FirstOffsetNumber <= cb.choose(pages[blk], itup) <= |pages[blk].items|
    ensures var c := cb.choose(pages[blk], itup);
      var child := pages[blk].items[c - 1].tid;
      var parents' := if level > 1 then parents[child := blk] else parents;
      var w := Walk(cb, freespace, levelHasBuffers, levelStep, rootlevel, itup, pages, parents, blk, level, startlevel, parent, off, from);
      && (cb.adjust(pages[blk].items[c - 1], itup).None? ==>
            w == Walk(cb, freespace, levelHasBuffers, levelStep, rootlevel, itup, pages, parents', child, level - 1, startlevel, blk, c, blk))
      && (cb.adjust(pages[blk].items[c - 1], itup).Some? && level > rootlevel ==> w == Failed)
      && (cb.adjust(pages[blk].items[c - 1], itup).Some? && level <= rootlevel ==>
            var q := cb.place(pages, freespace, blk, [cb.adjust(pages[blk].items[c - 1], itup).value], c);
            && (!Settles(q, blk) ==> w == SplitOnTheWay)
            && (Settles(q, blk) ==>
                  w == Walk(cb, freespace, levelHasBuffers, levelStep, rootlevel, itup, q.pages, parents', child, level - 1, startlevel, q.placedTo, c, blk)))
  {
  }

  class BuildState {
    const cb: Callbacks
    /** BLCKSZ * (100 - fillfactor) / 100, the space gistplacetopage leaves free. */
    const freespace: int
    const effectiveCacheSize: int
    const maintenanceWorkMem: int
    /** The attlen of every index attribute (negative for varlena). */
    const attlens: seq<int>

    var mode: GistMode.Mode
    var indtuples: int
    var indtuplesSize: int
    var pages: PageMap
    var parentMap: map<BlockNumber, BlockNumber>
    var gfbb: BuildBuffers?

    /** The buffers exist and are consistent. */
    ghost predicate Ready()
      reads this, gfbb
    {
      gfbb != null && gfbb.Valid()
    }

    /**
     * Outside the final flush: every tuple counted has a positive size, and
     * in ACTIVE mode the buffers exist with a positive levelStep and every
     * buffer is listed.
     */
    ghost predicate Valid()
      reads this, gfbb
    {
      && 0 <= indtuples <= indtuplesSize
      && (mode == GistMode.Active ==> Ready() && gfbb.AllListed() && gfbb.levelStep >= 1)
    }

    /**
     * gistbuild before the heap scan: the mode and fill factor from the
     * reloptions, an empty leaf root, no statistics yet.
     */
    constructor (opts: Option<GistMode.Options>, cb: Callbacks, effectiveCacheSize: int, maintenanceWorkMem: int,
                 attlens: seq<int>)
      requires opts.Some? ==> 10 <= opts.value.fillfactor <= 100
      ensures Valid() && gfbb == null
      ensures mode == GistMode.InitialMode(opts) && mode != GistMode.Active
      ensures freespace == GistMode.FreeSpace(GistMode.FillFactor(opts))
      ensures indtuples == 0 && indtuplesSize == 0 && pages == EmptyIndex() && parentMap == map[]
      ensures this.cb == cb && this.effectiveCacheSize == effectiveCacheSize
      ensures this.maintenanceWorkMem == maintenanceWorkMem && this.attlens == attlens
    {
      this.cb := cb;
      this.effectiveCacheSize := effectiveCacheSize;
      this.maintenanceWorkMem := maintenanceWorkMem;
      this.attlens := attlens;
      mode := GistMode.InitialMode(opts);
      freespace := GistMode.FreeSpace(GistMode.FillFactor(opts));
      indtuples := 0;
      indtuplesSize := 0;
      pages := EmptyIndex();
      parentMap := map[];
      gfbb := null;
      GistMode.StartIsNeverActive(opts);
    }

    /** gistMemorizeParent: an overwrite. */
    method MemorizeParent(child: BlockNumber, parent: BlockNumber)
      modifies this
      ensures parentMap == old(parentMap)[child := parent]
      ensures GistPages.ParentOf(parentMap, child) == Ok(parent)
      ensures forall other :: other != child ==> GistPages.ParentOf(parentMap, other) == GistPages.ParentOf(old(parentMap), other)
      ensures pages == old(pages) && gfbb == old(gfbb) && mode == old(mode)
      ensures indtuples == old(indtuples) && indtuplesSize == old(indtuplesSize)
    {
      parentMap := parentMap[child := parent];
    }

    /** gistMemorizeAllDownlinks: every child of page blk gets blk as its parent. */
    method MemorizeAllDownlinks(blk: BlockNumber) returns (r: Result<(), BuildError>)
      modifies this
      ensures r.Ok? <==> blk in pages
      ensures r.Ok? ==> parentMap == MemorizeAll(old(parentMap), pages[blk].items, blk)
      ensures r.Err? ==> r.error == CorruptTree && parentMap == old(parentMap)
      ensures pages == old(pages) && gfbb == old(gfbb) && mode == old(mode)
      ensures indtuples == old(indtuples) && indtuplesSize == old(indtuplesSize)
    {
      if blk !in pages {
        return Err(CorruptTree);
      }
      var items := pages[blk].items;
      var m := parentMap;
      var off := 0;
      while off < |items|
        invariant 0 <= off <= |items|
        invariant m == MemorizeAll(old(parentMap), items[..off], blk)
        modifies {}
      {
        assert items[..off + 1][..off] == items[..off];
        m := m[items[off].tid := blk];
        off := off + 1;
      }
      assert items[..off] == items;
      parentMap := m;
      r := Ok(());
    }

    /** gistGetParent: the memorized parent of child, or the lookup error. */
    method GetParent(child: BlockNumber) returns (r: Result<BlockNumber, BuildError>)
      ensures r.Ok? <==> child in parentMap
      ensures r.Ok? ==> r.value == parentMap[child]
      ensures r.Err? ==> r.error == ParentNotFound(child)
    {
      if child in parentMap {
        r := Ok(parentMap[child]);
      } else {
        r := Err(ParentNotFound(child));
      }
    }

    /**
     * gistBufferingFindCorrectParent: the parent page of child and the
     * offset of its downlink there. The parent comes from the parent map, or
     * for a leaf from the caller; the hinted offset is taken when it still
     * points at the child, otherwise the page is scanned from the start.
     */
    method FindCorrectParent(child: BlockNumber, level: nat, parentblk: BlockNumber, downlinkoff: nat)
      returns (r: Result<(BlockNumber, nat), BuildError>)
      ensures level == 0 && parentblk == InvalidBlockNumber ==> r == Err(NoParentBuffer(child))
      ensures level > 0 && child !in parentMap ==> r == Err(ParentNotFound(child))
      ensures r.Ok? ==> r.value.0 == (if level > 0 then parentMap[child] else parentblk) && r.value.0 in pages
      ensures r.Ok? ==> 1 <= r.value.1 <= |pages[r.value.0].items| && pages[r.value.0].items[r.value.1 - 1].tid == child
      ensures r.Ok? && r.value.1 != downlinkoff ==>
        r.value.1 == FirstDownlinkTo(pages[r.value.0].items, child).value
      ensures (level > 0 ==> child in parentMap) && (level == 0 ==> parentblk != InvalidBlockNumber) ==>
        var parent := if level > 0 then parentMap[child] else parentblk;
        && (parent !in pages ==> r == Err(CorruptTree))
        && (parent in pages ==>
              var items := pages[parent].items;
              if parent == parentblk && parentblk != InvalidBlockNumber && downlinkoff != InvalidOffsetNumber
                 && downlinkoff <= |items|
                 && items[downlinkoff - 1].tid == child
              then r == Ok((parent, downlinkoff))
              else if child in Children(items) then r == Ok((parent, FirstDownlinkTo(items, child).value))
              else r == Err(RefindFailed(child)))
    {
      var parent: BlockNumber;
      if level > 0 {
        var p := GetParent(child);
        if p.Err? {
          return Err(p.error);
        }
        parent := p.value;
      } else {
        if parentblk == InvalidBlockNumber {
          return Err(NoParentBuffer(child));
        }
        parent := parentblk;
      }
      if parent !in pages {
        return Err(CorruptTree);
      }
      var items := pages[parent].items;
      if parent == parentblk && parentblk != InvalidBlockNumber && downlinkoff != InvalidOffsetNumber
         && downlinkoff <= |items| && items[downlinkoff - 1].tid == child {
        return Ok((parent, downlinkoff));
      }
      var off := FirstOffsetNumber;
      while off <= |items|
        invariant 1 <= off <= |items| + 1
        invariant FirstDownlinkFrom(items, child, off) == FirstDownlinkTo(items, child)
      {
        if items[off - 1].tid == child {
          return Ok((parent, off));
        }
        off := off + 1;
      }
      r := Err(RefindFailed(child));
    }

    /** gistGetMaxLevel: the number of downlinks from the root to the leaves along first children. */
    method GetMaxLevel() returns (r: Result<nat, BuildError>)
      ensures r.Ok? <==> DepthBelow(pages, GIST_ROOT_BLKNO, |pages|).Some?
      ensures r.Ok? ==> r.value == DepthBelow(pages, GIST_ROOT_BLKNO, |pages|).value
      ensures r.Err? ==> r.error == CorruptTree
    {
      var maxLevel: nat := 0;
      var blk := GIST_ROOT_BLKNO;
      var fuel: nat := |pages|;
      while true
        invariant fuel + maxLevel == |pages|
        invariant DepthBelow(pages, GIST_ROOT_BLKNO, |pages|) ==
          match DepthBelow(pages, blk, fuel) case None => None case Some(d) => Some(d + maxLevel)
        decreases fuel
      {
        if blk !in pages {
          return Err(CorruptTree);
        }
        if pages[blk].leaf {
          return Ok(maxLevel);
        }
        if |pages[blk].items| == 0 || fuel == 0 {
          return Err(CorruptTree);
        }
        blk := pages[blk].items[0].tid;
        maxLevel := maxLevel + 1;
        fuel := fuel - 1;
      }
    }
  
    /**
     * The root-split branch of gistbufferinginserttuples: the tree grows one
     * level, and when the root is then above level 1 every child of the new
     * root has its own downlinks memorized and is mapped to the root.
     */
    method RootSplit(level: nat) returns (r: Result<(), BuildError>)
      requires Ready()
      modifies this, gfbb
      ensures Ready() && gfbb == old(gfbb) && pages == old(pages)
      ensures mode == old(mode) && indtuples == old(indtuples) && indtuplesSize == old(indtuplesSize)
      ensures gfbb.buffers == old(gfbb.buffers) && gfbb.queue == old(gfbb.queue)
      ensures gfbb.buffersOnLevels == old(gfbb.buffersOnLevels) && gfbb.pagesPerBuffer == old(gfbb.pagesPerBuffer)
      ensures level != old(gfbb.rootlevel) ==> r == Err(CorruptTree) && gfbb.rootlevel == old(gfbb.rootlevel)
      ensures level == old(gfbb.rootlevel) ==> gfbb.rootlevel == old(gfbb.rootlevel) + 1
      ensures r.Ok? && gfbb.rootlevel <= 1 ==> parentMap == old(parentMap)
      ensures r.Ok? && gfbb.rootlevel > 1 ==>
        (GIST_ROOT_BLKNO in pages
         && AfterRootSplit(old(parentMap), Downlinks(pages[GIST_ROOT_BLKNO].items), pages) == Some(parentMap))
    {
      if level != gfbb.rootlevel {
        return Err(CorruptTree);
      }
      gfbb.IncrementRootLevel();
      if gfbb.rootlevel > 1 {
        if GIST_ROOT_BLKNO !in pages {
          return Err(CorruptTree);
        }
        var m := MemorizeRootChildren(Downlinks(pages[GIST_ROOT_BLKNO].items));
        if m.Err? {
          return m;
        }
      }
      r := Ok(());
    }

    /**
     * The parent-map loop of gistbufferinginserttuples after a root split:
     * every new child of the root has its downlinks memorized and the root
     * as its parent.
     */
    method MemorizeRootChildren(children: seq<BlockNumber>) returns (r: Result<(), BuildError>)
      modifies this
      ensures pages == old(pages) && gfbb == old(gfbb) && mode == old(mode)
      ensures indtuples == old(indtuples) && indtuplesSize == old(indtuplesSize)
      ensures r.Ok? ==> AfterRootSplit(old(parentMap), children, pages) == Some(parentMap)
      ensures r.Err? ==> r.error == CorruptTree
    {
      var off := 0;
      while off < |children|
        invariant 0 <= off <= |children|
        invariant AfterRootSplit(old(parentMap), children[..off], pages) == Some(parentMap)
        invariant pages == old(pages) && gfbb == old(gfbb) && mode == old(mode)
        invariant indtuples == old(indtuples) && indtuplesSize == old(indtuplesSize)
      {
        assert children[..off + 1][..off] == children[..off];
        var m := MemorizeAllDownlinks(children[off]);
        if m.Err? {
          return Err(m.error);
        }
        MemorizeParent(children[off], GIST_ROOT_BLKNO);
        off := off + 1;
      }
      assert children[..off] == children;
      r := Ok(());
    }

    /**
     * The parent-map loop of gistbufferinginserttuples after a split: each
     * split page gets the parent when level > 0, and its downlinks are
     * memorized when level > 1.
     */
    method MemorizeSplit(si: seq<SplitPage>, level: nat, parent: BlockNumber) returns (r: Result<(), BuildError>)
      modifies this
      ensures pages == old(pages) && gfbb == old(gfbb) && mode == old(mode)
      ensures indtuples == old(indtuples) && indtuplesSize == old(indtuplesSize)
      ensures r.Ok? ==> AfterSplit(old(parentMap), SplitBlocks(si), level, parent, pages) == Some(parentMap)
      ensures r.Err? ==> r.error == CorruptTree
    {
      var blks := SplitBlocks(si);
      var k := 0;
      while k < |si|
        invariant 0 <= k <= |si|
        invariant AfterSplit(old(parentMap), blks[..k], level, parent, pages) == Some(parentMap)
        invariant pages == old(pages) && gfbb == old(gfbb) && mode == old(mode)
        invariant indtuples == old(indtuples) && indtuplesSize == old(indtuplesSize)
      {
        assert blks[..k + 1][..k] == blks[..k];
        if level > 0 {
          MemorizeParent(si[k].blk, parent);
        }
        if level > 1 {
          var m := MemorizeAllDownlinks(si[k].blk);
          if m.Err? {
            return Err(m.error);
          }
        }
        k := k + 1;
      }
      assert blks[..k] == blks;
      r := Ok(());
    }
      /**
     * gistbufferinginserttuples: place tuples on page blk at `level`. A root
     * split grows the tree; any other split hands the downlinks of the split
     * pages to the parent. The result is the page the first tuple went to.
     */
    method InsertTuples(blk: BlockNumber, level: nat, itups: seq<IndexTuple>, oldoff: nat,
                        parentblk: BlockNumber, downlinkoff: nat, ghost stage: int)
      returns (r: Result<BlockNumber, BuildError>)
      requires Ready() && level <= gfbb.rootlevel
      modifies this, gfbb
      decreases gfbb.rootlevel - level, 1
      ensures Ready() && gfbb == old(gfbb)
      ensures mode == old(mode) && indtuples == old(indtuples) && indtuplesSize == old(indtuplesSize)
      ensures gfbb.pagesPerBuffer == old(gfbb.pagesPerBuffer)
      ensures gfbb.rootlevel == old(gfbb.rootlevel) || gfbb.rootlevel == old(gfbb.rootlevel) + 1
      ensures r.Ok? ==> r.value == cb.place(old(pages), freespace, blk, itups, oldoff).placedTo
      ensures r.Ok? && blk == GIST_ROOT_BLKNO && cb.place(old(pages), freespace, blk, itups, oldoff).isSplit ==>
        gfbb.rootlevel == old(gfbb.rootlevel) + 1
      ensures Settles(cb.place(old(pages), freespace, blk, itups, oldoff), blk) ==>
        && r == Ok(cb.place(old(pages), freespace, blk, itups, oldoff).placedTo)
        && pages == cb.place(old(pages), freespace, blk, itups, oldoff).pages
        && parentMap == old(parentMap) && gfbb.rootlevel == old(gfbb.rootlevel)
        && gfbb.buffers == old(gfbb.buffers) && gfbb.queue == old(gfbb.queue) && gfbb.buffersOnLevels == old(gfbb.buffersOnLevels)
      ensures r.Ok? && blk == GIST_ROOT_BLKNO && cb.place(old(pages), freespace, blk, itups, oldoff).isSplit ==>
        && pages == cb.place(old(pages), freespace, blk, itups, oldoff).pages
        && (gfbb.rootlevel <= 1 ==> parentMap == old(parentMap))
        && (gfbb.rootlevel > 1 ==>
              GIST_ROOT_BLKNO in pages && AfterRootSplit(old(parentMap), Downlinks(pages[GIST_ROOT_BLKNO].items), pages) == Some(parentMap))
      ensures r.Ok? ==> Weight(gfbb.buffers) == Weight(old(gfbb.buffers))
      ensures |gfbb.buffersOnLevels| >= old(|gfbb.buffersOnLevels|) && |gfbb.buffers| >= old(|gfbb.buffers|)
      ensures old(gfbb.AllListed()) ==> gfbb.AllListed()
      ensures old(gfbb.Staged(stage)) ==> gfbb.Staged(stage)
    {
      var p := cb.place(pages, freespace, blk, itups, oldoff);
      pages := p.pages;
      if p.isSplit && blk == GIST_ROOT_BLKNO {
        var rs := RootSplit(level);
        if rs.Err? {
          return Err(rs.error);
        }
      }
      if p.splitinfo != [] {
        if blk == GIST_ROOT_BLKNO || level >= gfbb.rootlevel {
          return Err(CorruptTree);
        }
        var f, _ := FinishSplit(blk, level, p.splitinfo, parentblk, downlinkoff, stage);
        if f.Err? {
          return Err(f.error);
        }
      }
      r := Ok(p.placedTo);
    }

    /**
     * The split branch of gistbufferinginserttuples: find the parent, move
     * the page's node buffer to the split pages, record the new parents and
     * insert the downlinks one level up.
     */
    method FinishSplit(blk: BlockNumber, level: nat, splitinfo: seq<SplitPage>,
                       parentblk: BlockNumber, downlinkoff: nat, ghost stage: int)
      returns (r: Result<(BlockNumber, nat), BuildError>, downlinks: seq<IndexTuple>)
      requires Ready() && level < gfbb.rootlevel
      modifies this, gfbb
      decreases gfbb.rootlevel - level, 0
      ensures Ready() && gfbb == old(gfbb)
      ensures mode == old(mode) && indtuples == old(indtuples) && indtuplesSize == old(indtuplesSize)
      ensures gfbb.pagesPerBuffer == old(gfbb.pagesPerBuffer)
      ensures gfbb.rootlevel == old(gfbb.rootlevel) || gfbb.rootlevel == old(gfbb.rootlevel) + 1
      ensures r.Ok? ==> Weight(gfbb.buffers) == Weight(old(gfbb.buffers))
      ensures |gfbb.buffersOnLevels| >= old(|gfbb.buffersOnLevels|) && |gfbb.buffers| >= old(|gfbb.buffers|)
      ensures old(gfbb.AllListed()) ==> gfbb.AllListed()
      ensures old(gfbb.Staged(stage)) ==> gfbb.Staged(stage)
      // the parent is the memorized one (the caller's, for a leaf) and holds the downlink to blk
      ensures r.Ok? ==>
        && (level > 0 ==> blk in old(parentMap))
        && r.value.0 == (if level > 0 then old(parentMap)[blk] else parentblk)
        && r.value.0 in old(pages) && 1 <= r.value.1 <= |old(pages)[r.value.0].items|
        && old(pages)[r.value.0].items[r.value.1 - 1].tid == blk
      // one downlink per split page, pointing at it
      ensures r.Ok? ==>
        && |downlinks| == |splitinfo|
        && forall k :: 0 <= k < |splitinfo| ==> downlinks[k].tid == splitinfo[k].downlink.tid
      // when the parent takes the downlinks without splitting, they replace the old downlink
      // there, and the split pages and their children are memorized
      ensures r.Ok? && Settles(cb.place(old(pages), freespace, r.value.0, downlinks, r.value.1), r.value.0) ==>
        && pages == cb.place(old(pages), freespace, r.value.0, downlinks, r.value.1).pages
        && AfterSplit(old(parentMap), SplitBlocks(splitinfo), level, r.value.0, old(pages)) == Some(parentMap)
    {
      var located := LocateSplitParent(blk, level, splitinfo, parentblk, downlinkoff, stage);
      if located.Err? {
        return Err(located.error), [];
      }
      var (parent, off, dls) := located.value;
      downlinks := dls;
      var up := InsertTuples(parent, level + 1, downlinks, off, InvalidBlockNumber, InvalidOffsetNumber, stage);
      if up.Err? {
        return Err(up.error), downlinks;
      }
      r := Ok((parent, off));
    }

    /**
     * The first half of the split branch of gistbufferinginserttuples: find
     * the parent and the downlink's offset there, move the page's node
     * buffer to the split pages (widening their downlinks) and record the
     * new parents. The result is the parent, the offset and the downlinks
     * to insert there.
     */
    method LocateSplitParent(blk: BlockNumber, level: nat, splitinfo: seq<SplitPage>,
                             parentblk: BlockNumber, downlinkoff: nat, ghost stage: int)
      returns (r: Result<(BlockNumber, nat, seq<IndexTuple>), BuildError>)
      requires Ready()
      modifies this, gfbb
      ensures Ready() && gfbb == old(gfbb) && pages == old(pages)
      ensures mode == old(mode) && indtuples == old(indtuples) && indtuplesSize == old(indtuplesSize)
      ensures gfbb.pagesPerBuffer == old(gfbb.pagesPerBuffer) && gfbb.rootlevel == old(gfbb.rootlevel)
      ensures r.Ok? ==> Weight(gfbb.buffers) == Weight(old(gfbb.buffers))
      ensures |gfbb.buffersOnLevels| >= old(|gfbb.buffersOnLevels|) && |gfbb.buffers| >= old(|gfbb.buffers|)
      ensures old(gfbb.AllListed()) ==> gfbb.AllListed()
      ensures old(gfbb.Staged(stage)) ==> gfbb.Staged(stage)
      ensures r.Ok? ==>
        && (level > 0 ==> blk in old(parentMap))
        && r.value.0 == (if level > 0 then old(parentMap)[blk] else parentblk)
        && r.value.0 in pages && 1 <= r.value.1 <= |pages[r.value.0].items|
        && pages[r.value.0].items[r.value.1 - 1].tid == blk
      ensures r.Ok? ==>
        && |r.value.2| == |splitinfo|
        && forall k :: 0 <= k < |splitinfo| ==> r.value.2[k].tid == splitinfo[k].downlink.tid
      ensures r.Ok? ==> AfterSplit(old(parentMap), SplitBlocks(splitinfo), level, r.value.0, pages) == Some(parentMap)
    {
      var f := FindCorrectParent(blk, level, parentblk, downlinkoff);
      if f.Err? {
        return Err(f.error);
      }
      var (parent, off) := f.value;
      var si := gfbb.RelocateOnSplit(level, blk, splitinfo, stage);
      if si.Err? {
        return Err(si.error);
      }
      assert SplitBlocks(si.value) == SplitBlocks(splitinfo);
      var m := MemorizeSplit(si.value, level, parent);
      if m.Err? {
        return Err(m.error);
      }
      r := Ok((parent, off, SplitDownlinks(si.value)));
    }
    /**
     * The descent of gistProcessItup: from page startblk at startlevel,
     * follow the chosen downlink level by level until a leaf or a buffered
     * level below startlevel, memorizing each internal parent and widening
     * every downlink the tuple does not fit. The result is the page reached,
     * its level, and the page and offset of the downlink followed to it.
     */
    method Descend(itup: IndexTuple, startblk: BlockNumber, startlevel: nat, ghost stage: int)
      returns (r: Result<(BlockNumber, nat, BlockNumber, nat), BuildError>)
      requires Ready()
      modifies this, gfbb
      ensures Ready() && gfbb == old(gfbb)
      ensures mode == old(mode) && indtuples == old(indtuples) && indtuplesSize == old(indtuplesSize)
      ensures gfbb.pagesPerBuffer == old(gfbb.pagesPerBuffer) && gfbb.rootlevel >= old(gfbb.rootlevel)
      ensures r.Ok? ==> Weight(gfbb.buffers) == Weight(old(gfbb.buffers))
      ensures r.Ok? ==> (r.value.1 <= startlevel
                         && (r.value.1 == 0 || (gfbb.LevelHasBuffers(r.value.1) && r.value.1 != startlevel)))
      ensures |gfbb.buffersOnLevels| >= old(|gfbb.buffersOnLevels|) && |gfbb.buffers| >= old(|gfbb.buffers|)
      ensures old(gfbb.AllListed()) ==> gfbb.AllListed()
      ensures old(gfbb.Staged(stage)) ==> gfbb.Staged(stage)
      // while no widened downlink splits its page, the descent is the one Walk describes
      ensures var w := Walk(cb, freespace, gfbb.levelHasBuffers, gfbb.levelStep, old(gfbb.rootlevel), itup,
                            old(pages), old(parentMap), startblk, startlevel, startlevel,
                            InvalidBlockNumber, InvalidOffsetNumber, InvalidBlockNumber);
        && (w.Reached? ==>
              && r == Ok((w.blk, w.level, w.parent, w.off))
              && pages == w.pages && parentMap == w.parents && gfbb.rootlevel == old(gfbb.rootlevel)
              && gfbb.buffers == old(gfbb.buffers) && gfbb.queue == old(gfbb.queue))
        && (w.Failed? ==> r == Err(CorruptTree))
    {
      var blkno: BlockNumber := startblk;
      var level: nat := startlevel;
      var parentblk: BlockNumber := InvalidBlockNumber;
      var downlinkoff: nat := InvalidOffsetNumber;
      ghost var from: BlockNumber := InvalidBlockNumber;
      ghost var w0 := Weight(gfbb.buffers);
      ghost var b0, q0 := gfbb.buffers, gfbb.queue;
      ghost var walk := Walk(cb, freespace, gfbb.levelHasBuffers, gfbb.levelStep, gfbb.rootlevel, itup,
                             pages, parentMap, startblk, startlevel, startlevel,
                             InvalidBlockNumber, InvalidOffsetNumber, InvalidBlockNumber);
      while !(gfbb.LevelHasBuffers(level) && level != startlevel) && level != 0
        invariant Ready() && gfbb == old(gfbb) && level <= startlevel
        invariant mode == old(mode) && indtuples == old(indtuples) && indtuplesSize == old(indtuplesSize)
        invariant gfbb.pagesPerBuffer == old(gfbb.pagesPerBuffer) && gfbb.rootlevel >= old(gfbb.rootlevel)
        invariant Weight(gfbb.buffers) == w0
        invariant |gfbb.buffersOnLevels| >= old(|gfbb.buffersOnLevels|) && |gfbb.buffers| >= old(|gfbb.buffers|)
        invariant old(gfbb.AllListed()) ==> gfbb.AllListed()
        invariant old(gfbb.Staged(stage)) ==> gfbb.Staged(stage)
        invariant !walk.SplitOnTheWay? ==>
          && gfbb.rootlevel == old(gfbb.rootlevel) && gfbb.buffers == b0 && gfbb.queue == q0
          && walk == Walk(cb, freespace, gfbb.levelHasBuffers, gfbb.levelStep, gfbb.rootlevel, itup,
                          pages, parentMap, blkno, level, startlevel, parentblk, downlinkoff, from)
        decreases level
      {
        if blkno in pages && FirstOffsetNumber <= cb.choose(pages[blkno], itup) <= |pages[blkno].items| {
          WalkStep(cb, freespace, gfbb.levelHasBuffers, gfbb.levelStep, gfbb.rootlevel, itup, pages, parentMap, blkno, level,
                   startlevel, parentblk, downlinkoff, from);
        }
        var s := StepDown(itup, blkno, level, stage);
        if s.Err? {
          return Err(s.error);
        }
        from := blkno;
        parentblk, blkno, downlinkoff := s.value.0, s.value.1, s.value.2;
        level := level - 1;
      }
      r := Ok((blkno, level, parentblk, downlinkoff));
    }

    /**
     * One level of the descent of gistProcessItup: choose the child of page
     * blkno, memorize its parent when level > 1, and widen its downlink when
     * the key does not cover the tuple. The result is the page now holding
     * that downlink, the child, and the downlink's offset before widening.
     */
    method StepDown(itup: IndexTuple, blkno: BlockNumber, level: nat, ghost stage: int)
      returns (r: Result<(BlockNumber, BlockNumber, nat), BuildError>)
      requires Ready() && level >= 1
      modifies this, gfbb
      ensures Ready() && gfbb == old(gfbb)
      ensures mode == old(mode) && indtuples == old(indtuples) && indtuplesSize == old(indtuplesSize)
      ensures gfbb.pagesPerBuffer == old(gfbb.pagesPerBuffer) && gfbb.rootlevel >= old(gfbb.rootlevel)
      ensures r.Ok? ==> Weight(gfbb.buffers) == Weight(old(gfbb.buffers))
      ensures |gfbb.buffersOnLevels| >= old(|gfbb.buffersOnLevels|) && |gfbb.buffers| >= old(|gfbb.buffers|)
      ensures old(gfbb.AllListed()) ==> gfbb.AllListed()
      ensures old(gfbb.Staged(stage)) ==> gfbb.Staged(stage)
      ensures blkno !in old(pages) ==> r == Err(CorruptTree)
      ensures blkno in old(pages) ==>
        var page := old(pages)[blkno];
        var c := cb.choose(page, itup);
        && (c < FirstOffsetNumber || c > |page.items| ==> r == Err(CorruptTree))
        && (FirstOffsetNumber <= c <= |page.items| ==>
              var child := page.items[c - 1].tid;
              var parents' := if level > 1 then old(parentMap)[child := blkno] else old(parentMap);
              var newtup := cb.adjust(page.items[c - 1], itup);
              && (newtup.None? ==>
                    r == Ok((blkno, child, c)) && pages == old(pages) && parentMap == parents'
                    && gfbb.rootlevel == old(gfbb.rootlevel) && gfbb.buffers == old(gfbb.buffers) && gfbb.queue == old(gfbb.queue))
              && (newtup.Some? && level > old(gfbb.rootlevel) ==> r == Err(CorruptTree))
              && (newtup.Some? && level <= old(gfbb.rootlevel) ==>
                    var q := cb.place(old(pages), freespace, blkno, [newtup.value], c);
                    Settles(q, blkno) ==>
                      r == Ok((q.placedTo, child, c)) && pages == q.pages && parentMap == parents'
                      && gfbb.rootlevel == old(gfbb.rootlevel) && gfbb.buffers == old(gfbb.buffers) && gfbb.queue == old(gfbb.queue)))
    {
      if blkno !in pages {
        return Err(CorruptTree);
      }
      var page := pages[blkno];
      var childoff := cb.choose(page, itup);
      if childoff < FirstOffsetNumber || childoff > |page.items| {
        return Err(CorruptTree);
      }
      var idxtuple := page.items[childoff - 1];
      var childblk := idxtuple.tid;
      if level > 1 {
        MemorizeParent(childblk, blkno);
      }
      var placedTo := blkno;
      var newtup := cb.adjust(idxtuple, itup);
      if newtup.Some? {
        // not in gistProcessItup: a page above the root level cannot occur in a consistent tree
        if level > gfbb.rootlevel {
          return Err(CorruptTree);
        }
        var placed := InsertTuples(blkno, level, [newtup.value], childoff, InvalidBlockNumber, InvalidOffsetNumber, stage);
        if placed.Err? {
          return Err(placed.error);
        }
        placedTo := placed.value;
      }
      r := Ok((placedTo, childblk, childoff));
    }

    /**
     * gistProcessItup: run a tuple down from page startblk at startlevel to
     * a leaf, where it is placed, or to a buffered level below startlevel,
     * where it joins that page's node buffer. The result says whether the
     * node buffer it joined overflowed.
     */
    method ProcessItup(itup: IndexTuple, startblk: BlockNumber, startlevel: nat, ghost stage: int)
      returns (r: Result<bool, BuildError>)
      requires Ready()
      modifies this, gfbb
      ensures Ready() && gfbb == old(gfbb)
      ensures mode == old(mode) && indtuples == old(indtuples) && indtuplesSize == old(indtuplesSize)
      ensures gfbb.pagesPerBuffer == old(gfbb.pagesPerBuffer) && gfbb.rootlevel >= old(gfbb.rootlevel)
      ensures r.Ok? ==> (Weight(gfbb.buffers) == Weight(old(gfbb.buffers))
                         || Weight(gfbb.buffers) < Weight(old(gfbb.buffers)) + startlevel)
      ensures r == Ok(true) ==> (exists i :: 0 <= i < |gfbb.buffers| && gfbb.Overflowed(i) && gfbb.buffers[i].level < startlevel
                                   && gfbb.buffers[i].tuples != [] && gfbb.buffers[i].tuples[|gfbb.buffers[i].tuples| - 1] == itup)
      ensures |gfbb.buffersOnLevels| >= old(|gfbb.buffersOnLevels|) && |gfbb.buffers| >= old(|gfbb.buffers|)
      ensures old(gfbb.AllListed()) ==> gfbb.AllListed()
      ensures old(gfbb.Staged(stage)) && startlevel <= stage ==> gfbb.Staged(stage)
      // while no widened downlink splits its page: a tuple that stops at a buffered level is the
      // newest tuple of that page's node buffer, and one that reaches a leaf is placed on it
      ensures var w := Walk(cb, freespace, gfbb.levelHasBuffers, gfbb.levelStep, old(gfbb.rootlevel), itup,
                            old(pages), old(parentMap), startblk, startlevel, startlevel,
                            InvalidBlockNumber, InvalidOffsetNumber, InvalidBlockNumber);
        && (w.Failed? ==> r == Err(CorruptTree))
        && (w.Reached? && w.level > 0 ==>
              && pages == w.pages && parentMap == w.parents && r.Ok?
              && exists i :: 0 <= i < |gfbb.buffers| && gfbb.buffers[i].blk == w.blk && gfbb.buffers[i].level == w.level
                   && gfbb.buffers[i].tuples != [] && gfbb.buffers[i].tuples[|gfbb.buffers[i].tuples| - 1] == itup
                   && r.value == gfbb.Overflowed(i))
        && (w.Reached? && w.level == 0 && Settles(cb.place(w.pages, freespace, w.blk, [itup], InvalidOffsetNumber), w.blk) ==>
              && r == Ok(false) && pages == cb.place(w.pages, freespace, w.blk, [itup], InvalidOffsetNumber).pages
              && parentMap == w.parents && gfbb.buffers == old(gfbb.buffers) && gfbb.queue == old(gfbb.queue))
    {
      var d := Descend(itup, startblk, startlevel, stage);
      if d.Err? {
        return Err(d.error);
      }
      var (blkno, level, parentblk, downlinkoff) := d.value;
      if gfbb.LevelHasBuffers(level) {
        var idx, overflow := gfbb.PushToPage(blkno, level, itup, stage);
        r := Ok(overflow);
      } else {
        var placed := InsertTuples(blkno, 0, [itup], InvalidOffsetNumber, parentblk, downlinkoff, stage);
        if placed.Err? {
          return Err(placed.error);
        }
        r := Ok(false);
      }
    }
    /**
     * The inner loop of gistProcessEmptyingQueue: pop tuples from buffer e
     * and run each down from its page until the buffer is empty or a lower
     * buffer overflows. The result says whether any tuple was popped; when
     * none was, the buffer was empty and nothing changed.
     */
    method EmptyBuffer(e: nat, ghost stage: int) returns (r: Result<bool, BuildError>)
      requires Ready() && e < |gfbb.buffers|
      modifies this, gfbb
      ensures Ready() && gfbb == old(gfbb)
      ensures mode == old(mode) && indtuples == old(indtuples) && indtuplesSize == old(indtuplesSize)
      ensures gfbb.pagesPerBuffer == old(gfbb.pagesPerBuffer) && gfbb.rootlevel >= old(gfbb.rootlevel)
      ensures r == Ok(true) ==> Weight(gfbb.buffers) < Weight(old(gfbb.buffers))
      ensures r == Ok(false) ==> (old(gfbb.buffers[e].tuples) == [] && gfbb.buffers == old(gfbb.buffers)
                                  && gfbb.queue == old(gfbb.queue) && gfbb.buffersOnLevels == old(gfbb.buffersOnLevels))
      ensures |gfbb.buffersOnLevels| >= old(|gfbb.buffersOnLevels|) && |gfbb.buffers| >= old(|gfbb.buffers|)
      ensures old(gfbb.AllListed()) ==> gfbb.AllListed()
      ensures old(gfbb.Staged(stage)) ==> gfbb.Staged(stage)
    {
      ghost var w0 := Weight(gfbb.buffers);
      var popped := false;
      while true
        invariant Ready() && gfbb == old(gfbb) && e < |gfbb.buffers|
        invariant mode == old(mode) && indtuples == old(indtuples) && indtuplesSize == old(indtuplesSize)
        invariant gfbb.pagesPerBuffer == old(gfbb.pagesPerBuffer) && gfbb.rootlevel >= old(gfbb.rootlevel)
        invariant popped ==> Weight(gfbb.buffers) < w0
        invariant !popped ==> (gfbb.buffers == old(gfbb.buffers) && gfbb.queue == old(gfbb.queue)
                               && gfbb.buffersOnLevels == old(gfbb.buffersOnLevels))
        invariant |gfbb.buffersOnLevels| >= old(|gfbb.buffersOnLevels|) && |gfbb.buffers| >= old(|gfbb.buffers|)
        invariant old(gfbb.AllListed()) ==> gfbb.AllListed()
        invariant old(gfbb.Staged(stage)) ==> gfbb.Staged(stage)
        decreases Weight(gfbb.buffers)
      {
        ghost var before := Weight(gfbb.buffers);
        assert gfbb.Staged(stage) && gfbb.buffers[e].tuples != [] ==> gfbb.buffers[e].level <= stage;
        var t := gfbb.Pop(e, stage);
        if t.None? {
          return Ok(popped);
        }
        var b := gfbb.buffers[e];
        var overflow := ProcessItup(t.value, b.blk, b.level, stage);
        if overflow.Err? {
          return Err(overflow.error);
        }
        popped := true;
        if overflow.value {
          return Ok(true);
        }
      }
    }

    /**
     * One round of the gistProcessEmptyingQueue loop: take the buffer at the
     * head of the queue and empty it. Ok(false) means the buffer was already
     * empty and nothing but the queue changed.
     */
    method EmptyQueueHead(ghost stage: int) returns (r: Result<bool, BuildError>)
      requires Ready() && gfbb.queue != []
      modifies this, gfbb
      ensures Ready() && gfbb == old(gfbb)
      ensures mode == old(mode) && indtuples == old(indtuples) && indtuplesSize == old(indtuplesSize)
      ensures gfbb.pagesPerBuffer == old(gfbb.pagesPerBuffer) && gfbb.rootlevel >= old(gfbb.rootlevel)
      ensures r == Ok(true) ==> Weight(gfbb.buffers) < Weight(old(gfbb.buffers))
      ensures r == Ok(false) ==> (old(gfbb.buffers[gfbb.queue[0]].tuples) == [] && gfbb.queue == old(gfbb.queue[1..])
                                  && TuplesOf(gfbb.buffers) == TuplesOf(old(gfbb.buffers))
                                  && Weight(gfbb.buffers) == Weight(old(gfbb.buffers)))
      ensures |gfbb.buffersOnLevels| >= old(|gfbb.buffersOnLevels|) && |gfbb.buffers| >= old(|gfbb.buffers|)
      ensures old(gfbb.AllListed()) ==> gfbb.AllListed()
      ensures old(gfbb.Staged(stage)) ==> gfbb.Staged(stage)
    {
      var e := gfbb.Dequeue(stage);
      r := EmptyBuffer(e, stage);
    }

    /**
     * gistProcessEmptyingQueue: empty the queued buffers one after another,
     * front first, until the queue runs dry; emptying one buffer may queue
     * others. Unless it lowered the weight of the buffers, every buffer that
     * was queued on entry was empty.
     */
    method ProcessEmptyingQueue(ghost stage: int) returns (r: Result<(), BuildError>)
      requires Ready()
      modifies this, gfbb
      ensures Ready() && gfbb == old(gfbb)
      ensures mode == old(mode) && indtuples == old(indtuples) && indtuplesSize == old(indtuplesSize)
      ensures gfbb.pagesPerBuffer == old(gfbb.pagesPerBuffer) && gfbb.rootlevel >= old(gfbb.rootlevel)
      ensures r.Ok? ==> gfbb.queue == []
      ensures old(gfbb.queue) == [] ==>
        r == Ok(()) && pages == old(pages) && parentMap == old(parentMap) && gfbb.buffers == old(gfbb.buffers)
      ensures r.Ok? ==> (Weight(gfbb.buffers) < Weight(old(gfbb.buffers))
                         || (Weight(gfbb.buffers) == Weight(old(gfbb.buffers))
                             && EmptyAt(old(gfbb.buffers), old(gfbb.queue))))
      ensures |gfbb.buffersOnLevels| >= old(|gfbb.buffersOnLevels|) && |gfbb.buffers| >= old(|gfbb.buffers|)
      ensures old(gfbb.AllListed()) ==> gfbb.AllListed()
      ensures old(gfbb.Staged(stage)) ==> gfbb.Staged(stage)
    {
      ghost var b0 := gfbb.buffers;
      ghost var q0 := gfbb.queue;
      ghost var w0 := Weight(b0);
      ghost var n := 0;
      ghost var anyPop := false;
      ghost var p0, m0 := pages, parentMap;
      ghost var iters := 0;
      ghost var listed0, staged0 := gfbb.AllListed(), gfbb.Staged(stage);
      ghost var levels0, size0 := |gfbb.buffersOnLevels|, |gfbb.buffers|;
      while gfbb.queue != []
        invariant Ready() && gfbb == old(gfbb)
        invariant mode == old(mode) && indtuples == old(indtuples) && indtuplesSize == old(indtuplesSize)
        invariant gfbb.pagesPerBuffer == old(gfbb.pagesPerBuffer) && gfbb.rootlevel >= old(gfbb.rootlevel)
        invariant anyPop ==> Weight(gfbb.buffers) < w0
        invariant iters == 0 ==> pages == p0 && parentMap == m0 && gfbb.buffers == b0 && gfbb.queue == q0
        invariant q0 == [] ==> iters == 0
        invariant !anyPop ==> (n <= |q0| && gfbb.queue == q0[n..] && TuplesOf(gfbb.buffers) == TuplesOf(b0)
                               && Weight(gfbb.buffers) == w0
                               && EmptyAt(b0, q0[..n]))
        invariant |gfbb.buffersOnLevels| >= levels0 && |gfbb.buffers| >= size0
        invariant listed0 ==> gfbb.AllListed()
        invariant staged0 ==> gfbb.Staged(stage)
        decreases Weight(gfbb.buffers), |gfbb.queue|
      {
        iters := iters + 1;
        ghost var e := gfbb.queue[0];
        var emptied := EmptyQueueHead(stage);
        if emptied.Err? {
          return Err(emptied.error);
        }
        if emptied.value {
          anyPop := true;
        } else if !anyPop {
          assert e == q0[n];
          assert TuplesOf(gfbb.buffers)[e] == TuplesOf(b0)[e];
          EmptyAtSnoc(b0, q0, n);
          n := n + 1;
        }
      }
      assert !anyPop ==> n == |q0| && q0[..n] == q0;
      r := Ok(());
    }
    /**
     * gistEmptyAllBuffers: the final flush. Level by level from the top,
     * queue and empty the first buffer on the level's list while it holds
     * tuples, and drop it from the list once it is empty; new buffers may
     * join a list meanwhile because of page splits. Afterwards every node
     * buffer is empty.
     */
    method EmptyAllBuffers() returns (r: Result<(), BuildError>)
      requires Ready() && gfbb.AllListed()
      modifies this, gfbb
      ensures Ready() && gfbb == old(gfbb)
      ensures mode == old(mode) && indtuples == old(indtuples) && indtuplesSize == old(indtuplesSize)
      ensures r.Ok? ==> gfbb.AllEmpty()
    {
      gfbb.StagedAtTop();
      var i: int := |gfbb.buffersOnLevels| - 1;
      while i >= 0
        invariant Ready() && gfbb == old(gfbb) && -1 <= i < |gfbb.buffersOnLevels|
        invariant mode == old(mode) && indtuples == old(indtuples) && indtuplesSize == old(indtuplesSize)
        invariant gfbb.Staged(i)
        decreases i
      {
        while gfbb.buffersOnLevels[i] != []
          invariant Ready() && gfbb == old(gfbb) && 0 <= i < |gfbb.buffersOnLevels|
          invariant mode == old(mode) && indtuples == old(indtuples) && indtuplesSize == old(indtuplesSize)
          invariant gfbb.Staged(i)
          decreases Weight(gfbb.buffers), |gfbb.buffersOnLevels[i]|
        {
          var first := gfbb.buffersOnLevels[i][0];
          if gfbb.buffers[first].tuples != [] {
            if !gfbb.buffers[first].queued {
              gfbb.Enqueue(first, i);
            }
            assert first in gfbb.queue;
            ghost var k :| 0 <= k < |gfbb.queue| && gfbb.queue[k] == first;
            var emptied := ProcessEmptyingQueue(i);
            if emptied.Err? {
              return Err(emptied.error);
            }
          } else {
            gfbb.RemoveFirstOnLevel(i);
          }
        }
        gfbb.StagedStepDown(i);
        i := i - 1;
      }
      gfbb.StagedBelowZero();
      r := Ok(());
    }
    /** gistBufferingBuildInsert: run the tuple down from the root, then empty whatever buffers it queued. */
    method BufferingBuildInsert(itup: IndexTuple) returns (r: Result<(), BuildError>)
      requires Ready() && gfbb.AllListed()
      modifies this, gfbb
      ensures Ready() && gfbb == old(gfbb) && gfbb.AllListed()
      ensures mode == old(mode) && indtuples == old(indtuples) && indtuplesSize == old(indtuplesSize)
      ensures gfbb.pagesPerBuffer == old(gfbb.pagesPerBuffer) && gfbb.rootlevel >= old(gfbb.rootlevel)
      ensures r.Ok? ==> gfbb.queue == []
      // the descent from the root as ProcessItup states it; a tuple that reaches a leaf taking it
      // without a split queues nothing, so the emptying then changes nothing
      ensures var w := Walk(cb, freespace, gfbb.levelHasBuffers, gfbb.levelStep, old(gfbb.rootlevel), itup,
                            old(pages), old(parentMap), GIST_ROOT_BLKNO, old(gfbb.rootlevel), old(gfbb.rootlevel),
                            InvalidBlockNumber, InvalidOffsetNumber, InvalidBlockNumber);
        && (w.Failed? ==> r == Err(CorruptTree))
        && (w.Reached? && w.level == 0 && old(gfbb.queue) == []
            && Settles(cb.place(w.pages, freespace, w.blk, [itup], InvalidOffsetNumber), w.blk) ==>
              && r == Ok(()) && pages == cb.place(w.pages, freespace, w.blk, [itup], InvalidOffsetNumber).pages
              && parentMap == w.parents && gfbb.buffers == old(gfbb.buffers) && gfbb.queue == [])
    {
      var placed := ProcessItup(itup, GIST_ROOT_BLKNO, gfbb.rootlevel, 0);
      if placed.Err? {
        return Err(placed.error);
      }
      r := ProcessEmptyingQueue(0);
    }

    /**
     * gistInitBuffering: choose levelStep from the statistics gathered so
     * far; with none that works fall back to plain inserts for good,
     * otherwise create the buffers with the tuned pagesPerBuffer, the
     * current tree height as root level and an empty parent map, and go
     * ACTIVE.
     */
    method InitBuffering() returns (r: Result<(), BuildError>)
      requires 0 < indtuples <= indtuplesSize
      modifies this
      ensures gfbb == old(gfbb) || fresh(gfbb)
      ensures pages == old(pages) && indtuples == old(indtuples) && indtuplesSize == old(indtuplesSize)
      ensures !Tunable(freespace, indtuples, indtuplesSize, attlens, effectiveCacheSize, maintenanceWorkMem) ==>
        r == Err(TunerDiverges) && mode == old(mode) && gfbb == old(gfbb) && parentMap == old(parentMap)
      ensures Tunable(freespace, indtuples, indtuplesSize, attlens, effectiveCacheSize, maintenanceWorkMem) ==>
        var p := TunerInputOf(freespace, indtuples, indtuplesSize, attlens, effectiveCacheSize, maintenanceWorkMem);
        var ls := GistTuner.ChosenLevelStep(p);
        && (ls <= 0 ==> r == Ok(()) && mode == GistMode.Disabled && gfbb == old(gfbb) && parentMap == old(parentMap))
        && (ls > 0 && r.Ok? ==>
              && mode == GistMode.Active && fresh(gfbb) && Ready() && gfbb.AllListed()
              && gfbb.buffers == [] && gfbb.queue == [] && gfbb.levelStep == ls
              && gfbb.pagesPerBuffer == GistTuner.PagesPerBuffer(p.avgTuplesPerPage, ls)
              && Some(gfbb.rootlevel) == DepthBelow(pages, GIST_ROOT_BLKNO, |pages|)
              && parentMap == map[])
        && (ls > 0 && r.Err? ==>
              r.error == CorruptTree && DepthBelow(pages, GIST_ROOT_BLKNO, |pages|).None? && mode == old(mode))
    {
      if !Tunable(freespace, indtuples, indtuplesSize, attlens, effectiveCacheSize, maintenanceWorkMem) {
        return Err(TunerDiverges);
      }
      var p := TunerInputOf(freespace, indtuples, indtuplesSize, attlens, effectiveCacheSize, maintenanceWorkMem);
      var levelStep := GistTuner.ChooseLevelStep(p);
      if levelStep <= 0 {
        mode := GistMode.Disabled;
        return Ok(());
      }
      var pagesPerBuffer := GistTuner.PagesPerBuffer(p.avgTuplesPerPage, levelStep);
      var maxLevel := GetMaxLevel();
      if maxLevel.Err? {
        return Err(maxLevel.error);
      }
      gfbb := new BuildBuffers(pagesPerBuffer, levelStep, maxLevel.value, cb.halfFilled, cb.overflowed,
                               cb.levelHasBuffers, cb.relocationTarget, cb.adjust);
      parentMap := map[];
      mode := GistMode.Active;
      r := Ok(());
    }
    /**
     * gistBuildCallback: index one heap tuple, through the buffers when
     * ACTIVE and by a plain insert otherwise; count it; in ACTIVE mode
     * re-tune pagesPerBuffer every 4096 tuples; and in AUTO or STATS mode
     * try to switch to buffering when the mode's trigger fires.
     */
    method Callback(itup: IndexTuple) returns (r: Result<(), BuildError>)
      requires Valid() && itup.size > 0
      modifies this, gfbb
      ensures Valid() && (gfbb == old(gfbb) || fresh(gfbb))
      ensures r.Ok? ==> indtuples == old(indtuples) + 1 && indtuplesSize == old(indtuplesSize) + itup.size
      ensures r.Ok? ==> mode == GistMode.NextMode(old(mode), indtuples, effectiveCacheSize, cb.nblocks(pages),
                                                  TunedLevelStep(freespace, indtuples, indtuplesSize, attlens,
                                                                 effectiveCacheSize, maintenanceWorkMem))
      ensures r.Ok? && old(mode) != GistMode.Active ==> pages == cb.doinsert(old(pages), freespace, itup)
      ensures r.Ok? && old(mode) == GistMode.Active ==>
        && gfbb == old(gfbb) && gfbb.queue == []
        && (GistMode.RecomputesPagesPerBuffer(mode, indtuples) ==>
              gfbb.pagesPerBuffer
              == GistTuner.PagesPerBuffer(GistTuner.AvgTuplesPerPage(freespace, indtuples, indtuplesSize), gfbb.levelStep))
        && (!GistMode.RecomputesPagesPerBuffer(mode, indtuples) ==> gfbb.pagesPerBuffer == old(gfbb.pagesPerBuffer))
    {
      if mode == GistMode.Active {
        var inserted := BufferingBuildInsert(itup);
        if inserted.Err? {
          return Err(inserted.error);
        }
      } else {
        pages := cb.doinsert(pages, freespace, itup);
      }
      indtuples := indtuples + 1;
      indtuplesSize := indtuplesSize + itup.size;
      if GistMode.RecomputesPagesPerBuffer(mode, indtuples) {
        gfbb.SetPagesPerBuffer(GistTuner.PagesPerBuffer(GistTuner.AvgTuplesPerPage(freespace, indtuples, indtuplesSize), gfbb.levelStep));
      }
      if GistMode.TriesSwitch(mode, indtuples, effectiveCacheSize, cb.nblocks(pages)) {
        var init := InitBuffering();
        if init.Err? {
          return Err(init.error);
        }
      }
      r := Ok(());
    }

    /**
     * The unsorted path of gistbuild: run the callback over every heap
     * tuple, then, if buffering got switched on, flush every node buffer.
     * The mode only moves forward, from AUTO or STATS to DISABLED or ACTIVE.
     */
    method Build(heap: seq<IndexTuple>) returns (r: Result<(), BuildError>)
      requires Valid()
      requires forall k :: 0 <= k < |heap| ==> heap[k].size > 0
      modifies this, gfbb
      ensures r.Ok? ==> indtuples == old(indtuples) + |heap|
      ensures r.Ok? ==> (mode == old(mode)
                         || ((old(mode) == GistMode.Auto || old(mode) == GistMode.Stats)
                             && (mode == GistMode.Disabled || mode == GistMode.Active)))
      ensures r.Ok? && mode == GistMode.Active ==> Ready() && gfbb.AllEmpty()
    {
      ghost var mode0 := mode;
      var k := 0;
      while k < |heap|
        invariant 0 <= k <= |heap| && Valid()
        invariant indtuples == old(indtuples) + k
        invariant mode == mode0 || ((mode0 == GistMode.Auto || mode0 == GistMode.Stats)
                                    && (mode == GistMode.Disabled || mode == GistMode.Active))
        invariant gfbb == old(gfbb) || fresh(gfbb)
      {
        ghost var before := mode;
        var done := Callback(heap[k]);
        if done.Err? {
          return Err(done.error);
        }
        GistMode.ModeOrder(before, indtuples, effectiveCacheSize, cb.nblocks(pages),
                           TunedLevelStep(freespace, indtuples, indtuplesSize, attlens, effectiveCacheSize, maintenanceWorkMem));
        k := k + 1;
      }
      if mode == GistMode.Active {
        r := EmptyAllBuffers();
      } else {
        r := Ok(());
      }
    }
  }
}
