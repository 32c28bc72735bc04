/**
 * The cursor of an SP-GiST index scan (spgscan.c): seeding the queue with
 * the start items, turning an inner tuple into child work items, testing a
 * leaf, buffering the reported tuples for spggettuple and counting them
 * for spggetbitmap.
 *
 * The walk over index pages (spgWalk) is represented by what it reports:
 * a list of batches, one batch per call that stops at a page boundary.
 * The opclass consistent functions are represented by their outputs,
 * passed in as parameters.
 */
module SpgScan {
  import opened Wrappers
  import opened SpgKeys
  import opened SpgQueue

  const SPGIST_ROOT_BLKNO: nat := 1
  const SPGIST_NULL_BLKNO: nat := 2
  /** MaxIndexTuplesPerPage for 8 kB pages: (8192 - 24) / (MAXALIGN(8 + 1) + 4). */
  const MaxIndexTuplesPerPage: nat := 408

  datatype ScanDirection = Backward | NoMovement | Forward

  datatype ScanError = BackwardScan | InconsistentAllTheSame

  /** spgAddStartItem's item: level 0, INNER, at the first offset of the nulls root or the regular root. */
  function StartItem(isnull: bool, distances: seq<Distance>): (r: SearchItem)
    ensures r.itemState == Inner && r.level == 0 && r.isnull == isnull
    ensures r.heap.blkno == (if isnull then SPGIST_NULL_BLKNO else SPGIST_ROOT_BLKNO) && ItemPointerIsValid(r.heap)
  {
    SearchItem(ItemPointer(if isnull then SPGIST_NULL_BLKNO else SPGIST_ROOT_BLKNO, FirstOffsetNumber),
               0, 0, None, Inner, isnull, distances)
  }

  /** The items resetSpGistScanOpaque gives the queue: the nulls root first, then the regular root. */
  function StartItems(searchNulls: bool, searchNonNulls: bool, norderbys: nat): seq<SearchItem> {
    (if searchNulls then [StartItem(true, Zeros(norderbys))] else [])
    + (if searchNonNulls then [StartItem(false, Zeros(norderbys))] else [])
  }

  /**
   * One start item per enabled search, each an inner item at level 0 with
   * zero distances, and a nulls item exactly when nulls are searched.
   */
  lemma StartItemsPerSearch(searchNulls: bool, searchNonNulls: bool, norderbys: nat)
    ensures var s := StartItems(searchNulls, searchNonNulls, norderbys);
            |s| == (if searchNulls then 1 else 0) + (if searchNonNulls then 1 else 0)
            && (forall i :: 0 <= i < |s| ==>
                  (s[i].itemState == Inner && s[i].level == 0 && s[i].distances == Zeros(norderbys)
                   && (s[i].isnull <==> s[i].heap.blkno == SPGIST_NULL_BLKNO)))
            && ((exists i :: 0 <= i < |s| && s[i].isnull) <==> searchNulls)
            && ((exists i :: 0 <= i < |s| && !s[i].isnull) <==> searchNonNulls)
  {
    var s := StartItems(searchNulls, searchNonNulls, norderbys);
    if searchNulls {
      assert s[0].isnull;
    }
    if searchNonNulls {
      assert !s[|s| - 1].isnull;
    }
  }

  /** An inner tuple: whether all its nodes are alike, and the downlink of each node. */
  datatype InnerTuple = InnerTuple(allTheSame: bool, nodes: seq<ItemPointer>)

  /**
   * spgInnerConsistentOut: the nodes chosen and, when the opclass gives
   * them, the per-choice level increments, values, traversal values and
   * distances.
   */
  datatype InnerOut = InnerOut(nodeNumbers: seq<int>, levelAdds: Option<seq<int>>,
                               reconstructedValues: Option<seq<int>>, traversalValues: Option<seq<int>>,
                               distances: Option<seq<seq<Distance>>>)

  /** What the opclass must return: valid node numbers and one entry per choice in each array it fills. */
  predicate WellFormedInnerOut(out: InnerOut, nNodes: nat, norderbys: nat) {
    (forall i :: 0 <= i < |out.nodeNumbers| ==> 0 <= out.nodeNumbers[i] < nNodes)
    && (out.levelAdds.Some? ==> |out.levelAdds.value| >= |out.nodeNumbers|)
    && (out.reconstructedValues.Some? ==> |out.reconstructedValues.value| >= |out.nodeNumbers|)
    && (out.traversalValues.Some? ==> |out.traversalValues.value| >= |out.nodeNumbers|)
    && (out.distances.Some? ==>
          (|out.distances.value| >= |out.nodeNumbers|
           && forall i :: 0 <= i < |out.nodeNumbers| ==> |out.distances.value[i]| >= norderbys))
  }

  function AllNodes(nNodes: nat): (r: seq<int>)
    ensures |r| == nNodes && forall i :: 0 <= i < nNodes ==> r[i] == i
  {
    seq(nNodes, i => i)
  }

  /** On a nulls page the consistent function is not called and every node is chosen. */
  function EffectiveOut(tuple: InnerTuple, isnull: bool, out: InnerOut): (r: InnerOut)
    ensures isnull ==> (forall n :: WellFormedInnerOut(r, |tuple.nodes|, n)) && !InconsistentChoice(tuple, r)
    ensures !isnull ==> r == out
  {
    if isnull then InnerOut(AllNodes(|tuple.nodes|), None, None, None, None) else out
  }

  /** The allTheSame check: all nodes or none must be chosen. */
  predicate InconsistentChoice(tuple: InnerTuple, out: InnerOut) {
    tuple.allTheSame && |out.nodeNumbers| != 0 && |out.nodeNumbers| != |tuple.nodes|
  }

  /** The work item spgInnerTest builds for the i-th choice, before its distances are copied in. */
  function NodeItem(item: SearchItem, tuple: InnerTuple, isnull: bool, out: InnerOut, norderbys: nat, i: nat): (r: SearchItem)
    requires WellFormedInnerOut(out, |tuple.nodes|, norderbys) && i < |out.nodeNumbers|
    ensures r.heap == tuple.nodes[out.nodeNumbers[i]] && r.itemState == Inner && r.isnull == isnull
    ensures out.levelAdds.Some? ==> r.level == item.level + out.levelAdds.value[i]
    ensures out.levelAdds.None? ==> r.level == item.level
  {
    SearchItem(tuple.nodes[out.nodeNumbers[i]],
               if out.levelAdds.Some? then item.level + out.levelAdds.value[i] else item.level,
               if out.reconstructedValues.Some? then out.reconstructedValues.value[i] else 0,
               if out.traversalValues.Some? then Some(out.traversalValues.value[i]) else None,
               Inner, isnull, [])
  }

  /** The distances of the i-th choice: the opclass's, or infinities when it gives none. */
  function NodeDistances(out: InnerOut, norderbys: nat, i: nat): (r: seq<Distance>)
    requires out.distances.Some? ==> i < |out.distances.value| && |out.distances.value[i]| >= norderbys
    ensures |r| >= norderbys
    ensures out.distances.None? ==> r == Infinities(norderbys)
  {
    if out.distances.Some? then out.distances.value[i] else Infinities(norderbys)
  }

  /**
   * The queued work item for the i-th choice: the chosen node's downlink,
   * at the parent's level plus the opclass's increment (or the parent's
   * level when none is given), with exactly norderbys distances.
   */
  function Child(item: SearchItem, tuple: InnerTuple, isnull: bool, out: InnerOut, norderbys: nat, i: nat): (r: SearchItem)
    requires WellFormedInnerOut(out, |tuple.nodes|, norderbys) && i < |out.nodeNumbers|
    ensures r.heap == tuple.nodes[out.nodeNumbers[i]] && r.itemState == Inner && r.isnull == isnull
    ensures r.level == item.level + (if out.levelAdds.Some? then out.levelAdds.value[i] else 0)
    ensures |r.distances| == norderbys
    ensures out.distances.None? ==> r.distances == Infinities(norderbys)
  {
    NodeItem(item, tuple, isnull, out, norderbys, i).(distances := NodeDistances(out, norderbys, i)[..norderbys])
  }

  /**
   * The children queued for the first k choices: one per chosen node whose
   * downlink is valid, in the order of the choices.
   */
  function Children(item: SearchItem, tuple: InnerTuple, isnull: bool, out: InnerOut, norderbys: nat, k: nat): (r: seq<SearchItem>)
    requires WellFormedInnerOut(out, |tuple.nodes|, norderbys) && k <= |out.nodeNumbers|
    ensures |r| <= k
    ensures forall j :: 0 <= j < |r| ==>
              (r[j].itemState == Inner && r[j].isnull == isnull && ItemPointerIsValid(r[j].heap)
               && |r[j].distances| == norderbys)
  {
    if k == 0 then []
    else
      var rest := Children(item, tuple, isnull, out, norderbys, k - 1);
      if ItemPointerIsValid(tuple.nodes[out.nodeNumbers[k - 1]])
      then rest + [Child(item, tuple, isnull, out, norderbys, k - 1)]
      else rest
  }

  /** One more choice: its child comes last, when its downlink is valid. */
  lemma ChildrenStep(item: SearchItem, tuple: InnerTuple, isnull: bool, out: InnerOut, norderbys: nat, i: nat)
    requires WellFormedInnerOut(out, |tuple.nodes|, norderbys) && i < |out.nodeNumbers|
    ensures Children(item, tuple, isnull, out, norderbys, i + 1)
              == Children(item, tuple, isnull, out, norderbys, i)
                 + (if ItemPointerIsValid(tuple.nodes[out.nodeNumbers[i]]) then [Child(item, tuple, isnull, out, norderbys, i)] else [])
  {
  }

  /** Every item of r is the work item of one of the first k choices. */
  predicate FromChoices(r: seq<SearchItem>, item: SearchItem, tuple: InnerTuple, isnull: bool, out: InnerOut, norderbys: nat, k: nat)
    requires WellFormedInnerOut(out, |tuple.nodes|, norderbys) && k <= |out.nodeNumbers|
  {
    forall j :: 0 <= j < |r| ==> exists i :: 0 <= i < k && r[j] == Child(item, tuple, isnull, out, norderbys, i)
  }

  /** Every queued child is the work item of one of the choices. */
  lemma {:induction false} ChildrenAreChosen(item: SearchItem, tuple: InnerTuple, isnull: bool, out: InnerOut, norderbys: nat, k: nat)
    requires WellFormedInnerOut(out, |tuple.nodes|, norderbys) && k <= |out.nodeNumbers|
    ensures FromChoices(Children(item, tuple, isnull, out, norderbys, k), item, tuple, isnull, out, norderbys, k)
  {
    if k > 0 {
      ChildrenAreChosen(item, tuple, isnull, out, norderbys, k - 1);
      var rest := Children(item, tuple, isnull, out, norderbys, k - 1);
      var r := Children(item, tuple, isnull, out, norderbys, k);
      forall j | 0 <= j < |r| ensures exists i :: 0 <= i < k && r[j] == Child(item, tuple, isnull, out, norderbys, i) {
        if j < |rest| {
          var i :| 0 <= i < k - 1 && rest[j] == Child(item, tuple, isnull, out, norderbys, i);
          assert r[j] == rest[j];
        } else {
          assert r[j] == Child(item, tuple, isnull, out, norderbys, k - 1);
        }
      }
    }
  }

  /** Reference definition for a nulls page: every node with a valid downlink, in node order, at the parent's level. */
  function NullChildren(item: SearchItem, nodes: seq<ItemPointer>, norderbys: nat): seq<SearchItem> {
    if nodes == [] then []
    else
      NullChildren(item, nodes[..|nodes| - 1], norderbys)
      + (if ItemPointerIsValid(nodes[|nodes| - 1])
         then [SearchItem(nodes[|nodes| - 1], item.level, 0, None, Inner, true, Infinities(norderbys))]
         else [])
  }

  /**
   * On a nulls page the inner test never fails and queues one child per
   * node with a valid downlink, in node order, at the parent's level, with
   * no value and infinite distances.
   */
  lemma {:induction false} NullsPageVisitsEveryNode(item: SearchItem, tuple: InnerTuple, out: InnerOut, norderbys: nat, k: nat)
    requires k <= |tuple.nodes|
    ensures var eff := EffectiveOut(tuple, true, out);
            WellFormedInnerOut(eff, |tuple.nodes|, norderbys) && !InconsistentChoice(tuple, eff)
            && Children(item, tuple, true, eff, norderbys, k) == NullChildren(item, tuple.nodes[..k], norderbys)
  {
    var eff := EffectiveOut(tuple, true, out);
    if k > 0 {
      NullsPageVisitsEveryNode(item, tuple, out, norderbys, k - 1);
      assert tuple.nodes[..k][..k - 1] == tuple.nodes[..k - 1];
      assert Infinities(norderbys)[..norderbys] == Infinities(norderbys);
    } else {
      assert tuple.nodes[..0] == [];
    }
  }

  /** A leaf tuple: the heap tid it indexes. */
  datatype LeafTuple = LeafTuple(heapPtr: ItemPointer)

  /** spgLeafConsistentOut, together with the consistent function's result. */
  datatype LeafOut = LeafOut(result: bool, recheck: bool, leafValue: int, distances: seq<Distance>)

  /** The arguments of one storeRes call. */
  datatype Report = Report(heap: ItemPointer, leafValue: int, isnull: bool, recheck: bool)

  /** The index tuple heap_form_tuple builds from a reported value. */
  datatype ReconTuple = ReconTuple(value: int, isnull: bool)

  function Recon(r: Report): ReconTuple {
    ReconTuple(r.leafValue, r.isnull)
  }

  /** What spggettuple hands to the executor: xs_ctup.t_self, xs_recheck, xs_hitup. */
  datatype TupleOut = TupleOut(heap: ItemPointer, recheck: bool, hitup: Option<ReconTuple>)

  /** The storeRes subroutine a walk reports through. */
  datatype StoreMode = ToTupleBuffer | ToBitmap

  /** What a leaf reports: a null leaf reports the value 0 without recheck. */
  function LeafReport(leaf: LeafTuple, isnull: bool, out: LeafOut): (r: Report)
    ensures r.heap == leaf.heapPtr && r.isnull == isnull
    ensures isnull ==> r.leafValue == 0 && !r.recheck
    ensures !isnull ==> r.leafValue == out.leafValue && r.recheck == out.recheck
  {
    if isnull then Report(leaf.heapPtr, 0, true, false)
    else Report(leaf.heapPtr, out.leafValue, false, out.recheck)
  }

  /** One leaf of a chain, with the leaf consistent function's answer for it. */
  datatype LeafVisit = LeafVisit(leaf: LeafTuple, out: LeafOut)

  /** A null leaf always passes; any other passes when its consistent function says so. */
  predicate LeafPasses(isnull: bool, v: LeafVisit) {
    isnull || v.out.result
  }

  /** An ordered scan needs one distance per ORDER BY key for every passing non-null leaf. */
  predicate HasDistances(isnull: bool, v: LeafVisit, norderbys: nat) {
    !isnull && v.out.result && norderbys > 0 ==> |v.out.distances| >= norderbys
  }

  /** The heap item an ordered scan queues for a passing leaf. */
  function HeapItem(level: int, isnull: bool, v: LeafVisit, norderbys: nat): (r: SearchItem)
    requires norderbys > 0 && LeafPasses(isnull, v) && HasDistances(isnull, v, norderbys)
    ensures IsHeapItem(r) && r.heap == v.leaf.heapPtr && r.level == level && r.isnull == isnull
    ensures |r.distances| == norderbys
    ensures isnull ==> r.itemState == HeapNoRecheck && r.value == 0 && r.distances == Infinities(norderbys)
    ensures !isnull ==> (r.itemState == HeapRecheck <==> v.out.recheck) && r.value == v.out.leafValue
  {
    var rep := LeafReport(v.leaf, isnull, v.out);
    NewHeapItem(level, v.leaf.heapPtr, rep.leafValue, rep.recheck, isnull)
      .(distances := (if isnull then Infinities(norderbys) else v.out.distances)[..norderbys])
  }

  /** What spgWalk reports for a heap item it pops: recheck exactly for HEAP_RECHECK. */
  function ItemReport(item: SearchItem): Report {
    Report(item.heap, item.value, item.isnull, item.itemState == HeapRecheck)
  }

  /**
   * Deferring a leaf through the queue changes nothing about its report:
   * the heap item an ordered scan queues reports exactly what an unordered
   * scan would have reported at once.
   */
  lemma DeferredReportIsImmediateReport(level: int, isnull: bool, v: LeafVisit, norderbys: nat)
    requires norderbys > 0 && LeafPasses(isnull, v) && HasDistances(isnull, v, norderbys)
    ensures ItemReport(HeapItem(level, isnull, v, norderbys)) == LeafReport(v.leaf, isnull, v.out)
  {
  }

  /** What an unordered scan reports from a leaf chain: the passing leaves, in chain order. */
  function ChainReports(isnull: bool, leaves: seq<LeafVisit>): (r: seq<Report>)
    ensures |r| <= |leaves|
    ensures r == [] <==> forall i :: 0 <= i < |leaves| ==> !LeafPasses(isnull, leaves[i])
  {
    if leaves == [] then []
    else
      var rest := ChainReports(isnull, leaves[..|leaves| - 1]);
      assert forall i :: 0 <= i < |leaves| - 1 ==> leaves[..|leaves| - 1][i] == leaves[i];
      var last := leaves[|leaves| - 1];
      rest + (if LeafPasses(isnull, last) then [LeafReport(last.leaf, isnull, last.out)] else [])
  }

  /** What an ordered scan queues from a leaf chain: a heap item per passing leaf, in chain order. */
  function ChainHeapItems(level: int, isnull: bool, leaves: seq<LeafVisit>, norderbys: nat): (r: seq<SearchItem>)
    requires norderbys > 0 && forall i :: 0 <= i < |leaves| ==> HasDistances(isnull, leaves[i], norderbys)
    ensures |r| == |ChainReports(isnull, leaves)|
    ensures forall i :: 0 <= i < |r| ==> IsHeapItem(r[i]) && ItemReport(r[i]) == ChainReports(isnull, leaves)[i]
  {
    if leaves == [] then []
    else
      var init := leaves[..|leaves| - 1];
      var rest := ChainHeapItems(level, isnull, init, norderbys);
      var last := leaves[|leaves| - 1];
      if LeafPasses(isnull, last) then
        DeferredReportIsImmediateReport(level, isnull, last, norderbys);
        rest + [HeapItem(level, isnull, last, norderbys)]
      else rest
  }

  /** A chain one leaf longer: its report, or its heap item, comes last. */
  lemma ChainStep(level: int, isnull: bool, leaves: seq<LeafVisit>, j: nat, norderbys: nat)
    requires j < |leaves| && forall i :: 0 <= i < |leaves| ==> HasDistances(isnull, leaves[i], norderbys)
    ensures var v := leaves[j];
            ChainReports(isnull, leaves[..j + 1])
              == ChainReports(isnull, leaves[..j]) + (if LeafPasses(isnull, v) then [LeafReport(v.leaf, isnull, v.out)] else [])
            && (norderbys > 0 ==>
                  ChainHeapItems(level, isnull, leaves[..j + 1], norderbys)
                    == ChainHeapItems(level, isnull, leaves[..j], norderbys)
                       + (if LeafPasses(isnull, v) then [HeapItem(level, isnull, v, norderbys)] else []))
  {
    assert leaves[..j + 1][..j] == leaves[..j];
  }

  lemma BitmapEntriesAppend(a: seq<Report>, b: seq<Report>)
    ensures BitmapEntries(a + b) == BitmapEntries(a) + BitmapEntries(b)
  {
  }

  /** The part of the scan state that testing leaves changes: the queue and the two result sinks. */
  datatype Observed = Observed(added: seq<SearchItem>, tree: QueueTree, buffered: seq<Report>,
                               tbm: seq<(ItemPointer, bool)>, ntids: nat)

  /**
   * The effect of spgLeafTest on one leaf: nothing when it fails; in an
   * ordered scan its heap item joins the queue; otherwise it is stored
   * through the walk's storeRes subroutine.
   */
  predicate LeafEffect(insert: (QueueTree, SearchItem) -> QueueTree, o: Observed, o': Observed,
                       level: int, isnull: bool, v: LeafVisit, norderbys: nat, mode: StoreMode)
    requires HasDistances(isnull, v, norderbys)
  {
    var rep := LeafReport(v.leaf, isnull, v.out);
    if !LeafPasses(isnull, v) then o' == o
    else if norderbys > 0 then
      var q := HeapItem(level, isnull, v, norderbys);
      o' == o.(added := o.added + [q], tree := insert(o.tree, q))
    else if mode == ToTupleBuffer then o' == o.(buffered := o.buffered + [rep])
    else o' == o.(tbm := o.tbm + [(rep.heap, rep.recheck)], ntids := o.ntids + 1)
  }

  /** The effect of the leaf loop on a whole chain: the passing leaves queued, or reported, in chain order. */
  predicate ChainEffect(insert: (QueueTree, SearchItem) -> QueueTree, o: Observed, o': Observed,
                        level: int, isnull: bool, leaves: seq<LeafVisit>, norderbys: nat, mode: StoreMode)
    requires forall i :: 0 <= i < |leaves| ==> HasDistances(isnull, leaves[i], norderbys)
  {
    if norderbys > 0 then
      var q := ChainHeapItems(level, isnull, leaves, norderbys);
      o' == o.(added := o.added + q, tree := InsertAll(insert, o.tree, q))
    else
      var reps := ChainReports(isnull, leaves);
      if mode == ToTupleBuffer then o' == o.(buffered := o.buffered + reps)
      else o' == o.(tbm := o.tbm + BitmapEntries(reps), ntids := o.ntids + |reps|)
  }

  /** The chain effect grows one leaf at a time; so does the question whether anything was reported. */
  lemma ChainEffectStep(insert: (QueueTree, SearchItem) -> QueueTree, o0: Observed, o: Observed, o': Observed,
                        level: int, isnull: bool, leaves: seq<LeafVisit>, j: nat, norderbys: nat, mode: StoreMode)
    requires j < |leaves| && forall i :: 0 <= i < |leaves| ==> HasDistances(isnull, leaves[i], norderbys)
    requires ChainEffect(insert, o0, o, level, isnull, leaves[..j], norderbys, mode)
    requires LeafEffect(insert, o, o', level, isnull, leaves[j], norderbys, mode)
    ensures ChainEffect(insert, o0, o', level, isnull, leaves[..j + 1], norderbys, mode)
    ensures ChainReports(isnull, leaves[..j + 1]) != [] <==> ChainReports(isnull, leaves[..j]) != [] || LeafPasses(isnull, leaves[j])
  {
    ChainStep(level, isnull, leaves, j, norderbys);
    if norderbys > 0 {
      OrderedChainStep(insert, o0, o, o', level, isnull, leaves, j, norderbys, mode);
    } else {
      UnorderedChainStep(insert, o0, o, o', level, isnull, leaves, j, mode);
    }
  }

  /** The unordered half of ChainEffectStep: one more report stored. */
  lemma UnorderedChainStep(insert: (QueueTree, SearchItem) -> QueueTree, o0: Observed, o: Observed, o': Observed,
                           level: int, isnull: bool, leaves: seq<LeafVisit>, j: nat, mode: StoreMode)
    requires j < |leaves| && forall i :: 0 <= i < |leaves| ==> HasDistances(isnull, leaves[i], 0)
    requires ChainEffect(insert, o0, o, level, isnull, leaves[..j], 0, mode)
    requires LeafEffect(insert, o, o', level, isnull, leaves[j], 0, mode)
    ensures ChainEffect(insert, o0, o', level, isnull, leaves[..j + 1], 0, mode)
  {
    var v := leaves[j];
    ChainStep(level, isnull, leaves, j, 0);
    var reps := ChainReports(isnull, leaves[..j]);
    var step := if LeafPasses(isnull, v) then [LeafReport(v.leaf, isnull, v.out)] else [];
    assert ChainReports(isnull, leaves[..j + 1]) == reps + step;
    if mode == ToTupleBuffer {
      BufferedStep(o0, o, o', reps, step);
    } else {
      BitmapStep(o0, o, o', reps, step);
    }
  }

  /** Stored into the tuple buffer: the reports so far, then this leaf's. */
  lemma BufferedStep(o0: Observed, o: Observed, o': Observed, reps: seq<Report>, step: seq<Report>)
    requires o == o0.(buffered := o0.buffered + reps)
    requires o' == o.(buffered := o.buffered + step)
    ensures o' == o0.(buffered := o0.buffered + (reps + step))
  {
    assert o0.buffered + reps + step == o0.buffered + (reps + step);
  }

  /** Added to the bitmap: the entries so far, then this leaf's. */
  lemma BitmapStep(o0: Observed, o: Observed, o': Observed, reps: seq<Report>, step: seq<Report>)
    requires o == o0.(tbm := o0.tbm + BitmapEntries(reps), ntids := o0.ntids + |reps|)
    requires o' == o.(tbm := o.tbm + BitmapEntries(step), ntids := o.ntids + |step|)
    ensures o' == o0.(tbm := o0.tbm + BitmapEntries(reps + step), ntids := o0.ntids + |reps + step|)
  {
    BitmapEntriesAppend(reps, step);
    assert o0.tbm + BitmapEntries(reps) + BitmapEntries(step) == o0.tbm + BitmapEntries(reps + step);
  }

  /** The ordered half of ChainEffectStep: one more heap item queued. */
  lemma OrderedChainStep(insert: (QueueTree, SearchItem) -> QueueTree, o0: Observed, o: Observed, o': Observed,
                         level: int, isnull: bool, leaves: seq<LeafVisit>, j: nat, norderbys: nat, mode: StoreMode)
    requires j < |leaves| && norderbys > 0 && forall i :: 0 <= i < |leaves| ==> HasDistances(isnull, leaves[i], norderbys)
    requires ChainEffect(insert, o0, o, level, isnull, leaves[..j], norderbys, mode)
    requires LeafEffect(insert, o, o', level, isnull, leaves[j], norderbys, mode)
    ensures ChainEffect(insert, o0, o', level, isnull, leaves[..j + 1], norderbys, mode)
  {
    var v := leaves[j];
    ChainStep(level, isnull, leaves, j, norderbys);
    if LeafPasses(isnull, v) {
      var items := ChainHeapItems(level, isnull, leaves[..j], norderbys);
      var q := HeapItem(level, isnull, v, norderbys);
      InsertAllSnoc(insert, o0.tree, items, q);
      assert o.added == o0.added + items && o.tree == InsertAll(insert, o0.tree, items);
      assert o'.added == o0.added + (items + [q]);
      assert o'.tree == InsertAll(insert, o0.tree, items + [q]);
      assert ChainHeapItems(level, isnull, leaves[..j + 1], norderbys) == items + [q];
    } else {
      assert ChainHeapItems(level, isnull, leaves[..j + 1], norderbys) == ChainHeapItems(level, isnull, leaves[..j], norderbys);
    }
  }

  /**
   * What spgWalk finds at the tid of an inner work item: a chain of leaves
   * (or the leaves of a root leaf page), or an inner tuple, with the
   * consistent functions' answers; the nulls flag is the page's.
   */
  datatype PageVisit =
    | LeafChain(isnull: bool, leaves: seq<LeafVisit>)
    | InnerNode(isnull: bool, tuple: InnerTuple, out: InnerOut)

  /** What the opclass and the page layout guarantee about a visit. */
  predicate WellFormedVisit(v: PageVisit, norderbys: nat) {
    match v
    case LeafChain(isnull, leaves) =>
      |leaves| <= MaxIndexTuplesPerPage && forall i :: 0 <= i < |leaves| ==> HasDistances(isnull, leaves[i], norderbys)
    case InnerNode(isnull, tuple, out) => !isnull ==> WellFormedInnerOut(out, |tuple.nodes|, norderbys)
  }

  /** One pass of spgWalk's loop: the queue was empty, or an item was handled and perhaps something reported. */
  datatype StepOutcome = QueueEmpty | Visited(reportedSome: bool)

  function Concat(batches: seq<seq<Report>>): seq<Report> {
    if batches == [] then [] else batches[0] + Concat(batches[1..])
  }

  function BitmapEntries(reports: seq<Report>): (r: seq<(ItemPointer, bool)>)
    ensures |r| == |reports|
    ensures forall i :: 0 <= i < |r| ==> r[i] == (reports[i].heap, reports[i].recheck)
  {
    if reports == [] then [] else BitmapEntries(reports[..|reports| - 1]) + [(reports[|reports| - 1].heap, reports[|reports| - 1].recheck)]
  }

  /**
   * SpGistScanOpaqueData. The scan keys and the queue are objects of their
   * own; the result buffer is the three arrays and the iPtr/nPtrs cursor;
   * the bitmap is the list of tids added to it. `walks` holds what the
   * remaining calls of spgWalk will report, one batch per call.
   */
  class ScanOpaque {
    const keys: KeyState
    const queue: SearchQueue
    const numberOfOrderBys: nat
    const xsWantItup: bool
    var wantItup: bool
    var distances: seq<Distance>
    var iPtr: nat
    var nPtrs: nat
    const heapPtrs: array<ItemPointer>
    const recheck: array<bool>
    const reconTups: array<Option<ReconTuple>>
    var ntids: nat
    var tbm: seq<(ItemPointer, bool)>
    var walks: seq<seq<Report>>
    /** The reports held in the buffer, positions 0 to nPtrs - 1. */
    ghost var buffered: seq<Report>

    ghost predicate Valid()
      reads this, heapPtrs, recheck, reconTups
    {
      heapPtrs.Length == MaxIndexTuplesPerPage && recheck.Length == MaxIndexTuplesPerPage
      && reconTups.Length == MaxIndexTuplesPerPage
      && queue.numberOfOrderBys == numberOfOrderBys && |distances| == numberOfOrderBys
      && iPtr <= nPtrs <= MaxIndexTuplesPerPage && |buffered| == nPtrs
      && (forall k :: 0 <= k < nPtrs ==> heapPtrs[k] == buffered[k].heap && recheck[k] == buffered[k].recheck)
      && (xsWantItup ==> forall k :: 0 <= k < nPtrs ==> reconTups[k] == Some(Recon(buffered[k])))
      && (forall b :: b in walks ==> 0 < |b| <= MaxIndexTuplesPerPage)
    }

    /** The tuples spggettuple still has to return, in order: the rest of the buffer, then the later walks. */
    ghost function Pending(): seq<Report>
      reads this
      requires iPtr <= |buffered|
    {
      buffered[iPtr..] + Concat(walks)
    }

    /** The queue and the result sinks, as one value. */
    ghost function Observe(): Observed
      reads this, queue
    {
      Observed(queue.added, queue.Tree(), buffered, tbm, ntids)
    }

    /** spgbeginscan, with the walks the index will report. */
    constructor (keysz: nat, orderbysz: nat, xsWantItup: bool,
                 insert: (QueueTree, SearchItem) -> QueueTree,
                 walks: seq<seq<Report>>)
      requires forall b :: b in walks ==> 0 < |b| <= MaxIndexTuplesPerPage
      ensures Valid() && fresh(keys) && fresh(keys.keyData) && fresh(queue)
      ensures keys.keyData.Length == keysz && numberOfOrderBys == orderbysz && this.xsWantItup == xsWantItup
      ensures iPtr == 0 && nPtrs == 0 && ntids == 0 && this.walks == walks
      ensures queue.curTreeItem.None? && queue.tree == [] && queue.added == []
    {
      keys := new KeyState(keysz);
      queue := new SearchQueue(orderbysz, insert);
      numberOfOrderBys := orderbysz;
      this.xsWantItup := xsWantItup;
      wantItup := false;
      distances := Zeros(orderbysz);
      iPtr := 0;
      nPtrs := 0;
      heapPtrs := new ItemPointer[MaxIndexTuplesPerPage](_ => ItemPointer(0, 0));
      recheck := new bool[MaxIndexTuplesPerPage](_ => false);
      reconTups := new Option<ReconTuple>[MaxIndexTuplesPerPage](_ => None);
      ntids := 0;
      tbm := [];
      this.walks := walks;
      buffered := [];
    }

    /** spgAddStartItem. */
    method AddStartItem(isnull: bool)
      requires queue.numberOfOrderBys == numberOfOrderBys && |distances| == numberOfOrderBys
      modifies queue
      ensures queue.added == old(queue.added) + [StartItem(isnull, distances)]
      ensures queue.Tree() == queue.insert(old(queue.Tree()), StartItem(isnull, distances))
    {
      queue.Add(StartItem(isnull, distances), distances);
      assert distances[..numberOfOrderBys] == distances;
    }

    /** resetSpGistScanOpaque: zero distances, the start items, an empty buffer. */
    method Reset()
      requires Valid()
      modifies this, queue
      ensures Valid() && iPtr == 0 && nPtrs == 0 && distances == Zeros(numberOfOrderBys)
      ensures queue.added == old(queue.added) + StartItems(keys.searchNulls, keys.searchNonNulls, numberOfOrderBys)
      ensures queue.Tree() == InsertAll(queue.insert, old(queue.Tree()), StartItems(keys.searchNulls, keys.searchNonNulls, numberOfOrderBys))
      ensures Pending() == Concat(walks) && walks == old(walks)
      ensures tbm == old(tbm) && ntids == old(ntids) && wantItup == old(wantItup)
    {
      distances := Zeros(numberOfOrderBys);
      AddStartItems();
      iPtr := 0;
      nPtrs := 0;
      buffered := [];
    }

    /** The seeding half of resetSpGistScanOpaque: a nulls start item, then a regular one, as the search flags ask. */
    method AddStartItems()
      requires queue.numberOfOrderBys == numberOfOrderBys && distances == Zeros(numberOfOrderBys)
      modifies queue
      ensures queue.added == old(queue.added) + StartItems(keys.searchNulls, keys.searchNonNulls, numberOfOrderBys)
      ensures queue.Tree() == InsertAll(queue.insert, old(queue.Tree()), StartItems(keys.searchNulls, keys.searchNonNulls, numberOfOrderBys))
    {
      ghost var seeded: seq<SearchItem> := [];
      if keys.searchNulls {
        InsertAllSnoc(queue.insert, old(queue.Tree()), seeded, StartItem(true, distances));
        AddStartItem(true);
        seeded := seeded + [StartItem(true, distances)];
      }
      if keys.searchNonNulls {
        InsertAllSnoc(queue.insert, old(queue.Tree()), seeded, StartItem(false, distances));
        AddStartItem(false);
        seeded := seeded + [StartItem(false, distances)];
      }
      assert seeded == StartItems(keys.searchNulls, keys.searchNonNulls, numberOfOrderBys);
    }

    /**
     * spgInnerTest: on a nulls page every node is chosen; an allTheSame
     * tuple must have all or none of its nodes chosen; each chosen node
     * with a valid downlink becomes an inner work item.
     */
    method InnerTest(item: SearchItem, tuple: InnerTuple, isnull: bool, consistent: InnerOut) returns (r: Result<(), ScanError>)
      requires queue.numberOfOrderBys == numberOfOrderBys
      requires !isnull ==> WellFormedInnerOut(consistent, |tuple.nodes|, numberOfOrderBys)
      modifies queue
      ensures var eff := EffectiveOut(tuple, isnull, consistent);
              WellFormedInnerOut(eff, |tuple.nodes|, numberOfOrderBys)
              && (r.Err? <==> InconsistentChoice(tuple, eff))
              && (r.Err? ==> r.error == InconsistentAllTheSame && queue.added == old(queue.added))
              && (r.Err? ==> queue.Tree() == old(queue.Tree()))
              && (r.Ok? ==> var kids := Children(item, tuple, isnull, eff, numberOfOrderBys, |eff.nodeNumbers|);
                            queue.added == old(queue.added) + kids && queue.Tree() == InsertAll(queue.insert, old(queue.Tree()), kids))
    {
      var out := EffectiveOut(tuple, isnull, consistent);
      if tuple.allTheSame && |out.nodeNumbers| != 0 && |out.nodeNumbers| != |tuple.nodes| {
        return Err(InconsistentAllTheSame);
      }
      AddChildren(item, tuple, isnull, out);
      return Ok(());
    }

    /** The loop of spgInnerTest: one inner work item per chosen node with a valid downlink. */
    method AddChildren(item: SearchItem, tuple: InnerTuple, isnull: bool, out: InnerOut)
      requires queue.numberOfOrderBys == numberOfOrderBys
      requires WellFormedInnerOut(out, |tuple.nodes|, numberOfOrderBys)
      modifies queue
      ensures var kids := Children(item, tuple, isnull, out, numberOfOrderBys, |out.nodeNumbers|);
              queue.added == old(queue.added) + kids && queue.Tree() == InsertAll(queue.insert, old(queue.Tree()), kids)
    {
      var i := 0;
      ghost var kids: seq<SearchItem> := [];
      ghost var added0, tree0 := queue.added, queue.Tree();
      while i < |out.nodeNumbers|
        invariant 0 <= i <= |out.nodeNumbers| && kids == Children(item, tuple, isnull, out, numberOfOrderBys, i)
        invariant queue.added == added0 + kids && queue.Tree() == InsertAll(queue.insert, tree0, kids)
      {
        ChildrenStep(item, tuple, isnull, out, numberOfOrderBys, i);
        ghost var child := Child(item, tuple, isnull, out, numberOfOrderBys, i);
        InsertAllSnoc(queue.insert, tree0, kids, child);
        var queued := AddChoice(item, tuple, isnull, out, i);
        if queued {
          kids := kids + [child];
        }
        i := i + 1;
      }
    }

    /** One pass of that loop: the i-th chosen node is queued when its downlink is valid. */
    method AddChoice(item: SearchItem, tuple: InnerTuple, isnull: bool, out: InnerOut, i: nat) returns (queued: bool)
      requires queue.numberOfOrderBys == numberOfOrderBys
      requires WellFormedInnerOut(out, |tuple.nodes|, numberOfOrderBys) && i < |out.nodeNumbers|
      modifies queue
      ensures queued == ItemPointerIsValid(tuple.nodes[out.nodeNumbers[i]])
      ensures queued ==> var child := Child(item, tuple, isnull, out, numberOfOrderBys, i);
                         queue.added == old(queue.added) + [child] && queue.Tree() == queue.insert(old(queue.Tree()), child)
      ensures !queued ==> queue.added == old(queue.added) && queue.Tree() == old(queue.Tree())
    {
      var nodeN := out.nodeNumbers[i];
      queued := ItemPointerIsValid(tuple.nodes[nodeN]);
      if queued {
        var newItem := NodeItem(item, tuple, isnull, out, numberOfOrderBys, i);
        queue.Add(newItem, NodeDistances(out, numberOfOrderBys, i));
      }
    }

    /** storeGettuple: append one result to the buffer; the index tuple is formed only when it is wanted. */
    method StoreGettuple(rep: Report)
      requires Valid() && nPtrs < MaxIndexTuplesPerPage && wantItup == xsWantItup
      modifies this, heapPtrs, recheck, reconTups
      ensures Valid() && nPtrs == old(nPtrs) + 1 && buffered == old(buffered) + [rep]
      ensures iPtr == old(iPtr) && walks == old(walks) && tbm == old(tbm) && ntids == old(ntids)
      ensures wantItup == old(wantItup) && distances == old(distances)
    {
      heapPtrs[nPtrs] := rep.heap;
      recheck[nPtrs] := rep.recheck;
      if wantItup {
        reconTups[nPtrs] := Some(Recon(rep));
      }
      buffered := buffered + [rep];
      nPtrs := nPtrs + 1;
    }

    /** storeBitmap: add the tid to the bitmap and count it. */
    method StoreBitmap(rep: Report)
      requires Valid()
      modifies this
      ensures Valid() && tbm == old(tbm) + [(rep.heap, rep.recheck)] && ntids == old(ntids) + 1
      ensures iPtr == old(iPtr) && nPtrs == old(nPtrs) && buffered == old(buffered) && walks == old(walks)
      ensures wantItup == old(wantItup) && distances == old(distances)
    {
      tbm := tbm + [(rep.heap, rep.recheck)];
      ntids := ntids + 1;
    }

    /**
     * spgLeafTest: a null leaf passes without a consistent call; a passing
     * leaf is queued as a heap item in an ordered scan (a null one with
     * infinite distances) and reported at once otherwise.
     */
    method LeafTest(v: LeafVisit, isnull: bool, level: int, mode: StoreMode)
      returns (result: bool, reportedSome: bool)
      requires Valid()
      requires mode == ToTupleBuffer ==> nPtrs < MaxIndexTuplesPerPage && wantItup == xsWantItup
      requires HasDistances(isnull, v, numberOfOrderBys)
      modifies this, heapPtrs, recheck, reconTups, queue
      ensures Valid()
      ensures result == LeafPasses(isnull, v)
      ensures reportedSome <==> result && numberOfOrderBys == 0
      ensures LeafEffect(queue.insert, old(Observe()), Observe(), level, isnull, v, numberOfOrderBys, mode)
      ensures iPtr == old(iPtr) && walks == old(walks) && wantItup == old(wantItup) && distances == old(distances)
    {
      var rep := LeafReport(v.leaf, isnull, v.out);
      result := isnull || v.out.result;
      reportedSome := false;
      if result {
        if numberOfOrderBys > 0 {
          var dists := if isnull then Infinities(numberOfOrderBys) else v.out.distances;
          queue.Add(NewHeapItem(level, v.leaf.heapPtr, rep.leafValue, rep.recheck, isnull), dists);
        } else {
          if mode == ToTupleBuffer {
            StoreGettuple(rep);
          } else {
            StoreBitmap(rep);
          }
          reportedSome := true;
        }
      }
    }

    /**
     * The leaf loop of spgWalk: spgLeafTest on every leaf of the chain, in
     * order; an ordered scan queues the passing leaves, an unordered one
     * reports them.
     */
    method VisitLeafChain(level: int, isnull: bool, leaves: seq<LeafVisit>, mode: StoreMode) returns (reportedSome: bool)
      requires Valid() && forall i :: 0 <= i < |leaves| ==> HasDistances(isnull, leaves[i], numberOfOrderBys)
      requires mode == ToTupleBuffer ==> nPtrs + |leaves| <= MaxIndexTuplesPerPage && wantItup == xsWantItup
      modifies this, heapPtrs, recheck, reconTups, queue
      ensures Valid()
      ensures ChainEffect(queue.insert, old(Observe()), Observe(), level, isnull, leaves, numberOfOrderBys, mode)
      ensures reportedSome <==> numberOfOrderBys == 0 && ChainReports(isnull, leaves) != []
      ensures iPtr == old(iPtr) && walks == old(walks) && wantItup == old(wantItup) && distances == old(distances)
    {
      reportedSome := false;
      var j := 0;
      ghost var o0 := Observe();
      assert leaves[..0] == [];
      while j < |leaves|
        invariant 0 <= j <= |leaves| && Valid()
        invariant mode == ToTupleBuffer ==> nPtrs + |leaves| - j <= MaxIndexTuplesPerPage
        invariant iPtr == old(iPtr) && walks == old(walks) && wantItup == old(wantItup) && distances == old(distances)
        invariant ChainEffect(queue.insert, o0, Observe(), level, isnull, leaves[..j], numberOfOrderBys, mode)
        invariant reportedSome <==> numberOfOrderBys == 0 && ChainReports(isnull, leaves[..j]) != []
      {
        var v := leaves[j];
        ghost var before := Observe();
        var passed, reported := LeafTest(v, isnull, level, mode);
        ChainEffectStep(queue.insert, o0, before, Observe(), level, isnull, leaves, j, numberOfOrderBys, mode);
        reportedSome := reportedSome || reported;
        j := j + 1;
      }
      assert leaves[..j] == leaves;
    }

    /**
     * One pass of spgWalk's loop: pop the next item; a heap item is
     * reported; an inner item leads to its page, whose leaf chain is tested
     * or whose inner tuple yields child items.
     */
    method WalkStep(mode: StoreMode, visit: SearchItem -> PageVisit) returns (r: Result<StepOutcome, ScanError>)
      requires Valid() && forall it :: WellFormedVisit(visit(it), numberOfOrderBys)
      requires mode == ToTupleBuffer ==> nPtrs == 0 && wantItup == xsWantItup
      modifies this, heapPtrs, recheck, reconTups, queue
      ensures Valid()
      ensures var popped := NextItem(old(queue.curTreeItem), old(queue.tree));
              var afterPop := old(Observe()).(tree := (popped.cur, popped.tree));
              (popped.item.Some? ==> WellFormedVisit(visit(popped.item.value), numberOfOrderBys))
              && (popped.item.None? ==> r == Ok(QueueEmpty) && Observe() == afterPop)
              && (popped.item.Some? && IsHeapItem(popped.item.value) ==>
                    var rep := ItemReport(popped.item.value);
                    r == Ok(Visited(true))
                    && (mode == ToTupleBuffer ==> Observe() == afterPop.(buffered := afterPop.buffered + [rep]))
                    && (mode == ToBitmap ==> Observe() == afterPop.(tbm := afterPop.tbm + [(rep.heap, rep.recheck)],
                                                                    ntids := afterPop.ntids + 1)))
              && (popped.item.Some? && !IsHeapItem(popped.item.value) ==>
                    match visit(popped.item.value)
                    case LeafChain(isnull, leaves) =>
                      r == Ok(Visited(numberOfOrderBys == 0 && ChainReports(isnull, leaves) != []))
                      && ChainEffect(queue.insert, afterPop, Observe(), popped.item.value.level, isnull, leaves, numberOfOrderBys, mode)
                    case InnerNode(isnull, tuple, out) =>
                      var eff := EffectiveOut(tuple, isnull, out);
                      (r.Err? <==> InconsistentChoice(tuple, eff))
                      && (r.Err? ==> Observe() == afterPop)
                      && (r.Ok? ==> var kids := Children(popped.item.value, tuple, isnull, eff, numberOfOrderBys, |eff.nodeNumbers|);
                                    r.value == Visited(false)
                                    && Observe() == afterPop.(added := afterPop.added + kids,
                                                              tree := InsertAll(queue.insert, afterPop.tree, kids))))
      ensures iPtr == old(iPtr) && walks == old(walks) && wantItup == old(wantItup)
    {
      var next := queue.Next();
      if next.None? {
        return Ok(QueueEmpty);
      }
      var item := next.value;
      if IsHeapItem(item) {
        var rep := Report(item.heap, item.value, item.isnull, item.itemState == HeapRecheck);
        if mode == ToTupleBuffer {
          StoreGettuple(rep);
        } else {
          StoreBitmap(rep);
        }
        return Ok(Visited(true));
      }
      match visit(item)
      case LeafChain(isnull, leaves) =>
        var reported := VisitLeafChain(item.level, isnull, leaves, mode);
        return Ok(Visited(reported));
      case InnerNode(isnull, tuple, out) =>
        var res := InnerTest(item, tuple, isnull, out);
        if res.Err? {
          return Err(res.error);
        }
        return Ok(Visited(false));
    }

    /**
     * The refill step of spggettuple once the buffer is used up: empty the
     * buffer, then spgWalk stores the next walk's reports in it; with no
     * walk left the buffer stays empty.
     */
    method Refill()
      requires Valid() && iPtr == nPtrs && wantItup == xsWantItup
      modifies this, heapPtrs, recheck, reconTups
      ensures Valid() && iPtr == 0 && Pending() == old(Pending())
      ensures nPtrs == 0 <==> old(walks) == []
      ensures old(walks) != [] ==> walks == old(walks)[1..]
      ensures tbm == old(tbm) && ntids == old(ntids) && wantItup == old(wantItup)
    {
      iPtr := 0;
      nPtrs := 0;
      buffered := [];
      if walks == [] {
        return;
      }
      var batch := walks[0];
      assert batch in walks;
      var later := walks[1..];
      assert forall b :: b in later ==> b in walks;
      walks := later;
      var j := 0;
      while j < |batch|
        invariant 0 <= j <= |batch| && walks == later
        invariant Valid() && iPtr == 0 && nPtrs == j && buffered == batch[..j]
        invariant tbm == old(tbm) && ntids == old(ntids) && wantItup == old(wantItup)
      {
        StoreGettuple(batch[j]);
        assert batch[..j + 1] == batch[..j] + [batch[j]];
        j := j + 1;
      }
      assert batch[..j] == batch;
    }

    /** The first branch of spggettuple's loop: return the next buffered result and advance iPtr. */
    method NextBuffered() returns (t: TupleOut)
      requires Valid() && iPtr < nPtrs
      modifies this
      ensures Valid() && old(Pending()) != [] && Pending() == old(Pending())[1..]
      ensures t.heap == old(Pending())[0].heap && t.recheck == old(Pending())[0].recheck
      ensures xsWantItup ==> t.hitup == Some(Recon(old(Pending())[0]))
      ensures nPtrs == old(nPtrs) && walks == old(walks) && buffered == old(buffered)
      ensures tbm == old(tbm) && ntids == old(ntids) && wantItup == old(wantItup)
    {
      t := TupleOut(heapPtrs[iPtr], recheck[iPtr], reconTups[iPtr]);
      assert buffered[iPtr..] == [buffered[iPtr]] + buffered[iPtr + 1..];
      iPtr := iPtr + 1;
    }

    /**
     * spggettuple: only forward scans; the buffered results come back in
     * order, each once, and false is returned only after a refill reports
     * nothing.
     */
    method GetTuple(dir: ScanDirection) returns (r: Result<Option<TupleOut>, ScanError>)
      requires Valid()
      modifies this, heapPtrs, recheck, reconTups
      ensures Valid() && tbm == old(tbm) && ntids == old(ntids)
      ensures r.Err? <==> dir != Forward
      ensures r.Err? ==> r.error == BackwardScan && Pending() == old(Pending())
      ensures r == Ok(None) <==> dir == Forward && old(Pending()) == []
      ensures r == Ok(None) ==> Pending() == [] && walks == []
      ensures r.Ok? && r.value.Some? ==>
                var p := old(Pending());
                p != [] && r.value.value.heap == p[0].heap && r.value.value.recheck == p[0].recheck
                && (xsWantItup ==> r.value.value.hitup == Some(Recon(p[0])))
                && Pending() == p[1..]
    {
      if dir != Forward {
        return Err(BackwardScan);
      }
      wantItup := xsWantItup;
      while true
        invariant Valid() && wantItup == xsWantItup && Pending() == old(Pending())
        invariant tbm == old(tbm) && ntids == old(ntids)
        decreases |walks| + (if iPtr < nPtrs then 0 else 1)
      {
        if iPtr < nPtrs {
          var t := NextBuffered();
          return Ok(Some(t));
        }
        Refill();
        if nPtrs == 0 {
          break;
        }
      }
      return Ok(None);
    }

    /** spggetbitmap: one walk over the whole index reports every remaining tid into the bitmap; the count is returned. */
    method GetBitmap() returns (n: nat)
      requires Valid()
      modifies this
      ensures Valid() && n == ntids && n == |Concat(old(walks))|
      ensures tbm == old(tbm) + BitmapEntries(Concat(old(walks))) && walks == []
      ensures !wantItup && iPtr == old(iPtr) && nPtrs == old(nPtrs) && buffered == old(buffered)
    {
      wantItup := false;
      ntids := 0;
      var all := Concat(walks);
      walks := [];
      var j := 0;
      while j < |all|
        invariant 0 <= j <= |all| && walks == []
        invariant Valid() && !wantItup && iPtr == old(iPtr) && nPtrs == old(nPtrs) && buffered == old(buffered)
        invariant ntids == j && tbm == old(tbm) + BitmapEntries(all[..j])
      {
        StoreBitmap(all[j]);
        assert all[..j + 1][..j] == all[..j];
        j := j + 1;
      }
      assert all[..j] == all;
      n := ntids;
    }
  }
}
