/**
 * The bottom-up loader of the sorted GiST build (gistLoad and its helpers
 * in gistbuild.c): sorted index tuples are packed left to right into leaf
 * pages; every page that is closed gets the next block number as its right
 * link and leaves one union downlink on the level above, which is created
 * when first needed; at the end the last page of every level is linked
 * upward and the topmost page is written as the root.
 *
 * One GistPageState per level is kept as levels[level]: its block number
 * and the tuples on its page (btps_lastoff is |items| + 1, btps_level is
 * the index, btps_next is the next entry, btps_full is the loader's `full`).
 */
module GistSorted {
  import opened Wrappers
  import opened GistPages

  function Last<T>(s: seq<T>): T
    requires |s| > 0
  {
    s[|s| - 1]
  }

  const BLCKSZ: nat := 8192
  const SizeOfPageHeaderData: nat := 24
  const ItemIdSize: nat := 4
  /** MAXALIGN(sizeof(GISTPageOpaqueData)), the special space of a GiST page. */
  const OpaqueSize: nat := 16

  function MaxAlign(n: nat): (r: nat)
    ensures n <= r < n + 8 && r % 8 == 0
  {
    (n + 7) / 8 * 8
  }

  function MaxAlignDown(n: nat): (r: nat)
    ensures r <= n < r + 8 && r % 8 == 0
  {
    n / 8 * 8
  }

  /** The space between the line pointers and the special space of an empty page. */
  const PageSpace: nat := BLCKSZ - SizeOfPageHeaderData - OpaqueSize

  /** GistMaxItemSize: the room of an empty page for one tuple, 8144 bytes. */
  const GistMaxItemSize: nat := MaxAlignDown(BLCKSZ - MaxAlign(SizeOfPageHeaderData + ItemIdSize) - OpaqueSize)

  /** What the tuples on a page take: each its MAXALIGNed size and a line pointer. */
  function ItemsSpace(items: seq<IndexTuple>): nat {
    if |items| == 0 then 0 else ItemsSpace(items[..|items| - 1]) + MaxAlign(items[|items| - 1].size) + ItemIdSize
  }

  /** PageGetFreeSpace: the free space less one more line pointer, never negative. */
  function PageFreeSpace(items: seq<IndexTuple>): (r: nat)
    ensures ItemsSpace(items) + ItemIdSize <= PageSpace ==> r == PageSpace - ItemsSpace(items) - ItemIdSize
    ensures ItemsSpace(items) + ItemIdSize > PageSpace ==> r == 0
  {
    var space := PageSpace as int - ItemsSpace(items);
    if space < ItemIdSize as int then 0 else space - ItemIdSize
  }

  /** PageAddItem succeeds: the tuple and its line pointer still fit. */
  predicate Fits(items: seq<IndexTuple>, itupsz: nat) {
    ItemsSpace(items) + itupsz + ItemIdSize <= PageSpace
  }

  /**
   * The two rules that decide a page's fill: the largest MAXALIGNed tuple
   * accepted, and how many tuples a page must hold before the fill factor
   * may close it.
   */
  datatype Rules = Rules(maxItemSize: nat, minItemsForFill: nat)

  /** The rules as gistBuildAdd has them: any tuple up to a whole page, and one tuple. */
  const AsWritten: Rules := Rules(GistMaxItemSize, 1)

  /** Rules under which every closed page holds at least two tuples. */
  predicate TwoFit(rules: Rules) {
    rules.minItemsForFill >= 2 && 2 * rules.maxItemSize <= GistMaxItemSize
  }

  /** Tuples at most half a page, and two of them before the fill factor applies. */
  const TwoPerPage: Rules := Rules(MaxAlignDown(GistMaxItemSize / 2), 2)

  /** The parameters of a load: the rules, the union of a page's tuples (gistMakeUnionOfTuples) and btps_full. */
  datatype LoadEnv = LoadEnv(rules: Rules, union: seq<IndexTuple> -> IndexTuple, full: int)

  predicate WellFormedEnv(env: LoadEnv) {
    env.rules.minItemsForFill >= 1 && env.rules.maxItemSize <= GistMaxItemSize
  }

  /** Every union tuple has a positive size, as every index tuple with its header does. */
  ghost predicate PositiveUnion(env: LoadEnv) {
    forall items :: env.union(items).size > 0
  }

  datatype LevelState = LevelState(blkno: BlockNumber, items: seq<IndexTuple>)

  /** A page handed to bt_blwritepage. */
  datatype SortedPage = SortedPage(level: nat, items: seq<IndexTuple>, rightlink: BlockNumber)

  /** The loader: the open page of each level, btws_pages_alloced, and the pages written so far. */
  datatype LoadState = LoadState(levels: seq<LevelState>, alloced: nat, written: map<BlockNumber, SortedPage>)

  datatype SortError =
    | RowTooBig(size: nat)   // the MAXALIGNed tuple exceeds the largest accepted
    | AddFailed               // PageAddItem found no room

  /** btws_pages_alloced starts past the root block. */
  function InitialState(): LoadState {
    LoadState([], GIST_ROOT_BLKNO + 1, map[])
  }

  /** gistPageState: an empty page for a new top level, at the next block number. */
  function NewLevel(st: LoadState): (r: LoadState)
    ensures |r.levels| == |st.levels| + 1 && r.levels[..|st.levels|] == st.levels
    ensures r.levels[|st.levels|] == LevelState(st.alloced, []) && r.alloced == st.alloced + 1
    ensures r.written == st.written
  {
    st.(levels := st.levels + [LevelState(st.alloced, [])], alloced := st.alloced + 1)
  }

  /** gistBuildAdd closes the page when the tuple does not fit, or the page is past the fill factor and holds enough tuples. */
  predicate MustClose(env: LoadEnv, items: seq<IndexTuple>, itupsz: nat) {
    var pgspc := PageFreeSpace(items);
    pgspc < itupsz || (pgspc < env.full && |items| >= env.rules.minItemsForFill)
  }

  /** A page that no accepted tuple can close. */
  predicate NeverCloses(env: LoadEnv, items: seq<IndexTuple>) {
    PageFreeSpace(items) >= env.rules.maxItemSize && |items| < env.rules.minItemsForFill
  }

  /** The termination rank of gistBuildAdd on level l: twice the levels from l up, plus one for a non-empty page. */
  function AddRank(st: LoadState, l: nat): nat
    requires l < |st.levels|
  {
    2 * (|st.levels| - l) + (if st.levels[l].items == [] then 0 else 1)
  }

  /**
   * gistBuildAdd: put itup on the open page of level l. An oversize tuple
   * is refused. When the page must close, the next block number is taken
   * for its successor, the level above is created if missing, the union of
   * the closed page goes up as its downlink, and the closed page is written
   * with the new block as its right link; itup starts the new page.
   */
  function BuildAdd(env: LoadEnv, st: LoadState, l: nat, itup: IndexTuple): (r: Result<LoadState, SortError>)
    requires WellFormedEnv(env) && l < |st.levels|
    ensures r.Ok? ==> |r.value.levels| >= |st.levels| && r.value.levels[..l] == st.levels[..l]
    ensures r.Ok? ==> r.value.levels[l].items != [] && Last(r.value.levels[l].items) == itup
    ensures r.Ok? ==> MaxAlign(itup.size) <= env.rules.maxItemSize
    ensures r.Ok? && st.levels[l].items == [] ==> r.value.levels[l].items == [itup] && |r.value.levels| == |st.levels|
    ensures r.Ok? ==> (|r.value.levels| == |st.levels|
                       || (|r.value.levels| == |st.levels| + 1 && !NeverCloses(env, Last(st.levels).items)
                           && |Last(r.value.levels).items| == 1
                           && MaxAlign(Last(r.value.levels).items[0].size) <= env.rules.maxItemSize))
    ensures r.Err? && r.error.RowTooBig? ==> r.error.size > env.rules.maxItemSize
    ensures r.Err? && itup.size > 0 && PositiveUnion(env) ==> r.error.RowTooBig?
    decreases AddRank(st, l), 0
  {
    var page := st.levels[l];
    var itupsz := MaxAlign(itup.size);
    if itupsz > env.rules.maxItemSize then Err(RowTooBig(itupsz))
    else if MustClose(env, page.items, itupsz) then
      var nblkno := st.alloced;
      var st1 := st.(alloced := st.alloced + 1);
      var st2 := if l + 1 == |st.levels| then NewLevel(st1) else st1;
      match FinishPage(env, st2, l, page.items, page.blkno)
      case Err(e) => Err(e)
      case Ok(st3) =>
        Ok(st3.(levels := st3.levels[l := LevelState(nblkno, [itup])],
                written := st3.written[page.blkno := SortedPage(l, page.items, nblkno)]))
    else if !Fits(page.items, itupsz) then Err(AddFailed)
    else Ok(st.(levels := st.levels[l := LevelState(page.blkno, page.items + [itup])]))
  }

  /** gistFinishPage: the union of a closed page's tuples, pointing at its block, goes onto level l + 1. */
  function FinishPage(env: LoadEnv, st: LoadState, l: nat, items: seq<IndexTuple>, blkno: BlockNumber): (r: Result<LoadState, SortError>)
    requires WellFormedEnv(env) && l + 1 < |st.levels|
    ensures r.Ok? ==> |r.value.levels| >= |st.levels| && r.value.levels[..l + 1] == st.levels[..l + 1]
    ensures r.Ok? ==> r.value.levels[l + 1].items != [] && Last(r.value.levels[l + 1].items) == env.union(items).(tid := blkno)
    ensures r.Ok? && st.levels[l + 1].items == [] ==> (r.value.levels[l + 1].items == [env.union(items).(tid := blkno)]
                                                      && |r.value.levels| == |st.levels|)
    ensures r.Ok? ==> (|r.value.levels| == |st.levels|
                       || (|r.value.levels| == |st.levels| + 1 && !NeverCloses(env, Last(st.levels).items)
                           && |Last(r.value.levels).items| == 1
                           && MaxAlign(Last(r.value.levels).items[0].size) <= env.rules.maxItemSize))
    ensures r.Err? && r.error.RowTooBig? ==> r.error.size > env.rules.maxItemSize
    ensures r.Err? && PositiveUnion(env) ==> r.error.RowTooBig?
    decreases 2 * (|st.levels| - l - 1) + (if st.levels[l + 1].items == [] then 0 else 1), 1
  {
    BuildAdd(env, st, l + 1, env.union(items).(tid := blkno))
  }

  /** The block numbers held by the open pages of levels from..|levels|-1. */
  function Blocks(levels: seq<LevelState>, from: nat): set<BlockNumber> {
    set i | from <= i < |levels| :: levels[i].blkno
  }

  /**
   * Block numbering from level `from` up: the open pages have distinct
   * blocks, and the written pages, the open pages and the reserved blocks
   * split the numbers handed out since the root block without overlap.
   */
  ghost predicate Numbering(st: LoadState, from: nat, reserved: set<BlockNumber>) {
    GIST_ROOT_BLKNO + 1 <= st.alloced &&
    (forall i, j :: from <= i < j < |st.levels| ==> st.levels[i].blkno != st.levels[j].blkno)
    && st.written.Keys !! Blocks(st.levels, from)
    && st.written.Keys !! reserved && Blocks(st.levels, from) !! reserved
    && (forall b: BlockNumber ::
          (GIST_ROOT_BLKNO + 1 <= b < st.alloced) <==> (b in st.written || b in Blocks(st.levels, from) || b in reserved))
  }

  /** Taking the next block number for a page still to be placed. */
  lemma ReserveNext(st: LoadState, l: nat, from: nat, reserved: set<BlockNumber>)
    requires from <= l < |st.levels| && Numbering(st, from, reserved)
    ensures var st1 := st.(alloced := st.alloced + 1);
            var st2 := if l + 1 == |st.levels| then NewLevel(st1) else st1;
            Numbering(st2, from, reserved + {st.alloced})
  {
    var st1 := st.(alloced := st.alloced + 1);
    if l + 1 == |st.levels| {
      BlocksAppend(st1.levels, from, LevelState(st1.alloced, []));
      var st2 := NewLevel(st1);
      assert st2.levels == st1.levels + [LevelState(st1.alloced, [])];
      forall i | from <= i < |st1.levels| ensures st2.levels[i].blkno != st1.alloced {
        assert st1.levels[i].blkno in Blocks(st1.levels, from);
      }
      forall b: BlockNumber
        ensures (GIST_ROOT_BLKNO + 1 <= b < st2.alloced) <==> (b in st2.written || b in Blocks(st2.levels, from) || b in reserved + {st.alloced})
      {
        assert (GIST_ROOT_BLKNO + 1 <= b < st.alloced) <==> (b in st.written || b in Blocks(st.levels, from) || b in reserved);
      }
    } else {
      forall b: BlockNumber
        ensures (GIST_ROOT_BLKNO + 1 <= b < st1.alloced) <==> (b in st1.written || b in Blocks(st1.levels, from) || b in reserved + {st.alloced})
      {
        assert (GIST_ROOT_BLKNO + 1 <= b < st.alloced) <==> (b in st.written || b in Blocks(st.levels, from) || b in reserved);
      }
    }
  }

  /** The closed page goes to the written pages and its successor takes the reserved block. */
  lemma PlaceReserved(st3: LoadState, l: nat, from: nat, reserved: set<BlockNumber>, nblkno: BlockNumber, itup: IndexTuple)
    requires from <= l < |st3.levels| && nblkno !in reserved && Numbering(st3, from, reserved + {nblkno})
    ensures var page := st3.levels[l];
            Numbering(st3.(levels := st3.levels[l := LevelState(nblkno, [itup])],
                           written := st3.written[page.blkno := SortedPage(l, page.items, nblkno)]), from, reserved)
  {
    var page := st3.levels[l];
    assert page.blkno in Blocks(st3.levels, from);
    BlocksUpdate(st3.levels, from, l, LevelState(nblkno, [itup]));
    var levels := st3.levels[l := LevelState(nblkno, [itup])];
    forall i, j | from <= i < j < |levels| ensures levels[i].blkno != levels[j].blkno {
      if i == l {
        assert st3.levels[j].blkno in Blocks(st3.levels, from);
      } else if j == l {
        assert st3.levels[i].blkno in Blocks(st3.levels, from);
      }
    }
  }

  lemma BlocksAppend(levels: seq<LevelState>, from: nat, x: LevelState)
    requires from <= |levels|
    ensures Blocks(levels + [x], from) == Blocks(levels, from) + {x.blkno}
  {
    var a := levels + [x];
    assert a[|levels|] == x;
    forall b | b in Blocks(a, from) ensures b in Blocks(levels, from) + {x.blkno} {
      var i :| from <= i < |a| && a[i].blkno == b;
      if i < |levels| { assert levels[i] == a[i]; }
    }
    forall b | b in Blocks(levels, from) ensures b in Blocks(a, from) {
      var i :| from <= i < |levels| && levels[i].blkno == b;
      assert a[i] == levels[i];
    }
  }

  lemma BlocksUpdate(levels: seq<LevelState>, from: nat, l: nat, x: LevelState)
    requires from <= l < |levels|
    requires forall i, j :: from <= i < j < |levels| ==> levels[i].blkno != levels[j].blkno
    ensures Blocks(levels[l := x], from) == Blocks(levels, from) - {levels[l].blkno} + {x.blkno}
  {
    var a := levels[l := x];
    forall b | b in Blocks(a, from) ensures b in Blocks(levels, from) - {levels[l].blkno} + {x.blkno} {
      var i :| from <= i < |a| && a[i].blkno == b;
      if i != l {
        assert levels[i].blkno != levels[l].blkno by {
          if i < l { assert from <= i < l < |levels|; } else { assert from <= l < i < |levels|; }
        }
      }
    }
    forall b | b in Blocks(levels, from) - {levels[l].blkno} + {x.blkno} ensures b in Blocks(a, from) {
      if b == x.blkno { assert a[l] == x; }
      else {
        var i :| from <= i < |levels| && levels[i].blkno == b;
        assert i != l && a[i] == levels[i];
      }
    }
  }

  /** Blocks from level `from` up depend only on those levels. */
  lemma BlocksPrefix(a: seq<LevelState>, b: seq<LevelState>, from: nat, k: nat)
    requires from <= k <= |a| && k <= |b| && a[..k] == b[..k]
    ensures forall i :: from <= i < k ==> a[i].blkno == b[i].blkno
  {
    forall i | from <= i < k ensures a[i].blkno == b[i].blkno {
      assert a[i] == a[..k][i] && b[i] == b[..k][i];
    }
  }

  /** gistBuildAdd hands out each block number once and never writes a block twice. */
  lemma {:induction false} BuildAddNumbering(env: LoadEnv, st: LoadState, l: nat, itup: IndexTuple, from: nat, reserved: set<BlockNumber>)
    requires WellFormedEnv(env) && from <= l < |st.levels| && Numbering(st, from, reserved)
    ensures BuildAdd(env, st, l, itup).Ok? ==> Numbering(BuildAdd(env, st, l, itup).value, from, reserved)
    ensures BuildAdd(env, st, l, itup).Ok? ==> (st.written.Keys <= BuildAdd(env, st, l, itup).value.written.Keys
                                                && st.alloced <= BuildAdd(env, st, l, itup).value.alloced)
    decreases AddRank(st, l), 0
  {
    var r := BuildAdd(env, st, l, itup);
    var page := st.levels[l];
    var itupsz := MaxAlign(itup.size);
    if r.Ok? && itupsz <= env.rules.maxItemSize {
      if MustClose(env, page.items, itupsz) {
        var nblkno := st.alloced;
        var st1 := st.(alloced := st.alloced + 1);
        var st2 := if l + 1 == |st.levels| then NewLevel(st1) else st1;
        ReserveNext(st, l, from, reserved);
        FinishPageNumbering(env, st2, l, page.items, page.blkno, from, reserved + {nblkno});
        var st3 := FinishPage(env, st2, l, page.items, page.blkno).value;
        assert r.value == st3.(levels := st3.levels[l := LevelState(nblkno, [itup])],
                               written := st3.written[page.blkno := SortedPage(l, page.items, nblkno)]);
        BlocksPrefix(st3.levels, st2.levels, from, l + 1);
        PlaceReserved(st3, l, from, reserved, nblkno, itup);
      } else {
        assert r.value == st.(levels := st.levels[l := LevelState(page.blkno, page.items + [itup])]);
        SameBlockKeepsNumbering(st, l, page.items + [itup], from, reserved);
      }
    }
  }

  /** Changing the tuples of an open page leaves the numbering as it is. */
  lemma SameBlockKeepsNumbering(st: LoadState, l: nat, items: seq<IndexTuple>, from: nat, reserved: set<BlockNumber>)
    requires from <= l < |st.levels| && Numbering(st, from, reserved)
    ensures Numbering(st.(levels := st.levels[l := LevelState(st.levels[l].blkno, items)]), from, reserved)
  {
    BlocksUpdate(st.levels, from, l, LevelState(st.levels[l].blkno, items));
    assert st.levels[l].blkno in Blocks(st.levels, from);
  }

  lemma {:induction false} FinishPageNumbering(env: LoadEnv, st: LoadState, l: nat, items: seq<IndexTuple>, blkno: BlockNumber,
                                               from: nat, reserved: set<BlockNumber>)
    requires WellFormedEnv(env) && from <= l && l + 1 < |st.levels| && Numbering(st, from, reserved)
    ensures FinishPage(env, st, l, items, blkno).Ok? ==> Numbering(FinishPage(env, st, l, items, blkno).value, from, reserved)
    ensures FinishPage(env, st, l, items, blkno).Ok? ==> (st.written.Keys <= FinishPage(env, st, l, items, blkno).value.written.Keys
                                                         && st.alloced <= FinishPage(env, st, l, items, blkno).value.alloced)
    decreases 2 * (|st.levels| - l - 1) + (if st.levels[l + 1].items == [] then 0 else 1), 1
  {
    BuildAddNumbering(env, st, l + 1, env.union(items).(tid := blkno), from, reserved);
  }

  /** A new state for the first leaf, as gistLoad starts it. */
  lemma InitialNumbering()
    ensures Numbering(NewLevel(InitialState()), 0, {})
  {
    var st := NewLevel(InitialState());
    assert st.levels == [LevelState(1, [])];
    assert Blocks(st.levels, 0) == {1} by {
      assert st.levels[0].blkno == 1;
    }
  }

  /**
   * What gistBuildAdd does to the page of level l: it is closed exactly when
   * the tuple does not fit or the page is below the fill target and holds
   * enough tuples; a closed page is non-empty, is written with the next
   * block as its right link, and leaves its union downlink last on level l + 1.
   */
  lemma AddClosesIff(env: LoadEnv, st: LoadState, l: nat, itup: IndexTuple)
    requires WellFormedEnv(env) && l < |st.levels| && Numbering(st, 0, {})
    requires BuildAdd(env, st, l, itup).Ok?
    ensures var r := BuildAdd(env, st, l, itup).value;
            var page := st.levels[l];
            var pgspc := PageFreeSpace(page.items);
            var itupsz := MaxAlign(itup.size);
            ((r.levels[l].blkno != page.blkno)
               <==> (pgspc < itupsz || (pgspc < env.full && |page.items| >= env.rules.minItemsForFill)))
            && (r.levels[l].blkno != page.blkno ==>
                  (page.items != [] && r.levels[l] == LevelState(st.alloced, [itup])
                   && page.blkno in r.written && r.written[page.blkno] == SortedPage(l, page.items, st.alloced)
                   && Last(r.levels[l + 1].items) == env.union(page.items).(tid := page.blkno)))
            && (r.levels[l].blkno == page.blkno ==>
                  r.levels[l].items == page.items + [itup] && r.written == st.written && r.alloced == st.alloced)
  {
    var page := st.levels[l];
    assert page.blkno in Blocks(st.levels, 0);
    if MustClose(env, page.items, MaxAlign(itup.size)) {
      if page.items == [] {
        EmptyPageStaysOpen(env, MaxAlign(itup.size));
      }
      var st1 := st.(alloced := st.alloced + 1);
      var st2 := if l + 1 == |st.levels| then NewLevel(st1) else st1;
      var st3 := FinishPage(env, st2, l, page.items, page.blkno).value;
      BlocksPrefix(st3.levels, st2.levels, 0, l + 1);
    }
  }

  /** An empty page takes any accepted tuple. */
  lemma EmptyPageStaysOpen(env: LoadEnv, itupsz: nat)
    requires WellFormedEnv(env) && itupsz <= env.rules.maxItemSize
    ensures !MustClose(env, [], itupsz) && Fits([], itupsz)
  {
    assert GistMaxItemSize == 8144;
  }

  /** Under TwoFit a page of at most one accepted tuple takes any accepted tuple. */
  lemma FewItemsStayOpen(env: LoadEnv, items: seq<IndexTuple>, itupsz: nat)
    requires WellFormedEnv(env) && TwoFit(env.rules) && |items| <= 1 && itupsz <= env.rules.maxItemSize
    requires forall i :: 0 <= i < |items| ==> MaxAlign(items[i].size) <= env.rules.maxItemSize
    ensures !MustClose(env, items, itupsz)
  {
    assert GistMaxItemSize == 8144;
    if |items| == 1 {
      assert items[..0] == [];
      assert ItemsSpace(items) == MaxAlign(items[0].size) + ItemIdSize;
    }
  }

  /** Under TwoFit a closed page of accepted tuples holds at least two of them. */
  lemma TwoFitClosesFullPages(env: LoadEnv, items: seq<IndexTuple>, itup: IndexTuple)
    requires WellFormedEnv(env) && TwoFit(env.rules)
    requires forall i :: 0 <= i < |items| ==> MaxAlign(items[i].size) <= env.rules.maxItemSize
    requires MaxAlign(itup.size) <= env.rules.maxItemSize && MustClose(env, items, MaxAlign(itup.size))
    ensures |items| >= 2
  {
    if |items| < 2 {
      FewItemsStayOpen(env, items, MaxAlign(itup.size));
    }
  }

  /** Under TwoFit a page holding one accepted tuple cannot be closed. */
  lemma TwoFitSingleNeverCloses(env: LoadEnv, items: seq<IndexTuple>)
    requires TwoFit(env.rules) && |items| == 1 && MaxAlign(items[0].size) <= env.rules.maxItemSize
    ensures NeverCloses(env, items)
  {
    assert items[..0] == [];
    assert ItemsSpace(items) == MaxAlign(items[0].size) + ItemIdSize;
  }

  /** The rank of gistUpperShutdown at level s: a top page no tuple can close counts one less. */
  function ShutdownRank(env: LoadEnv, st: LoadState, s: nat): nat
    requires s < |st.levels|
  {
    2 * (|st.levels| - s) + (if NeverCloses(env, Last(st.levels).items) then 0 else 1)
  }

  /**
   * gistUpperShutdown under rules where every page holds two tuples: from
   * level s up, the union of each level's last page goes to the level above
   * and the page is written with no right link; the top page is written at
   * the root block.
   */
  function Shutdown(env: LoadEnv, st: LoadState, s: nat): (r: Result<LoadState, SortError>)
    requires WellFormedEnv(env) && TwoFit(env.rules) && s < |st.levels|
    ensures r.Ok? ==> |r.value.levels| >= |st.levels| && GIST_ROOT_BLKNO in r.value.written
    ensures r.Ok? ==> r.value.written[GIST_ROOT_BLKNO] == SortedPage(|r.value.levels| - 1, Last(r.value.levels).items, InvalidBlockNumber)
    ensures r.Err? ==> r.error.RowTooBig? ==> r.error.size > env.rules.maxItemSize
    ensures r.Err? && PositiveUnion(env) ==> r.error.RowTooBig?
    decreases ShutdownRank(env, st, s)
  {
    var page := st.levels[s];
    if s + 1 == |st.levels| then
      Ok(st.(levels := st.levels[s := page.(blkno := GIST_ROOT_BLKNO)],
             written := st.written[GIST_ROOT_BLKNO := SortedPage(s, page.items, InvalidBlockNumber)]))
    else
      match FinishPage(env, st, s, page.items, page.blkno)
      case Err(e) => Err(e)
      case Ok(st1) =>
        var st2 := st1.(written := st1.written[page.blkno := SortedPage(s, page.items, InvalidBlockNumber)]);
        assert ShutdownRank(env, st2, s + 1) < ShutdownRank(env, st, s) by {
          if |st1.levels| != |st.levels| {
            TwoFitSingleNeverCloses(env, Last(st1.levels).items);
          }
        }
        Shutdown(env, st2, s + 1)
  }

  /** Writing the open page of level `from` hands its block over to the written pages. */
  lemma WriteLowest(st: LoadState, from: nat, reserved: set<BlockNumber>, p: SortedPage)
    requires from < |st.levels| && Numbering(st, from, reserved)
    ensures Numbering(st.(written := st.written[st.levels[from].blkno := p]), from + 1, reserved)
  {
    var b0 := st.levels[from].blkno;
    assert Blocks(st.levels, from) == Blocks(st.levels, from + 1) + {b0} by {
      forall b | b in Blocks(st.levels, from) ensures b in Blocks(st.levels, from + 1) + {b0} {
        var i :| from <= i < |st.levels| && st.levels[i].blkno == b;
      }
    }
    assert b0 !in Blocks(st.levels, from + 1) by {
      forall i | from + 1 <= i < |st.levels| ensures st.levels[i].blkno != b0 {
        assert from < i;
      }
    }
  }

  /** Numbering from level `from` holds from any lower level too, less the written blocks. */
  lemma NumberingPrefix(a: LoadState, b: LoadState, from: nat, k: nat, reserved: set<BlockNumber>)
    requires from <= k <= |a.levels| && k <= |b.levels| && a.levels[..k] == b.levels[..k]
    ensures forall i :: from <= i < k ==> a.levels[i] == b.levels[i]
  {
    forall i | from <= i < k ensures a.levels[i] == b.levels[i] {
      assert a.levels[i] == a.levels[..k][i] && b.levels[i] == b.levels[..k][i];
    }
  }

  /** The root block and every block handed out except `hole` are written, and nothing else. */
  ghost predicate WrittenAllBut(st: LoadState, hole: BlockNumber) {
    GIST_ROOT_BLKNO < hole < st.alloced
    && forall b: BlockNumber :: b in st.written <==> (b == GIST_ROOT_BLKNO || (GIST_ROOT_BLKNO < b < st.alloced && b != hole))
  }

  /**
   * After gistUpperShutdown every block handed out is written except the
   * one first given to the top level, whose page went to the root block.
   */
  lemma {:induction false} ShutdownWritesAll(env: LoadEnv, st: LoadState, s: nat)
    requires WellFormedEnv(env) && TwoFit(env.rules) && s < |st.levels| && Numbering(st, s, {})
    ensures Shutdown(env, st, s).Ok? ==> exists hole: BlockNumber :: WrittenAllBut(Shutdown(env, st, s).value, hole)
    decreases ShutdownRank(env, st, s)
  {
    var page := st.levels[s];
    if s + 1 == |st.levels| {
      var r := Shutdown(env, st, s).value;
      assert Blocks(st.levels, s) == {page.blkno};
      assert GIST_ROOT_BLKNO < page.blkno < r.alloced;
      forall b: BlockNumber
        ensures b in r.written <==> (b == GIST_ROOT_BLKNO || (GIST_ROOT_BLKNO < b < r.alloced && b != page.blkno))
      {
        assert (GIST_ROOT_BLKNO + 1 <= b < st.alloced) <==> (b in st.written || b in Blocks(st.levels, s));
      }
      assert WrittenAllBut(r, page.blkno);
    } else {
      FinishPageNumbering(env, st, s, page.items, page.blkno, s, {});
      if FinishPage(env, st, s, page.items, page.blkno).Ok? {
        var st1 := FinishPage(env, st, s, page.items, page.blkno).value;
        NumberingPrefix(st1, st, s, s + 1, {});
        var st2 := st1.(written := st1.written[page.blkno := SortedPage(s, page.items, InvalidBlockNumber)]);
        WriteLowest(st1, s, {}, SortedPage(s, page.items, InvalidBlockNumber));
        assert ShutdownRank(env, st2, s + 1) < ShutdownRank(env, st, s) by {
          if |st1.levels| != |st.levels| {
            TwoFitSingleNeverCloses(env, Last(st1.levels).items);
          }
        }
        assert Shutdown(env, st, s) == Shutdown(env, st2, s + 1);
        ShutdownWritesAll(env, st2, s + 1);
      }
    }
  }

  /** The loop of gistLoad: every sorted tuple goes onto the leaf level in turn. */
  function AddAll(env: LoadEnv, st: LoadState, tuples: seq<IndexTuple>): (r: Result<LoadState, SortError>)
    requires WellFormedEnv(env) && |st.levels| > 0
    ensures r.Ok? ==> |r.value.levels| >= |st.levels|
    ensures r.Ok? && tuples != [] ==> r.value.levels[0].items != [] && Last(r.value.levels[0].items) == Last(tuples)
    ensures r.Err? ==> r.error.RowTooBig? ==> r.error.size > env.rules.maxItemSize
    ensures r.Err? && PositiveUnion(env) && (forall t :: t in tuples ==> t.size > 0) ==> r.error.RowTooBig?
    decreases |tuples|
  {
    if tuples == [] then Ok(st)
    else
      match BuildAdd(env, st, 0, tuples[0])
      case Err(e) => Err(e)
      case Ok(st1) =>
        var r := AddAll(env, st1, tuples[1..]);
        assert tuples[1..] != [] ==> Last(tuples[1..]) == Last(tuples);
        assert forall t :: t in tuples[1..] ==> t in tuples;
        r
  }

  /** gistLoad (with the block counter set past the root by gistLeafBuild), under rules that keep two tuples per page. */
  function SortedLoad(env: LoadEnv, tuples: seq<IndexTuple>): (r: Result<LoadState, SortError>)
    requires WellFormedEnv(env) && TwoFit(env.rules)
    ensures r.Err? ==> r.error.RowTooBig? ==> r.error.size > env.rules.maxItemSize
    ensures r.Err? && PositiveUnion(env) && (forall t :: t in tuples ==> t.size > 0) ==> r.error.RowTooBig?
  {
    match AddAll(env, NewLevel(InitialState()), tuples)
    case Err(e) => Err(e)
    case Ok(st) => Shutdown(env, st, 0)
  }

  lemma {:induction false} AddAllNumbering(env: LoadEnv, st: LoadState, tuples: seq<IndexTuple>)
    requires WellFormedEnv(env) && |st.levels| > 0 && Numbering(st, 0, {})
    ensures AddAll(env, st, tuples).Ok? ==> Numbering(AddAll(env, st, tuples).value, 0, {})
    decreases |tuples|
  {
    if tuples != [] {
      BuildAddNumbering(env, st, 0, tuples[0], 0, {});
      if BuildAdd(env, st, 0, tuples[0]).Ok? {
        AddAllNumbering(env, BuildAdd(env, st, 0, tuples[0]).value, tuples[1..]);
      }
    }
  }

  /**
   * A completed load has written the root and every block it numbered but
   * one, and no block twice: the blocks follow one another from the root.
   */
  lemma LoadWritesAll(env: LoadEnv, tuples: seq<IndexTuple>)
    requires WellFormedEnv(env) && TwoFit(env.rules)
    ensures SortedLoad(env, tuples).Ok? ==> exists hole: BlockNumber :: WrittenAllBut(SortedLoad(env, tuples).value, hole)
  {
    InitialNumbering();
    AddAllNumbering(env, NewLevel(InitialState()), tuples);
    var a := AddAll(env, NewLevel(InitialState()), tuples);
    if a.Ok? {
      ShutdownWritesAll(env, a.value, 0);
    }
  }

  /**
   * gistUpperShutdown as written, for any rules: the same steps as Shutdown,
   * given a bound on the levels it may visit; None when the bound runs out.
   */
  function ShutdownFuel(env: LoadEnv, st: LoadState, s: nat, fuel: nat): (r: Option<Result<LoadState, SortError>>)
    requires WellFormedEnv(env) && s < |st.levels|
    decreases fuel
  {
    var page := st.levels[s];
    if fuel == 0 then None
    else if s + 1 == |st.levels| then
      Some(Ok(st.(levels := st.levels[s := page.(blkno := GIST_ROOT_BLKNO)],
                  written := st.written[GIST_ROOT_BLKNO := SortedPage(s, page.items, InvalidBlockNumber)])))
    else
      match FinishPage(env, st, s, page.items, page.blkno)
      case Err(e) => Some(Err(e))
      case Ok(st1) =>
        ShutdownFuel(env, st1.(written := st1.written[page.blkno := SortedPage(s, page.items, InvalidBlockNumber)]), s + 1, fuel - 1)
  }

  /** Under TwoFit the as-written loop, given enough fuel, ends where Shutdown does. */
  lemma {:induction false} ShutdownFuelAgrees(env: LoadEnv, st: LoadState, s: nat, fuel: nat)
    requires WellFormedEnv(env) && TwoFit(env.rules) && s < |st.levels|
    ensures ShutdownFuel(env, st, s, fuel).Some? ==> ShutdownFuel(env, st, s, fuel).value == Shutdown(env, st, s)
    ensures fuel >= ShutdownRank(env, st, s) ==> ShutdownFuel(env, st, s, fuel).Some?
    decreases fuel
  {
    var page := st.levels[s];
    if fuel > 0 && s + 1 < |st.levels| {
      match FinishPage(env, st, s, page.items, page.blkno)
      case Err(e) =>
      case Ok(st1) =>
        var st2 := st1.(written := st1.written[page.blkno := SortedPage(s, page.items, InvalidBlockNumber)]);
        assert ShutdownRank(env, st2, s + 1) < ShutdownRank(env, st, s) by {
          if |st1.levels| != |st.levels| {
            TwoFitSingleNeverCloses(env, Last(st1.levels).items);
          }
        }
        ShutdownFuelAgrees(env, st2, s + 1, fuel - 1);
    }
  }

  /** gistLoad as written: the tuples, then the shutdown loop with a bound on its steps. */
  function LoadFuel(env: LoadEnv, tuples: seq<IndexTuple>, fuel: nat): (r: Option<Result<LoadState, SortError>>)
    requires WellFormedEnv(env)
  {
    match AddAll(env, NewLevel(InitialState()), tuples)
    case Err(e) => Some(Err(e))
    case Ok(st) => ShutdownFuel(env, st, 0, fuel)
  }

  /** A tuple of 7400 bytes, more than half a page and within GistMaxItemSize. */
  const BigSize: nat := 7400

  /** The union of one tuple is that tuple; a union of none does not occur. */
  function UnionOfFirst(items: seq<IndexTuple>): IndexTuple {
    if items == [] then IndexTuple(0, 0, BigSize) else items[0]
  }

  /** The as-written rules with the default fill factor of 90: btps_full = 8192 * 10 / 100. */
  const Env90: LoadEnv := LoadEnv(AsWritten, UnionOfFirst, BLCKSZ * (100 - 90) / 100)

  /** Level s + 1 is the top and holds one big tuple; level s has a big first tuple. */
  ghost predicate Stuck(st: LoadState, s: nat) {
    s + 2 == |st.levels| && st.levels[s].items != [] && st.levels[s].items[0].size == BigSize
    && |st.levels[s + 1].items| == 1 && st.levels[s + 1].items[0].size == BigSize
  }

  lemma BigFacts()
    ensures MaxAlign(BigSize) == BigSize && GistMaxItemSize == 8144 && WellFormedEnv(Env90)
    ensures forall t: IndexTuple :: t.size == BigSize ==> PageFreeSpace([t]) == 744
  {
    assert MaxAlign(BigSize) == BigSize;
    forall t: IndexTuple | t.size == BigSize ensures PageFreeSpace([t]) == 744 {
      assert [t][..0] == [];
      assert ItemsSpace([t]) == BigSize + ItemIdSize;
    }
  }

  /** A stuck shutdown step: the big downlink splits the one-tuple top page, which adds a level. */
  lemma StuckStep(st: LoadState, s: nat)
    requires Stuck(st, s)
    ensures WellFormedEnv(Env90)
    ensures FinishPage(Env90, st, s, st.levels[s].items, st.levels[s].blkno).Ok?
    ensures var st1 := FinishPage(Env90, st, s, st.levels[s].items, st.levels[s].blkno).value;
            Stuck(st1.(written := st1.written[st.levels[s].blkno := SortedPage(s, st.levels[s].items, InvalidBlockNumber)]), s + 1)
  {
    BigFacts();
    var page := st.levels[s];
    var up := UnionOfFirst(page.items).(tid := page.blkno);
    assert up.size == BigSize;
    var top := st.levels[s + 1];
    assert PageFreeSpace(top.items) == 744 by {
      assert top.items == [top.items[0]];
    }
    assert MustClose(Env90, top.items, MaxAlign(up.size));
    var st1 := st.(alloced := st.alloced + 1);
    var st2 := NewLevel(st1);
    var up2 := UnionOfFirst(top.items).(tid := top.blkno);
    EmptyPageStaysOpen(Env90, MaxAlign(up2.size));
    assert st2.levels[s + 2].items == [];
    var st3 := BuildAdd(Env90, st2, s + 2, up2);
    assert st3.Ok?;
    assert FinishPage(Env90, st2, s + 1, top.items, top.blkno) == st3;
  }

  lemma {:induction false} StuckForever(st: LoadState, s: nat, fuel: nat)
    requires Stuck(st, s)
    ensures WellFormedEnv(Env90) && ShutdownFuel(Env90, st, s, fuel) == None
    decreases fuel
  {
    StuckStep(st, s);
    if fuel > 0 {
      var st1 := FinishPage(Env90, st, s, st.levels[s].items, st.levels[s].blkno).value;
      StuckForever(st1.(written := st1.written[st.levels[s].blkno := SortedPage(s, st.levels[s].items, InvalidBlockNumber)]), s + 1, fuel - 1);
    }
  }

  /**
   * Two tuples of 7400 bytes each: the second closes the first leaf, whose
   * downlink makes a one-tuple level 1, and from there gistUpperShutdown
   * adds a level at every step and never reaches the top.
   */
  lemma TwoBigTuplesNeverFinish(t1: IndexTuple, t2: IndexTuple, fuel: nat)
    requires t1.size == BigSize && t2.size == BigSize
    ensures WellFormedEnv(Env90) && LoadFuel(Env90, [t1, t2], fuel) == None
  {
    BigFacts();
    var st0 := NewLevel(InitialState());
    EmptyPageStaysOpen(Env90, BigSize);
    var st1 := BuildAdd(Env90, st0, 0, t1);
    assert st1.Ok? && st1.value.levels == [LevelState(1, [t1])];
    assert MustClose(Env90, [t1], BigSize);
    var s1 := st1.value.(alloced := st1.value.alloced + 1);
    var s2 := NewLevel(s1);
    assert s2.levels[1].items == [];
    var up := UnionOfFirst([t1]).(tid := 1);
    assert BuildAdd(Env90, s2, 1, up).Ok?;
    assert FinishPage(Env90, s2, 0, [t1], 1).Ok?;
    var st2 := BuildAdd(Env90, st1.value, 0, t2);
    assert st2.Ok?;
    assert Stuck(st2.value, 0);
    assert [t1, t2][1..] == [t2] && [t2][1..] == [];
    assert AddAll(Env90, st2.value, []) == st2;
    assert AddAll(Env90, st1.value, [t2]) == st2;
    assert AddAll(Env90, st0, [t1, t2]) == st2;
    StuckForever(st2.value, 0, fuel);
  }

  /**
   * The loader's GistWriteState and its chain of GistPageStates, updated in
   * place: one entry of `levels` per GistPageState, in btps_next order.
   */
  class SortedLoader {
    const env: LoadEnv
    var levels: seq<LevelState>
    var alloced: nat
    var written: map<BlockNumber, SortedPage>

    function State(): LoadState
      reads this
    {
      LoadState(levels, alloced, written)
    }

    /** gistLeafBuild: the block counter starts past the root block. */
    constructor (env: LoadEnv)
      ensures this.env == env && State() == InitialState()
    {
      this.env := env;
      levels := [];
      alloced := GIST_ROOT_BLKNO + 1;
      written := map[];
    }

    /** gistPageState: open a page for a new top level at the next block. */
    method PageState()
      modifies this
      ensures State() == NewLevel(old(State()))
    {
      levels := levels + [LevelState(alloced, [])];
      alloced := alloced + 1;
    }

    /** gistBuildAdd on the page of level l. */
    method Add(l: nat, itup: IndexTuple) returns (res: Result<(), SortError>)
      requires WellFormedEnv(env) && l < |levels|
      modifies this
      ensures res.Ok? == BuildAdd(env, old(State()), l, itup).Ok?
      ensures res.Ok? ==> State() == BuildAdd(env, old(State()), l, itup).value
      ensures res.Err? ==> res.error == BuildAdd(env, old(State()), l, itup).error
      decreases AddRank(State(), l), 0
    {
      var page := levels[l];
      var itupsz := MaxAlign(itup.size);
      if itupsz > env.rules.maxItemSize {
        return Err(RowTooBig(itupsz));
      }
      if MustClose(env, page.items, itupsz) {
        var nblkno := alloced;
        alloced := alloced + 1;
        if l + 1 == |levels| {
          PageState();
        }
        res := Finish(l, page.items, page.blkno);
        if res.Err? {
          return;
        }
        written := written[page.blkno := SortedPage(l, page.items, nblkno)];
        levels := levels[l := LevelState(nblkno, [itup])];
      } else if !Fits(page.items, itupsz) {
        return Err(AddFailed);
      } else {
        levels := levels[l := LevelState(page.blkno, page.items + [itup])];
        res := Ok(());
      }
    }

    /** gistFinishPage: the union downlink of a closed page of level l goes onto level l + 1. */
    method Finish(l: nat, items: seq<IndexTuple>, blkno: BlockNumber) returns (res: Result<(), SortError>)
      requires WellFormedEnv(env) && l + 1 < |levels|
      modifies this
      ensures res.Ok? == FinishPage(env, old(State()), l, items, blkno).Ok?
      ensures res.Ok? ==> State() == FinishPage(env, old(State()), l, items, blkno).value
      ensures res.Err? ==> res.error == FinishPage(env, old(State()), l, items, blkno).error
      decreases 2 * (|levels| - l - 1) + (if levels[l + 1].items == [] then 0 else 1), 1
    {
      var unionTuple := env.union(items).(tid := blkno);
      res := Add(l + 1, unionTuple);
    }

    /** gistUpperShutdown: link the last page of every level upward and write the top page at the root. */
    method UpperShutdown() returns (res: Result<(), SortError>)
      requires WellFormedEnv(env) && TwoFit(env.rules) && |levels| > 0
      modifies this
      ensures res.Ok? == Shutdown(env, old(State()), 0).Ok?
      ensures res.Ok? ==> State() == Shutdown(env, old(State()), 0).value
      ensures res.Err? ==> res.error == Shutdown(env, old(State()), 0).error
    {
      var s := 0;
      while s < |levels|
        invariant s < |levels| ==> Shutdown(env, State(), s) == Shutdown(env, old(State()), 0)
        invariant s == |levels| ==> Shutdown(env, old(State()), 0) == Ok(State())
        invariant s <= |levels|
        decreases if s < |levels| then ShutdownRank(env, State(), s) + 1 else 0
      {
        var blkno := levels[s].blkno;
        var items := levels[s].items;
        if s + 1 == |levels| {
          levels := levels[s := LevelState(GIST_ROOT_BLKNO, items)];
          written := written[GIST_ROOT_BLKNO := SortedPage(s, items, InvalidBlockNumber)];
        } else {
          ghost var before := State();
          res := Finish(s, items, blkno);
          if res.Err? {
            return;
          }
          written := written[blkno := SortedPage(s, items, InvalidBlockNumber)];
          assert ShutdownRank(env, State(), s + 1) < ShutdownRank(env, before, s) by {
            if |levels| != |before.levels| {
              TwoFitSingleNeverCloses(env, Last(levels).items);
            }
          }
        }
        s := s + 1;
      }
      res := Ok(());
    }

    /** gistLoad: a leaf level, every sorted tuple in turn, then the shutdown. */
    method Load(tuples: seq<IndexTuple>) returns (res: Result<(), SortError>)
      requires WellFormedEnv(env) && TwoFit(env.rules) && State() == InitialState()
      modifies this
      ensures res.Ok? == SortedLoad(env, tuples).Ok?
      ensures res.Ok? ==> State() == SortedLoad(env, tuples).value
      ensures res.Err? ==> res.error == SortedLoad(env, tuples).error
    {
      PageState();
      ghost var start := State();
      var i := 0;
      while i < |tuples|
        invariant 0 <= i <= |tuples| && |levels| > 0
        invariant AddAll(env, start, tuples) == AddAll(env, State(), tuples[i..])
      {
        assert tuples[i..][0] == tuples[i] && tuples[i..][1..] == tuples[i + 1..];
        res := Add(0, tuples[i]);
        if res.Err? {
          return;
        }
        i := i + 1;
      }
      res := UpperShutdown();
    }
  }
}
