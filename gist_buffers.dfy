/**
 * The node buffers of a GiST buffering build (GISTBuildBuffers): the buffers
 * attached to internal pages at buffered levels, the emptying queue and the
 * per-level buffer lists.
 *
 * Node buffers live in an arena; the queue and the level lists hold arena
 * indices, the way the C code holds pointers to GISTNodeBuffer. A buffer is
 * found by its (block, level) pair. Its tuples are a sequence: a push
 * appends, a pop takes the last one.
 */
module GistBuffers {
  import opened Wrappers
  import opened GistPages

  datatype NodeBuffer = NodeBuffer(blk: BlockNumber, level: nat, tuples: seq<IndexTuple>, queued: bool)

  /** How far the tuples of one buffer still have to travel down. */
  function Load(b: NodeBuffer): nat {
    b.level * |b.tuples|
  }

  /** The sum of level × tuple count over all buffers; buffer emptying lowers it. */
  function Weight(bs: seq<NodeBuffer>): nat {
    if |bs| == 0 then 0 else Weight(bs[..|bs| - 1]) + Load(bs[|bs| - 1])
  }

  lemma {:induction false} WeightUpdate(bs: seq<NodeBuffer>, i: nat, nb: NodeBuffer)
    requires i < |bs|
    ensures Weight(bs[i := nb]) + Load(bs[i]) == Weight(bs) + Load(nb)
  {
    var n := |bs|;
    if i == n - 1 {
      assert bs[i := nb][..n - 1] == bs[..n - 1];
    } else {
      WeightUpdate(bs[..n - 1], i, nb);
      assert bs[i := nb][..n - 1] == bs[..n - 1][i := nb];
    }
  }

  /** One more tuple in a buffer adds its level to the load. */
  lemma LoadPush(b: NodeBuffer, t: IndexTuple)
    ensures Load(b.(tuples := b.tuples + [t])) == Load(b) + b.level
  {
    calc {
      Load(b.(tuples := b.tuples + [t]));
      b.level * (|b.tuples| + 1);
      b.level * |b.tuples| + b.level;
    }
  }

  lemma WeightAppend(bs: seq<NodeBuffer>, nb: NodeBuffer)
    ensures Weight(bs + [nb]) == Weight(bs) + Load(nb)
  {
    assert (bs + [nb])[..|bs|] == bs;
  }

  /** The tuples of every buffer, by arena index. */
  function TuplesOf(bs: seq<NodeBuffer>): seq<seq<IndexTuple>> {
    seq(|bs|, i requires 0 <= i < |bs| => bs[i].tuples)
  }

  /** Every buffer that `es` names exists in `bs` and holds no tuples. */
  predicate EmptyAt(bs: seq<NodeBuffer>, es: seq<nat>) {
    forall k :: 0 <= k < |es| ==> es[k] < |bs| && bs[es[k]].tuples == []
  }

  lemma EmptyAtSnoc(bs: seq<NodeBuffer>, es: seq<nat>, n: nat)
    requires n < |es| && EmptyAt(bs, es[..n]) && es[n] < |bs| && bs[es[n]].tuples == []
    ensures EmptyAt(bs, es[..n + 1])
  {
    assert es[..n + 1] == es[..n] + [es[n]];
    var es' := es[..n + 1];
    forall k | 0 <= k < |es'|
      ensures es'[k] < |bs| && bs[es'[k]].tuples == []
    {
      if k < n {
        assert es'[k] == es[..n][k];
      }
    }
  }

  /** The buffers of `after` extend those of `before`, with the same blocks and levels. */
  predicate Extends(before: seq<NodeBuffer>, after: seq<NodeBuffer>) {
    |before| <= |after|
    && forall i :: 0 <= i < |before| ==> after[i].blk == before[i].blk && after[i].level == before[i].level
  }

  /** Growing the buffer array at its end keeps every earlier buffer and its tuples. */
  lemma GrowthExtends(bs: seq<NodeBuffer>, bs': seq<NodeBuffer>)
    requires |bs| <= |bs'| && bs'[..|bs|] == bs
    ensures Extends(bs, bs') && TuplesOf(bs')[..|bs|] == TuplesOf(bs)
  {
    forall i | 0 <= i < |bs|
      ensures bs'[i] == bs[i]
    {
      assert bs'[..|bs|][i] == bs'[i];
    }
  }

  function FindFrom(bs: seq<NodeBuffer>, blk: BlockNumber, level: nat, from: nat): (r: Option<nat>)
    ensures r.Some? ==> from <= r.value < |bs| && bs[r.value].blk == blk && bs[r.value].level == level
    ensures r.None? ==> forall i :: from <= i < |bs| ==> !(bs[i].blk == blk && bs[i].level == level)
    decreases |bs| - from
  {
    if from >= |bs| then None
    else if bs[from].blk == blk && bs[from].level == level then Some(from)
    else FindFrom(bs, blk, level, from + 1)
  }

  /** The buffer of page blk at the given level, if it has one (the node-buffer hash lookup). */
  function FindBuffer(bs: seq<NodeBuffer>, blk: BlockNumber, level: nat): (r: Option<nat>)
    ensures r.Some? ==> r.value < |bs| && bs[r.value].blk == blk && bs[r.value].level == level
    ensures r.None? ==> forall i :: 0 <= i < |bs| ==> !(bs[i].blk == blk && bs[i].level == level)
  {
    FindFrom(bs, blk, level, 0)
  }

  /**
   * Buffers sit on internal levels; the queue holds each buffer at most
   * once, exactly the buffers flagged queuedForEmptying; level list l holds
   * buffers of level l.
   */
  ghost predicate ValidState(bs: seq<NodeBuffer>, q: seq<nat>, lists: seq<seq<nat>>) {
    && (forall i :: 0 <= i < |bs| ==> bs[i].level >= 1)
    && (forall k :: 0 <= k < |q| ==> q[k] < |bs|)
    && (forall k, l :: 0 <= k < l < |q| ==> q[k] != q[l])
    && (forall i :: 0 <= i < |bs| ==> (bs[i].queued <==> i in q))
    && (forall l, k :: 0 <= l < |lists| && 0 <= k < |lists[l]| ==>
          lists[l][k] < |bs| && bs[lists[l][k]].level == l)
  }

  /** Buffer i is on the list of its level. */
  ghost predicate ListedIn(bs: seq<NodeBuffer>, lists: seq<seq<nat>>, i: nat)
    requires i < |bs|
  {
    bs[i].level < |lists| && i in lists[bs[i].level]
  }

  ghost predicate AllListedIn(bs: seq<NodeBuffer>, lists: seq<seq<nat>>) {
    forall i :: 0 <= i < |bs| ==> ListedIn(bs, lists, i)
  }

  /**
   * The state of the final flush while it works on level s: buffers above s
   * are empty, those below are all listed, and a non-empty buffer is listed.
   */
  ghost predicate StagedIn(bs: seq<NodeBuffer>, lists: seq<seq<nat>>, s: int) {
    forall i :: 0 <= i < |bs| ==>
      && (bs[i].level > s ==> bs[i].tuples == [])
      && (bs[i].level < s ==> ListedIn(bs, lists, i))
      && (bs[i].tuples != [] ==> ListedIn(bs, lists, i))
  }

  /** Replacing one buffer by another of the same level with the queue adjusted to its flag keeps the invariant. */
  lemma ReplaceKeepsValid(bs: seq<NodeBuffer>, q: seq<nat>, lists: seq<seq<nat>>, idx: nat, nb: NodeBuffer, q': seq<nat>)
    requires ValidState(bs, q, lists) && idx < |bs| && nb.level == bs[idx].level
    requires nb.queued == bs[idx].queued ==> q' == q
    requires nb.queued && !bs[idx].queued ==> q' == [idx] + q
    requires !nb.queued && bs[idx].queued ==> |q| > 0 && q[0] == idx && q' == q[1..]
    ensures ValidState(bs[idx := nb], q', lists)
    ensures forall i :: 0 <= i < |bs| ==> (ListedIn(bs, lists, i) <==> ListedIn(bs[idx := nb], lists, i))
    ensures AllListedIn(bs, lists) ==> AllListedIn(bs[idx := nb], lists)
  {
    var bs' := bs[idx := nb];
    if !nb.queued && bs[idx].queued {
      forall k | 0 <= k < |q'|
        ensures q'[k] != idx
      {
        assert q[k + 1] != q[0];
      }
    }
    forall i | 0 <= i < |bs'|
      ensures bs'[i].queued <==> i in q'
    {
      if i != idx {
        if !nb.queued && bs[idx].queued && i in q {
          var k :| 0 <= k < |q| && q[k] == i;
          assert k != 0;
          assert q'[k - 1] == i;
        }
      }
    }
    if AllListedIn(bs, lists) {
      forall i | 0 <= i < |bs'|
        ensures ListedIn(bs', lists, i)
      {
        assert ListedIn(bs, lists, i);
      }
    }
  }

  /** The (empty) buffer appended for a new page, put at the front of its level's list. */
  lemma AppendKeepsValid(bs: seq<NodeBuffer>, q: seq<nat>, lists: seq<seq<nat>>, blk: BlockNumber, level: nat, lists': seq<seq<nat>>)
    requires ValidState(bs, q, lists) && level >= 1
    requires |lists'| == if level < |lists| then |lists| else level + 1
    requires lists'[level] == [|bs|] + (if level < |lists| then lists[level] else [])
    requires forall l :: 0 <= l < |lists'| && l != level ==> lists'[l] == if l < |lists| then lists[l] else []
    ensures var bs' := bs + [NodeBuffer(blk, level, [], false)];
      && ValidState(bs', q, lists')
      && ListedIn(bs', lists', |bs|)
      && (forall i :: 0 <= i < |bs| ==> (ListedIn(bs, lists, i) ==> ListedIn(bs', lists', i)))
  {
    var bs' := bs + [NodeBuffer(blk, level, [], false)];
    AppendListsValid(bs, q, lists, blk, level, lists');
    AppendKeepsListed(bs, lists, blk, level, lists');
    assert forall i :: 0 <= i < |bs| ==> bs'[i] == bs[i];
    assert lists'[level][0] == |bs|;
  }

  /** The level lists after the append still hold buffers of their own level. */
  lemma AppendListsValid(bs: seq<NodeBuffer>, q: seq<nat>, lists: seq<seq<nat>>, blk: BlockNumber, level: nat, lists': seq<seq<nat>>)
    requires ValidState(bs, q, lists)
    requires |lists'| == if level < |lists| then |lists| else level + 1
    requires lists'[level] == [|bs|] + (if level < |lists| then lists[level] else [])
    requires forall l :: 0 <= l < |lists'| && l != level ==> lists'[l] == if l < |lists| then lists[l] else []
    ensures var bs' := bs + [NodeBuffer(blk, level, [], false)];
      forall l, k :: 0 <= l < |lists'| && 0 <= k < |lists'[l]| ==> lists'[l][k] < |bs'| && bs'[lists'[l][k]].level == l
  {
    var bs' := bs + [NodeBuffer(blk, level, [], false)];
    forall l, k | 0 <= l < |lists'| && 0 <= k < |lists'[l]|
      ensures lists'[l][k] < |bs'| && bs'[lists'[l][k]].level == l
    {
      if l == level && k > 0 {
        assert lists'[l][k] == lists[l][k - 1];
      }
    }
  }

  /** A buffer listed before the append is still listed after it. */
  lemma AppendKeepsListed(bs: seq<NodeBuffer>, lists: seq<seq<nat>>, blk: BlockNumber, level: nat, lists': seq<seq<nat>>)
    requires |lists'| == if level < |lists| then |lists| else level + 1
    requires level < |lists'| && lists'[level] == [|bs|] + (if level < |lists| then lists[level] else [])
    requires forall l :: 0 <= l < |lists'| && l != level ==> lists'[l] == if l < |lists| then lists[l] else []
    ensures var bs' := bs + [NodeBuffer(blk, level, [], false)];
      forall i :: 0 <= i < |bs| ==> (ListedIn(bs, lists, i) ==> ListedIn(bs', lists', i))
  {
    var bs' := bs + [NodeBuffer(blk, level, [], false)];
    forall i | 0 <= i < |bs| && ListedIn(bs, lists, i)
      ensures ListedIn(bs', lists', i)
    {
      assert bs'[i] == bs[i];
      var l := bs[i].level;
      if l == level {
        assert lists'[l] == [|bs|] + lists[l];
      }
    }
  }

  /** Dropping an empty buffer from the head of level list l keeps the invariant and the flush state at l. */
  lemma RemoveKeepsValid(bs: seq<NodeBuffer>, q: seq<nat>, lists: seq<seq<nat>>, l: nat)
    requires ValidState(bs, q, lists) && l < |lists| && lists[l] != [] && bs[lists[l][0]].tuples == []
    ensures ValidState(bs, q, lists[l := lists[l][1..]])
    ensures StagedIn(bs, lists, l) ==> StagedIn(bs, lists[l := lists[l][1..]], l)
  {
    var lists' := lists[l := lists[l][1..]];
    forall l', k | 0 <= l' < |lists'| && 0 <= k < |lists'[l']|
      ensures lists'[l'][k] < |bs| && bs[lists'[l'][k]].level == l'
    {
      if l' == l {
        assert lists'[l'][k] == lists[l][k + 1];
      }
    }
    if StagedIn(bs, lists, l) {
      forall i | 0 <= i < |bs| && bs[i].tuples != []
        ensures ListedIn(bs, lists', i)
      {
        var li := bs[i].level;
        if li == l {
          var k :| 0 <= k < |lists[l]| && lists[l][k] == i;
          assert k != 0;
          assert lists'[l][k - 1] == i;
        }
      }
    }
  }

  /**
   * gistGetNodeBuffer on values: the buffer of (blk, level), or a new empty
   * one appended to the arena and put at the head of its level's list.
   */
  function WithBuffer(bs: seq<NodeBuffer>, lists: seq<seq<nat>>, blk: BlockNumber, level: nat)
    : (r: (seq<NodeBuffer>, seq<seq<nat>>, nat))
    ensures r.2 < |r.0| && r.0[r.2].blk == blk && r.0[r.2].level == level && |r.1| >= |lists|
    ensures FindBuffer(bs, blk, level).Some? ==> r == (bs, lists, FindBuffer(bs, blk, level).value)
    ensures FindBuffer(bs, blk, level).None? ==> r.0 == bs + [NodeBuffer(blk, level, [], false)] && r.2 == |bs|
  {
    match FindBuffer(bs, blk, level)
    case Some(i) => (bs, lists, i)
    case None =>
      var grown := Grow(lists, level);
      (bs + [NodeBuffer(blk, level, [], false)], grown[level := [|bs|] + grown[level]], |bs|)
  }

  /** The level lists, with empty lists added so that `level` has one. */
  function Grow(lists: seq<seq<nat>>, level: nat): (r: seq<seq<nat>>)
    ensures |r| == if level < |lists| then |lists| else level + 1
    ensures forall l :: 0 <= l < |r| ==> r[l] == if l < |lists| then lists[l] else []
  {
    if level < |lists| then lists else lists + seq(level + 1 - |lists|, _ => [])
  }

  lemma WithBufferKeepsValid(bs: seq<NodeBuffer>, q: seq<nat>, lists: seq<seq<nat>>, blk: BlockNumber, level: nat, s: int)
    requires ValidState(bs, q, lists) && level >= 1
    ensures var (bs', lists', i) := WithBuffer(bs, lists, blk, level);
      && ValidState(bs', q, lists')
      && (FindBuffer(bs, blk, level).None? ==> ListedIn(bs', lists', i))
      && (forall j :: 0 <= j < |bs| ==> (ListedIn(bs, lists, j) ==> ListedIn(bs', lists', j)))
      && (AllListedIn(bs, lists) ==> AllListedIn(bs', lists'))
      && (StagedIn(bs, lists, s) ==> StagedIn(bs', lists', s))
      && Weight(bs') == Weight(bs)
  {
    if FindBuffer(bs, blk, level).None? {
      NewBufferKeepsValid(bs, q, lists, blk, level, s);
    } else {
      assert WithBuffer(bs, lists, blk, level) == (bs, lists, FindBuffer(bs, blk, level).value);
    }
  }

  /** The case of WithBufferKeepsValid where a new buffer is appended and listed. */
  lemma NewBufferKeepsValid(bs: seq<NodeBuffer>, q: seq<nat>, lists: seq<seq<nat>>, blk: BlockNumber, level: nat, s: int)
    requires ValidState(bs, q, lists) && level >= 1 && FindBuffer(bs, blk, level).None?
    ensures var (bs', lists', i) := WithBuffer(bs, lists, blk, level);
      && ValidState(bs', q, lists')
      && ListedIn(bs', lists', i)
      && (forall j :: 0 <= j < |bs| ==> (ListedIn(bs, lists, j) ==> ListedIn(bs', lists', j)))
      && (AllListedIn(bs, lists) ==> AllListedIn(bs', lists'))
      && (StagedIn(bs, lists, s) ==> StagedIn(bs', lists', s))
      && Weight(bs') == Weight(bs)
  {
    var nb := NodeBuffer(blk, level, [], false);
    var grown := Grow(lists, level);
    var lists' := grown[level := [|bs|] + grown[level]];
    assert WithBuffer(bs, lists, blk, level) == (bs + [nb], lists', |bs|);
    AppendKeepsValid(bs, q, lists, blk, level, lists');
    WeightAppend(bs, nb);
    AppendedListing(bs, lists, nb, lists', s);
  }

  /** Appending a listed empty buffer keeps every listing and the flush state. */
  lemma AppendedListing(bs: seq<NodeBuffer>, lists: seq<seq<nat>>, nb: NodeBuffer, lists': seq<seq<nat>>, s: int)
    requires nb.tuples == [] && ListedIn(bs + [nb], lists', |bs|)
    requires forall j :: 0 <= j < |bs| ==> (ListedIn(bs, lists, j) ==> ListedIn(bs + [nb], lists', j))
    ensures AllListedIn(bs, lists) ==> AllListedIn(bs + [nb], lists')
    ensures StagedIn(bs, lists, s) ==> StagedIn(bs + [nb], lists', s)
  {
    var bs' := bs + [nb];
    if AllListedIn(bs, lists) {
      forall j | 0 <= j < |bs'|
        ensures ListedIn(bs', lists', j)
      {
        if j < |bs| {
          assert ListedIn(bs, lists, j);
        }
      }
    }
    if StagedIn(bs, lists, s) {
      forall j | 0 <= j < |bs'|
        ensures && (bs'[j].level > s ==> bs'[j].tuples == [])
                && (bs'[j].level < s ==> ListedIn(bs', lists', j))
                && (bs'[j].tuples != [] ==> ListedIn(bs', lists', j))
      {
        if j < |bs| {
          assert bs'[j] == bs[j];
          assert bs[j].level < s || bs[j].tuples != [] ==> ListedIn(bs, lists, j);
        }
      }
    }
  }

  /**
   * gistPushItupToNodeBuffer on values: the tuple appended to buffer idx; a
   * buffer not yet queued that `half` says is half full joins the queue front.
   */
  function Pushed(bs: seq<NodeBuffer>, q: seq<nat>, idx: nat, t: IndexTuple, half: bool): (r: (seq<NodeBuffer>, seq<nat>))
    requires idx < |bs|
    ensures |r.0| == |bs| && r.0[idx].tuples == bs[idx].tuples + [t] && r.0[idx].level == bs[idx].level
    ensures forall j :: 0 <= j < |bs| && j != idx ==> r.0[j] == bs[j]
  {
    var b := bs[idx];
    var enq := half && !b.queued;
    (bs[idx := b.(tuples := b.tuples + [t], queued := b.queued || enq)], if enq then [idx] + q else q)
  }

  /** Listing depends only on levels: buffers with unchanged levels keep their listing. */
  lemma SameLevelsSameListing(bs: seq<NodeBuffer>, bs': seq<NodeBuffer>, lists: seq<seq<nat>>)
    requires |bs| == |bs'| && forall j :: 0 <= j < |bs| ==> bs'[j].level == bs[j].level
    ensures forall j :: 0 <= j < |bs| ==> (ListedIn(bs, lists, j) <==> ListedIn(bs', lists, j))
    ensures AllListedIn(bs, lists) ==> AllListedIn(bs', lists)
  {
    if AllListedIn(bs, lists) {
      forall j | 0 <= j < |bs'|
        ensures ListedIn(bs', lists, j)
      {
        assert ListedIn(bs, lists, j);
      }
    }
  }

  lemma PushedKeepsValid(bs: seq<NodeBuffer>, q: seq<nat>, lists: seq<seq<nat>>, idx: nat, t: IndexTuple, half: bool)
    requires ValidState(bs, q, lists) && idx < |bs|
    ensures ValidState(Pushed(bs, q, idx, t, half).0, Pushed(bs, q, idx, t, half).1, lists)
    ensures Weight(Pushed(bs, q, idx, t, half).0) == Weight(bs) + bs[idx].level
  {
    var b := bs[idx];
    var enq := half && !b.queued;
    var nb := b.(tuples := b.tuples + [t], queued := b.queued || enq);
    var q' := if enq then [idx] + q else q;
    assert Pushed(bs, q, idx, t, half) == (bs[idx := nb], q');
    ReplaceKeepsValid(bs, q, lists, idx, nb, q');
    WeightUpdate(bs, idx, nb);
    LoadPush(b, t);
    assert Load(nb) == Load(b.(tuples := b.tuples + [t]));
  }

  /** Pushing to a listed buffer at or below the flush level keeps the flush state. */
  lemma PushedKeepsStaged(bs: seq<NodeBuffer>, q: seq<nat>, lists: seq<seq<nat>>, idx: nat, t: IndexTuple, half: bool, s: int)
    requires idx < |bs| && StagedIn(bs, lists, s) && ListedIn(bs, lists, idx) && bs[idx].level <= s
    ensures StagedIn(Pushed(bs, q, idx, t, half).0, lists, s)
  {
    var bs' := Pushed(bs, q, idx, t, half).0;
    SameLevelsSameListing(bs, bs', lists);
    forall j | 0 <= j < |bs'|
      ensures && (bs'[j].level > s ==> bs'[j].tuples == [])
              && (bs'[j].level < s ==> ListedIn(bs', lists, j))
              && (bs'[j].tuples != [] ==> ListedIn(bs', lists, j))
    {
      assert ListedIn(bs, lists, j) <==> ListedIn(bs', lists, j);
    }
  }

  /** Taking tuples out of a buffer keeps the flush state: an empty buffer stays empty. */
  lemma ShrinkKeepsStaged(bs: seq<NodeBuffer>, lists: seq<seq<nat>>, idx: nat, nb: NodeBuffer, s: int)
    requires idx < |bs| && nb.level == bs[idx].level && |nb.tuples| <= |bs[idx].tuples|
    requires StagedIn(bs, lists, s)
    ensures StagedIn(bs[idx := nb], lists, s)
  {
    var bs' := bs[idx := nb];
    forall i | 0 <= i < |bs'|
      ensures && (bs'[i].level > s ==> bs'[i].tuples == [])
              && (bs'[i].level < s ==> ListedIn(bs', lists, i))
              && (bs'[i].tuples != [] ==> ListedIn(bs', lists, i))
    {
      assert ListedIn(bs, lists, i) <==> ListedIn(bs', lists, i);
    }
  }

  /** Popping one tuple off a buffer lowers its load by its level. */
  lemma LoadPop(b: NodeBuffer)
    requires b.tuples != []
    ensures Load(b) == Load(b.(tuples := b.tuples[..|b.tuples| - 1])) + b.level
  {
    var nb := b.(tuples := b.tuples[..|b.tuples| - 1]);
    assert |b.tuples| == |nb.tuples| + 1;
    assert b.level * (|nb.tuples| + 1) == b.level * |nb.tuples| + b.level;
  }

  /** Everything a pop keeps, in one place for the method that does it. */
  lemma PoppedKeeps(bs: seq<NodeBuffer>, q: seq<nat>, lists: seq<seq<nat>>, idx: nat, s: int)
    requires ValidState(bs, q, lists) && idx < |bs| && bs[idx].tuples != []
    ensures var b := bs[idx];
      var bs' := bs[idx := b.(tuples := b.tuples[..|b.tuples| - 1])];
      && ValidState(bs', q, lists) && Extends(bs, bs') && Weight(bs') + b.level == Weight(bs)
      && (AllListedIn(bs, lists) ==> AllListedIn(bs', lists))
      && (StagedIn(bs, lists, s) ==> StagedIn(bs', lists, s))
  {
    var b := bs[idx];
    var nb := b.(tuples := b.tuples[..|b.tuples| - 1]);
    ReplaceKeepsValid(bs, q, lists, idx, nb, q);
    WeightUpdate(bs, idx, nb);
    LoadPop(b);
    if StagedIn(bs, lists, s) {
      ShrinkKeepsStaged(bs, lists, idx, nb, s);
    }
  }

  /** Everything a push keeps, in one place for the method that does it. */
  lemma PushedKeeps(bs: seq<NodeBuffer>, q: seq<nat>, lists: seq<seq<nat>>, idx: nat, t: IndexTuple, half: bool, s: int)
    requires ValidState(bs, q, lists) && idx < |bs|
    ensures var (bs', q') := Pushed(bs, q, idx, t, half);
      && ValidState(bs', q', lists) && Weight(bs') == Weight(bs) + bs[idx].level && Extends(bs, bs')
      && (AllListedIn(bs, lists) ==> AllListedIn(bs', lists))
      && (StagedIn(bs, lists, s) && ListedIn(bs', lists, idx) && bs[idx].level <= s ==> StagedIn(bs', lists, s))
  {
    var (bs', q') := Pushed(bs, q, idx, t, half);
    PushedKeepsValid(bs, q, lists, idx, t, half);
    SameLevelsSameListing(bs, bs', lists);
    if StagedIn(bs, lists, s) && ListedIn(bs', lists, idx) && bs[idx].level <= s {
      PushedKeepsStaged(bs, q, lists, idx, t, half, s);
    }
  }

  /**
   * While the split pages get their buffers: the arena b0 only grows, by
   * empty listed buffers of the split level, and every listing and the
   * flush state carry over.
   */
  ghost predicate SplitInv(b0: seq<NodeBuffer>, l0: seq<seq<nat>>, q: seq<nat>, bs: seq<NodeBuffer>, lists: seq<seq<nat>>, level: nat, keep: nat, s: int)
    requires keep < |b0|
  {
    && ValidState(bs, q, lists) && |b0| <= |bs| && bs[..|b0|] == b0 && Weight(bs) == Weight(b0) && |l0| <= |lists|
    && (forall j :: |b0| <= j < |bs| ==> bs[j].level == level && bs[j].tuples == [] && ListedIn(bs, lists, j))
    && (ListedIn(b0, l0, keep) ==> ListedIn(bs, lists, keep))
    && (AllListedIn(b0, l0) ==> AllListedIn(bs, lists))
    && (StagedIn(b0, l0, s) ==> StagedIn(bs, lists, s))
  }

  lemma SplitInvAppend(b0: seq<NodeBuffer>, l0: seq<seq<nat>>, q: seq<nat>, bs: seq<NodeBuffer>, lists: seq<seq<nat>>, blk: BlockNumber, level: nat, keep: nat, s: int)
    requires keep < |b0| && level >= 1 && SplitInv(b0, l0, q, bs, lists, level, keep, s)
    requires FindBuffer(bs, blk, level).None?
    ensures var w := WithBuffer(bs, lists, blk, level);
      SplitInv(b0, l0, q, w.0, w.1, level, keep, s) && w.0 == bs + [NodeBuffer(blk, level, [], false)]
  {
    WithBufferKeepsValid(bs, q, lists, blk, level, s);
    var w := WithBuffer(bs, lists, blk, level);
    var bs', lists' := w.0, w.1;
    assert bs'[..|b0|] == b0 by {
      assert bs'[..|bs|] == bs;
      assert bs'[..|b0|] == bs[..|b0|];
    }
    NewBuffersStayListed(b0, bs, lists, bs', lists', blk, level);
    if ListedIn(b0, l0, keep) {
      assert ListedIn(bs, lists, keep);
    }
  }

  /** The buffers added since b0, the new one included, are empty, of the split level and listed. */
  lemma NewBuffersStayListed(b0: seq<NodeBuffer>, bs: seq<NodeBuffer>, lists: seq<seq<nat>>,
                             bs': seq<NodeBuffer>, lists': seq<seq<nat>>, blk: BlockNumber, level: nat)
    requires |b0| <= |bs| && bs' == bs + [NodeBuffer(blk, level, [], false)]
    requires forall j :: |b0| <= j < |bs| ==> bs[j].level == level && bs[j].tuples == [] && ListedIn(bs, lists, j)
    requires forall j :: 0 <= j < |bs| ==> (ListedIn(bs, lists, j) ==> ListedIn(bs', lists', j))
    requires ListedIn(bs', lists', |bs|)
    ensures forall j :: |b0| <= j < |bs'| ==> bs'[j].level == level && bs'[j].tuples == [] && ListedIn(bs', lists', j)
  {
    forall j | |b0| <= j < |bs'|
      ensures bs'[j].level == level && bs'[j].tuples == [] && ListedIn(bs', lists', j)
    {
      if j < |bs| {
        assert bs'[j] == bs[j];
        assert ListedIn(bs, lists, j);
      }
    }
  }

  /** Target k is the buffer of split page k at the level: the original page's or a fresh one. */
  ghost predicate TargetsOk(bs: seq<NodeBuffer>, targets: seq<nat>, splitinfo: seq<SplitPage>, level: nat, keep: nat, n: nat)
    requires |targets| <= |splitinfo|
  {
    forall k :: 0 <= k < |targets| ==>
      && targets[k] < |bs| && bs[targets[k]].level == level && bs[targets[k]].blk == splitinfo[k].blk
      && (targets[k] == keep || n <= targets[k])
  }

  lemma TargetsExtend(bs: seq<NodeBuffer>, bs': seq<NodeBuffer>, targets: seq<nat>, splitinfo: seq<SplitPage>, level: nat, keep: nat, n: nat, t: nat)
    requires |targets| < |splitinfo| && TargetsOk(bs, targets, splitinfo, level, keep, n)
    requires |bs| <= |bs'| && bs'[..|bs|] == bs
    requires t < |bs'| && bs'[t].level == level && bs'[t].blk == splitinfo[|targets|].blk && (t == keep || n <= t)
    ensures TargetsOk(bs', targets + [t], splitinfo, level, keep, n)
  {
    forall k | 0 <= k < |targets|
      ensures bs'[targets[k]] == bs[targets[k]]
    {
      assert bs'[..|bs|][targets[k]] == bs'[targets[k]];
    }
  }

  /**
   * While moved tuples are pushed: the arena keeps its size, levels and
   * blocks, buffers outside `targets` are untouched, and the weight grows by
   * the level for every tuple pushed so far.
   */
  ghost predicate DistInv(b0: seq<NodeBuffer>, lists: seq<seq<nat>>, q: seq<nat>, bs: seq<NodeBuffer>,
                          targets: seq<nat>, level: nat, pushed: nat, s: int, good: bool)
  {
    && ValidState(bs, q, lists) && |bs| == |b0|
    && (forall i :: 0 <= i < |bs| ==> bs[i].level == b0[i].level && bs[i].blk == b0[i].blk)
    && (forall i :: 0 <= i < |bs| && i !in targets ==> bs[i] == b0[i])
    && Weight(bs) == Weight(b0) + level * pushed
    && (AllListedIn(b0, lists) ==> AllListedIn(bs, lists))
    && (good ==> StagedIn(bs, lists, s) && forall k :: 0 <= k < |targets| ==> targets[k] < |bs| && ListedIn(bs, lists, targets[k]))
  }

  /** The flush state holds, the split level is at or below it, and every target is listed. */
  ghost predicate StagedTargets(bs: seq<NodeBuffer>, lists: seq<seq<nat>>, targets: seq<nat>, level: nat, s: int) {
    StagedIn(bs, lists, s) && level <= s
    && forall k :: 0 <= k < |targets| ==> targets[k] < |bs| && ListedIn(bs, lists, targets[k])
  }

  lemma DistInvPush(b0: seq<NodeBuffer>, lists: seq<seq<nat>>, q: seq<nat>, bs: seq<NodeBuffer>,
                    targets: seq<nat>, level: nat, pushed: nat, s: int, good: bool, k: nat, t: IndexTuple, half: bool)
    requires DistInv(b0, lists, q, bs, targets, level, pushed, s, good)
    requires k < |targets| && targets[k] < |bs| && bs[targets[k]].level == level
    requires good ==> level <= s
    ensures var p := Pushed(bs, q, targets[k], t, half);
      DistInv(b0, lists, p.1, p.0, targets, level, pushed + 1, s, good)
  {
    var idx := targets[k];
    var p := Pushed(bs, q, idx, t, half);
    PushedKeepsValid(bs, q, lists, idx, t, half);
    SameLevelsSameListing(bs, p.0, lists);
    if good {
      PushedKeepsStaged(bs, q, lists, idx, t, half, s);
    }
    assert level * (pushed + 1) == level * pushed + level;
    forall i | 0 <= i < |p.0| && i !in targets
      ensures p.0[i] == b0[i]
    {
      assert i != idx;
    }
  }

  /**
   * What every step of a relocation at `level` keeps: the arena only grows,
   * buffers of other levels are untouched, and full listing and the flush
   * state at s carry over.
   */
  ghost predicate KeepsState(b0: seq<NodeBuffer>, l0: seq<seq<nat>>, bs: seq<NodeBuffer>, lists: seq<seq<nat>>, level: nat, s: int) {
    && |bs| >= |b0| && |lists| >= |l0|
    && (forall i :: 0 <= i < |b0| && b0[i].level != level ==> bs[i] == b0[i])
    && (AllListedIn(b0, l0) ==> AllListedIn(bs, lists))
    && (StagedIn(b0, l0, s) ==> StagedIn(bs, lists, s))
  }

  lemma KeepsStateTrans(a: seq<NodeBuffer>, la: seq<seq<nat>>, b: seq<NodeBuffer>, lb: seq<seq<nat>>,
                        c: seq<NodeBuffer>, lc: seq<seq<nat>>, level: nat, s: int)
    requires KeepsState(a, la, b, lb, level, s) && KeepsState(b, lb, c, lc, level, s)
    ensures KeepsState(a, la, c, lc, level, s)
  {
  }

  /**
   * A finished distribution to targets of the split level, after a step that
   * kept the state, keeps it too; the flush state survives when `good` held.
   */
  lemma DistKeepsState(a: seq<NodeBuffer>, la: seq<seq<nat>>, b0: seq<NodeBuffer>, lists: seq<seq<nat>>, q: seq<nat>,
                       bs: seq<NodeBuffer>, targets: seq<nat>, level: nat, pushed: nat, s: int, good: bool)
    requires KeepsState(a, la, b0, lists, level, s)
    requires DistInv(b0, lists, q, bs, targets, level, pushed, s, good)
    requires forall k :: 0 <= k < |targets| ==> targets[k] < |b0| && b0[targets[k]].level == level
    requires StagedIn(a, la, s) ==> good
    ensures KeepsState(a, la, bs, lists, level, s)
  {
    forall i | 0 <= i < |a| && a[i].level != level
      ensures bs[i] == a[i]
    {
      assert b0[i] == a[i];
      assert i !in targets;
    }
  }

  /**
   * The loop of gistRelocateBuildBuffersOnSplit that finds (or creates) the
   * buffer of every split page at `level`. A page that already had a buffer
   * other than the split page's own means the tree is corrupt.
   */
  method FindTargets(b0: seq<NodeBuffer>, l0: seq<seq<nat>>, q: seq<nat>, splitinfo: seq<SplitPage>,
                     level: nat, keep: nat, ghost s: int)
    returns (r: Result<(seq<NodeBuffer>, seq<seq<nat>>, seq<nat>), BuildError>)
    requires ValidState(b0, q, l0) && level >= 1 && keep < |b0| && b0[keep].level == level
    ensures r.Ok? ==> (var (bs, lists, targets) := r.value;
      SplitInv(b0, l0, q, bs, lists, level, keep, s)
      && |targets| == |splitinfo| && TargetsOk(bs, targets, splitinfo, level, keep, |b0|))
  {
    var bs, lists := b0, l0;
    var n := |bs|;
    var targets: seq<nat> := [];
    var i := 0;
    while i < |splitinfo|
      invariant 0 <= i <= |splitinfo| && |targets| == i
      invariant SplitInv(b0, l0, q, bs, lists, level, keep, s)
      invariant TargetsOk(bs, targets, splitinfo, level, keep, n)
    {
      var f := FindBuffer(bs, splitinfo[i].blk, level);
      if f.Some? {
        if f.value != keep && f.value < n {
          return Err(CorruptTree);
        }
        TargetsExtend(bs, bs, targets, splitinfo, level, keep, n, f.value);
        targets := targets + [f.value];
      } else {
        SplitInvAppend(b0, l0, q, bs, lists, splitinfo[i].blk, level, keep, s);
        var w := WithBuffer(bs, lists, splitinfo[i].blk, level);
        TargetsExtend(bs, w.0, targets, splitinfo, level, keep, n, w.2);
        bs, lists := w.0, w.1;
        targets := targets + [w.2];
      }
      i := i + 1;
    }
    r := Ok((bs, lists, targets));
  }

  lemma SplitInvKeeps(b0: seq<NodeBuffer>, l0: seq<seq<nat>>, q: seq<nat>, bs: seq<NodeBuffer>, lists: seq<seq<nat>>,
                      level: nat, keep: nat, s: int, targets: seq<nat>, splitinfo: seq<SplitPage>)
    requires keep < |b0| && SplitInv(b0, l0, q, bs, lists, level, keep, s)
    requires |targets| == |splitinfo| && TargetsOk(bs, targets, splitinfo, level, keep, |b0|)
    ensures KeepsState(b0, l0, bs, lists, level, s)
    ensures ListedIn(b0, l0, keep) ==> forall k :: 0 <= k < |targets| ==> ListedIn(bs, lists, targets[k])
  {
    forall i | 0 <= i < |b0|
      ensures bs[i] == b0[i]
    {
      assert bs[..|b0|][i] == bs[i];
    }
  }

  /** Split page k with the key of its downlink replaced by that of `d`; every downlink keeps its pointer. */
  function WidenDownlink(si: seq<SplitPage>, k: nat, d: IndexTuple): (r: seq<SplitPage>)
    requires k < |si|
    ensures |r| == |si|
    ensures forall i :: 0 <= i < |si| ==> r[i].blk == si[i].blk && r[i].downlink.tid == si[i].downlink.tid
  {
    si[k := si[k].(downlink := d.(tid := si[k].downlink.tid))]
  }

  /**
   * The loop of gistRelocateBuildBuffersOnSplit that pushes the moved tuples,
   * last one first, to the buffer of the split page `pick` chooses, widening
   * that page's downlink (keeping its pointer) when `widen` says so. A choice
   * outside the split pages means the tree is corrupt.
   */
  method DistributeTuples(b0: seq<NodeBuffer>, lists: seq<seq<nat>>, q0: seq<nat>, moved: seq<IndexTuple>,
                          targets: seq<nat>, splitinfo: seq<SplitPage>, level: nat, ghost s: int, ghost good: bool,
                          pick: (IndexTuple, seq<SplitPage>) -> nat, halfFilled: (seq<IndexTuple>, int) -> bool,
                          pagesPerBuffer: int, widen: (IndexTuple, IndexTuple) -> Option<IndexTuple>)
    returns (r: Result<(seq<NodeBuffer>, seq<nat>, seq<SplitPage>), BuildError>)
    requires ValidState(b0, q0, lists) && |targets| == |splitinfo|
    requires forall k :: 0 <= k < |targets| ==> targets[k] < |b0| && b0[targets[k]].level == level
    requires good ==> StagedTargets(b0, lists, targets, level, s)
    ensures r.Ok? ==> (var (bs, q, si) := r.value;
      DistInv(b0, lists, q, bs, targets, level, |moved|, s, good)
      && |si| == |splitinfo|
      && forall i :: 0 <= i < |splitinfo| ==> si[i].blk == splitinfo[i].blk && si[i].downlink.tid == splitinfo[i].downlink.tid)
  {
    var bs, q := b0, q0;
    var si := splitinfo;
    var j := |moved|;
    while j > 0
      invariant 0 <= j <= |moved|
      invariant DistInv(b0, lists, q, bs, targets, level, |moved| - j, s, good)
      invariant |si| == |splitinfo|
      invariant forall k :: 0 <= k < |splitinfo| ==>
        si[k].blk == splitinfo[k].blk && si[k].downlink.tid == splitinfo[k].downlink.tid
    {
      j := j - 1;
      var step := DistributeOne(b0, lists, q, bs, targets, si, level, |moved| - j - 1, s, good, moved[j],
                                pick, halfFilled, pagesPerBuffer, widen);
      if step.Err? {
        return Err(step.error);
      }
      bs, q, si := step.value.0, step.value.1, step.value.2;
    }
    r := Ok((bs, q, si));
  }

  /**
   * One tuple of DistributeTuples: push t to the buffer of the split page
   * `pick` chooses and widen that page's downlink when `widen` says so.
   */
  method DistributeOne(ghost b0: seq<NodeBuffer>, lists: seq<seq<nat>>, q: seq<nat>, bs: seq<NodeBuffer>,
                       targets: seq<nat>, si: seq<SplitPage>, level: nat, ghost pushed: nat, ghost s: int, ghost good: bool,
                       t: IndexTuple, pick: (IndexTuple, seq<SplitPage>) -> nat, halfFilled: (seq<IndexTuple>, int) -> bool,
                       pagesPerBuffer: int, widen: (IndexTuple, IndexTuple) -> Option<IndexTuple>)
    returns (r: Result<(seq<NodeBuffer>, seq<nat>, seq<SplitPage>), BuildError>)
    requires DistInv(b0, lists, q, bs, targets, level, pushed, s, good) && |targets| == |si|
    requires forall k :: 0 <= k < |targets| ==> targets[k] < |b0| && b0[targets[k]].level == level
    requires good ==> StagedTargets(b0, lists, targets, level, s)
    ensures r.Err? ==> r.error == CorruptTree
    ensures r.Ok? ==> (var (bs', q', si') := r.value;
      DistInv(b0, lists, q', bs', targets, level, pushed + 1, s, good)
      && |si'| == |si|
      && forall i :: 0 <= i < |si| ==> si'[i].blk == si[i].blk && si'[i].downlink.tid == si[i].downlink.tid)
  {
    var k := pick(t, si);
    if k >= |si| {
      return Err(CorruptTree);
    }
    var half := halfFilled(bs[targets[k]].tuples + [t], pagesPerBuffer);
    DistInvPush(b0, lists, q, bs, targets, level, pushed, s, good, k, t, half);
    var p := Pushed(bs, q, targets[k], t, half);
    var si' := si;
    var d := widen(si[k].downlink, t);
    if d.Some? {
      si' := WidenDownlink(si, k, d.value);
    }
    r := Ok((p.0, p.1, si'));
  }

  class BuildBuffers {
    /** BUFFER_HALF_FILLED, BUFFER_OVERFLOWED and LEVEL_HAS_BUFFERS, as parameters. */
    const halfFilled: (seq<IndexTuple>, int) -> bool
    const overflowed: (seq<IndexTuple>, int) -> bool
    const levelHasBuffers: (int, int, int) -> bool
    /** The split page a relocated tuple goes to (the penalty comparison). */
    const relocationTarget: (IndexTuple, seq<SplitPage>) -> nat
    /** gistgetadjusted: the widened downlink when a relocated tuple does not fit its key. */
    const adjusted: (IndexTuple, IndexTuple) -> Option<IndexTuple>

    const levelStep: int
    var pagesPerBuffer: int
    var rootlevel: nat
    var buffers: seq<NodeBuffer>
    var queue: seq<nat>
    var buffersOnLevels: seq<seq<nat>>

    /** gistInitBuildBuffers: no buffers, an empty queue, one (empty) level list. */
    constructor (pagesPerBuffer: int, levelStep: int, maxLevel: nat,
                 halfFilled: (seq<IndexTuple>, int) -> bool,
                 overflowed: (seq<IndexTuple>, int) -> bool,
                 levelHasBuffers: (int, int, int) -> bool,
                 relocationTarget: (IndexTuple, seq<SplitPage>) -> nat,
                 adjusted: (IndexTuple, IndexTuple) -> Option<IndexTuple>)
      ensures Valid() && AllListed()
      ensures this.pagesPerBuffer == pagesPerBuffer && this.levelStep == levelStep && rootlevel == maxLevel
      ensures buffers == [] && queue == [] && buffersOnLevels == [[]]
      ensures this.halfFilled == halfFilled && this.overflowed == overflowed
      ensures this.levelHasBuffers == levelHasBuffers && this.relocationTarget == relocationTarget
      ensures this.adjusted == adjusted
    {
      this.adjusted := adjusted;
      this.halfFilled := halfFilled;
      this.overflowed := overflowed;
      this.levelHasBuffers := levelHasBuffers;
      this.relocationTarget := relocationTarget;
      this.levelStep := levelStep;
      this.pagesPerBuffer := pagesPerBuffer;
      rootlevel := maxLevel;
      buffers := [];
      queue := [];
      buffersOnLevels := [[]];
    }

    /** LEVEL_HAS_BUFFERS; the leaf level never has buffers. */
    predicate LevelHasBuffers(level: int)
      reads this
    {
      level != 0 && levelHasBuffers(level, levelStep, rootlevel)
    }

    predicate Overflowed(idx: nat)
      reads this
      requires idx < |buffers|
    {
      overflowed(buffers[idx].tuples, pagesPerBuffer)
    }

    ghost predicate Valid()
      reads this
    {
      ValidState(buffers, queue, buffersOnLevels)
    }

    ghost predicate Listed(i: nat)
      reads this
      requires i < |buffers|
    {
      ListedIn(buffers, buffersOnLevels, i)
    }

    /** Every buffer is on its level's list: nothing has been removed yet. */
    ghost predicate AllListed()
      reads this
    {
      AllListedIn(buffers, buffersOnLevels)
    }

    /** The final flush is working on level s (see StagedIn). */
    ghost predicate Staged(s: int)
      reads this
    {
      StagedIn(buffers, buffersOnLevels, s)
    }

    ghost predicate AllEmpty()
      reads this
    {
      forall i :: 0 <= i < |buffers| ==> buffers[i].tuples == []
    }

    /** Before the flush starts, every buffer is listed, so the flush can start at the top level. */
    lemma StagedAtTop()
      requires Valid() && AllListed()
      ensures Staged(|buffersOnLevels| - 1)
    {
      forall i | 0 <= i < |buffers|
        ensures buffers[i].level <= |buffersOnLevels| - 1
      {
        assert Listed(i);
      }
    }

    /** Once level s's list is empty, every buffer of level s is empty too. */
    lemma StagedStepDown(s: int)
      requires Valid() && Staged(s) && 0 <= s < |buffersOnLevels| && buffersOnLevels[s] == []
      ensures Staged(s - 1)
    {
    }

    /** Below level 0 every buffer is empty. */
    lemma StagedBelowZero()
      requires Valid() && Staged(-1)
      ensures AllEmpty()
    {
    }

    /** gistGetNodeBuffer: the buffer of (blk, level), created empty and listed if missing. */
    method GetNodeBuffer(blk: BlockNumber, level: nat, ghost stage: int) returns (idx: nat)
      requires Valid() && level >= 1
      modifies this
      ensures Valid()
      ensures idx < |buffers| && buffers[idx].blk == blk && buffers[idx].level == level
      ensures old(FindBuffer(buffers, blk, level)).Some? ==>
        idx == old(FindBuffer(buffers, blk, level)).value
        && buffers == old(buffers) && buffersOnLevels == old(buffersOnLevels)
      ensures old(FindBuffer(buffers, blk, level)).None? ==>
        idx == old(|buffers|) && buffers == old(buffers) + [NodeBuffer(blk, level, [], false)] && Listed(idx)
      ensures queue == old(queue) && rootlevel == old(rootlevel) && pagesPerBuffer == old(pagesPerBuffer)
      ensures Extends(old(buffers), buffers) && TuplesOf(buffers)[..old(|buffers|)] == TuplesOf(old(buffers))
      ensures Weight(buffers) == Weight(old(buffers))
      ensures forall i :: 0 <= i < old(|buffers|) ==> (old(Listed(i)) ==> Listed(i))
      ensures |buffersOnLevels| >= old(|buffersOnLevels|)
      ensures old(AllListed()) ==> AllListed()
      ensures old(Staged(stage)) ==> Staged(stage)
    {
      WithBufferKeepsValid(buffers, queue, buffersOnLevels, blk, level, stage);
      var r := WithBuffer(buffers, buffersOnLevels, blk, level);
      assert r.0[..|buffers|] == buffers;
      GrowthExtends(buffers, r.0);
      buffers, buffersOnLevels, idx := r.0, r.1, r.2;
    }

    /**
     * gistPushItupToNodeBuffer: append the tuple; a buffer that became half
     * full and is not queued yet goes to the front of the emptying queue.
     */
    method Push(idx: nat, t: IndexTuple, ghost stage: int)
      requires Valid() && idx < |buffers|
      modifies this
      ensures Valid()
      ensures var b := old(buffers[idx]);
        var q := halfFilled(b.tuples + [t], pagesPerBuffer) && !b.queued;
        && buffers == old(buffers)[idx := b.(tuples := b.tuples + [t], queued := b.queued || q)]
        && queue == (if q then [idx] + old(queue) else old(queue))
      ensures buffersOnLevels == old(buffersOnLevels) && rootlevel == old(rootlevel) && pagesPerBuffer == old(pagesPerBuffer)
      ensures Extends(old(buffers), buffers)
      ensures Weight(buffers) == Weight(old(buffers)) + buffers[idx].level
      ensures old(AllListed()) ==> AllListed()
      ensures old(Staged(stage) && Listed(idx) && buffers[idx].level <= stage) ==> Staged(stage)
    {
      var half := halfFilled(buffers[idx].tuples + [t], pagesPerBuffer);
      PushedKeeps(buffers, queue, buffersOnLevels, idx, t, half, stage);
      var r := Pushed(buffers, queue, idx, t, half);
      buffers, queue := r.0, r.1;
    }

    /**
     * The buffered end of gistProcessItup: push t onto the node buffer of
     * page blk at level, creating it if needed, and report whether that
     * buffer now overflows.
     */
    method PushToPage(blk: BlockNumber, level: nat, t: IndexTuple, ghost stage: int) returns (idx: nat, overflow: bool)
      requires Valid() && level >= 1
      modifies this
      ensures Valid()
      ensures idx < |buffers| && buffers[idx].blk == blk && buffers[idx].level == level
      ensures buffers[idx].tuples != [] && buffers[idx].tuples[|buffers[idx].tuples| - 1] == t
      ensures overflow == Overflowed(idx)
      ensures rootlevel == old(rootlevel) && pagesPerBuffer == old(pagesPerBuffer)
      ensures Weight(buffers) == Weight(old(buffers)) + level
      ensures |buffersOnLevels| >= old(|buffersOnLevels|) && |buffers| >= old(|buffers|)
      ensures old(AllListed()) ==> AllListed()
      ensures old(Staged(stage)) && level < stage ==> Staged(stage)
    {
      idx := GetNodeBuffer(blk, level, stage);
      ghost var b := buffers[idx];
      assert Staged(stage) && level < stage ==> Listed(idx);
      Push(idx, t, stage);
      assert buffers[idx].tuples == b.tuples + [t];
      overflow := Overflowed(idx);
    }

    /** gistPopItupFromNodeBuffer: the last tuple of the buffer, or None when it is empty. */
    method Pop(idx: nat, ghost stage: int) returns (t: Option<IndexTuple>)
      requires Valid() && idx < |buffers|
      modifies this
      ensures Valid()
      ensures t.Some? <==> old(buffers[idx].tuples) != []
      ensures var b := old(buffers[idx]);
        t.Some? ==>
          t.value == b.tuples[|b.tuples| - 1] && buffers == old(buffers)[idx := b.(tuples := b.tuples[..|b.tuples| - 1])]
      ensures t.None? ==> buffers == old(buffers)
      ensures queue == old(queue) && buffersOnLevels == old(buffersOnLevels)
      ensures rootlevel == old(rootlevel) && pagesPerBuffer == old(pagesPerBuffer)
      ensures Extends(old(buffers), buffers)
      ensures Weight(buffers) + (if t.Some? then buffers[idx].level else 0) == Weight(old(buffers))
      ensures old(AllListed()) ==> AllListed()
      ensures old(Staged(stage)) ==> Staged(stage)
    {
      var b := buffers[idx];
      if b.tuples == [] {
        return None;
      }
      t := Some(b.tuples[|b.tuples| - 1]);
      PoppedKeeps(buffers, queue, buffersOnLevels, idx, stage);
      buffers := buffers[idx := b.(tuples := b.tuples[..|b.tuples| - 1])];
    }

    /** Take the first buffer off the emptying queue and clear its queued flag. */
    method Dequeue(ghost stage: int) returns (e: nat)
      requires Valid() && queue != []
      modifies this
      ensures Valid()
      ensures e == old(queue[0]) && queue == old(queue[1..]) && e < |buffers|
      ensures buffers == old(buffers)[e := old(buffers[e]).(queued := false)]
      ensures buffersOnLevels == old(buffersOnLevels) && rootlevel == old(rootlevel) && pagesPerBuffer == old(pagesPerBuffer)
      ensures Extends(old(buffers), buffers)
      ensures Weight(buffers) == Weight(old(buffers)) && TuplesOf(buffers) == TuplesOf(old(buffers))
      ensures old(AllListed()) ==> AllListed()
      ensures old(Staged(stage)) ==> Staged(stage)
    {
      e := queue[0];
      var nb := buffers[e].(queued := false);
      ReplaceKeepsValid(buffers, queue, buffersOnLevels, e, nb, queue[1..]);
      WeightUpdate(buffers, e, nb);
      buffers := buffers[e := nb];
      queue := queue[1..];
    }

    /** Put a buffer that is not queued at the front of the emptying queue. */
    method Enqueue(idx: nat, ghost stage: int)
      requires Valid() && idx < |buffers| && !buffers[idx].queued
      modifies this
      ensures Valid()
      ensures queue == [idx] + old(queue)
      ensures buffers == old(buffers)[idx := old(buffers[idx]).(queued := true)]
      ensures buffersOnLevels == old(buffersOnLevels) && rootlevel == old(rootlevel) && pagesPerBuffer == old(pagesPerBuffer)
      ensures Extends(old(buffers), buffers)
      ensures Weight(buffers) == Weight(old(buffers)) && TuplesOf(buffers) == TuplesOf(old(buffers))
      ensures old(AllListed()) ==> AllListed()
      ensures old(Staged(stage)) ==> Staged(stage)
    {
      var nb := buffers[idx].(queued := true);
      ReplaceKeepsValid(buffers, queue, buffersOnLevels, idx, nb, [idx] + queue);
      WeightUpdate(buffers, idx, nb);
      buffers := buffers[idx := nb];
      queue := [idx] + queue;
    }

    /** Drop the first buffer of level list l, which must be empty. */
    method RemoveFirstOnLevel(l: nat)
      requires Valid() && l < |buffersOnLevels| && buffersOnLevels[l] != []
      requires buffers[buffersOnLevels[l][0]].tuples == []
      modifies this
      ensures Valid()
      ensures buffersOnLevels == old(buffersOnLevels)[l := old(buffersOnLevels[l][1..])]
      ensures buffers == old(buffers) && queue == old(queue)
      ensures rootlevel == old(rootlevel) && pagesPerBuffer == old(pagesPerBuffer)
      ensures old(Staged(l)) ==> Staged(l)
    {
      RemoveKeepsValid(buffers, queue, buffersOnLevels, l);
      buffersOnLevels := buffersOnLevels[l := buffersOnLevels[l][1..]];
    }

    /** Empty buffer idx, keeping its queued flag. */
    method Clear(idx: nat, ghost stage: int)
      requires Valid() && idx < |buffers|
      modifies this
      ensures Valid()
      ensures buffers == old(buffers)[idx := old(buffers[idx]).(tuples := [])]
      ensures queue == old(queue) && buffersOnLevels == old(buffersOnLevels)
      ensures rootlevel == old(rootlevel) && pagesPerBuffer == old(pagesPerBuffer)
      ensures Weight(buffers) + Load(old(buffers[idx])) == Weight(old(buffers))
      ensures KeepsState(old(buffers), buffersOnLevels, buffers, buffersOnLevels, buffers[idx].level, stage)
    {
      var nb := buffers[idx].(tuples := []);
      ReplaceKeepsValid(buffers, queue, buffersOnLevels, idx, nb, queue);
      WeightUpdate(buffers, idx, nb);
      buffers := buffers[idx := nb];
    }

    /**
     * The buffers of the split pages at the given level: the existing buffer
     * `keep` of the original page, or a fresh one. A page other than the
     * original that already has a buffer is a corrupt split.
     */
    method SplitBuffers(level: nat, splitinfo: seq<SplitPage>, keep: nat, ghost stage: int)
      returns (r: Result<seq<nat>, BuildError>)
      requires Valid() && level >= 1 && keep < |buffers| && buffers[keep].level == level
      modifies this
      ensures Valid()
      ensures |buffers| >= old(|buffers|) && buffers[..old(|buffers|)] == old(buffers)
      ensures forall j :: old(|buffers|) <= j < |buffers| ==> buffers[j].level == level && buffers[j].tuples == []
      ensures queue == old(queue) && rootlevel == old(rootlevel) && pagesPerBuffer == old(pagesPerBuffer)
      ensures Weight(buffers) == Weight(old(buffers))
      ensures r.Ok? ==> |r.value| == |splitinfo| && TargetsOk(buffers, r.value, splitinfo, level, keep, old(|buffers|))
      ensures r.Ok? && old(Listed(keep)) ==> forall k :: 0 <= k < |splitinfo| ==> Listed(r.value[k])
      ensures KeepsState(old(buffers), old(buffersOnLevels), buffers, buffersOnLevels, level, stage)
    {
      var f := FindTargets(buffers, buffersOnLevels, queue, splitinfo, level, keep, stage);
      if f.Err? {
        r := Err(f.error);
      } else {
        var (bs, lists, targets) := f.value;
        SplitInvKeeps(buffers, buffersOnLevels, queue, bs, lists, level, keep, stage, targets, splitinfo);
        buffers, buffersOnLevels := bs, lists;
        r := Ok(targets);
      }
    }

    /**
     * Hand the moved tuples to the buffers `targets` of the split pages. The
     * state kept since the snapshot (b0, l0) before the buffer was emptied
     * stays kept.
     */
    method Distribute(level: nat, moved: seq<IndexTuple>, targets: seq<nat>, splitinfo: seq<SplitPage>,
                      ghost stage: int, ghost b0: seq<NodeBuffer>, ghost l0: seq<seq<nat>>)
      returns (r: Result<seq<SplitPage>, BuildError>)
      requires Valid() && |targets| == |splitinfo|
      requires forall k :: 0 <= k < |targets| ==> targets[k] < |buffers| && buffers[targets[k]].level == level
      requires KeepsState(b0, l0, buffers, buffersOnLevels, level, stage)
      requires StagedIn(b0, l0, stage) ==> StagedTargets(buffers, buffersOnLevels, targets, level, stage)
      modifies this
      ensures Valid()
      ensures rootlevel == old(rootlevel) && pagesPerBuffer == old(pagesPerBuffer) && buffersOnLevels == old(buffersOnLevels)
      ensures r.Err? ==> buffers == old(buffers) && queue == old(queue)
      ensures r.Ok? ==> Weight(buffers) == Weight(old(buffers)) + level * |moved|
      ensures r.Ok? ==> (|r.value| == |splitinfo|
        && forall i :: 0 <= i < |splitinfo| ==>
             r.value[i].blk == splitinfo[i].blk && r.value[i].downlink.tid == splitinfo[i].downlink.tid)
      ensures KeepsState(b0, l0, buffers, buffersOnLevels, level, stage)
    {
      ghost var good := StagedTargets(buffers, buffersOnLevels, targets, level, stage);
      var d := DistributeTuples(buffers, buffersOnLevels, queue, moved, targets, splitinfo, level, stage, good,
                                relocationTarget, halfFilled, pagesPerBuffer, adjusted);
      if d.Err? {
        r := Err(d.error);
      } else {
        var (bs, q, si) := d.value;
        DistKeepsState(b0, l0, buffers, buffersOnLevels, q, bs, targets, level, |moved|, stage, good);
        buffers, queue := bs, q;
        r := Ok(si);
      }
    }

    /**
     * gistRelocateBuildBuffersOnSplit: when page blk at a buffered level was
     * split, the tuples of its buffer are handed out, last one first, to the
     * buffers of the split pages, and each receiving page's downlink is
     * widened to cover the tuple. Without a buffer nothing moves.
     */
    method RelocateOnSplit(level: nat, blk: BlockNumber, splitinfo: seq<SplitPage>, ghost stage: int)
      returns (r: Result<seq<SplitPage>, BuildError>)
      requires Valid()
      modifies this
      ensures Valid()
      ensures rootlevel == old(rootlevel) && pagesPerBuffer == old(pagesPerBuffer)
      ensures !LevelHasBuffers(level) || old(FindBuffer(buffers, blk, level)).None? ==>
        r == Ok(splitinfo) && buffers == old(buffers) && queue == old(queue) && buffersOnLevels == old(buffersOnLevels)
      ensures r.Ok? ==> Weight(buffers) == Weight(old(buffers))
      ensures r.Ok? ==> (|r.value| == |splitinfo|
        && forall i :: 0 <= i < |splitinfo| ==>
             r.value[i].blk == splitinfo[i].blk && r.value[i].downlink.tid == splitinfo[i].downlink.tid)
      ensures KeepsState(old(buffers), old(buffersOnLevels), buffers, buffersOnLevels, level, stage)
    {
      var f := FindBuffer(buffers, blk, level);
      if !LevelHasBuffers(level) || f.None? {
        r := Ok(splitinfo);
      } else {
        r := MoveBuffer(f.value, splitinfo, stage);
      }
    }

    /** The first half of MoveBuffer: empty the split buffer and find the buffers of the split pages. */
    method ClearAndSplit(keep: nat, splitinfo: seq<SplitPage>, ghost stage: int)
      returns (t: Result<seq<nat>, BuildError>)
      requires Valid() && keep < |buffers|
      modifies this
      ensures Valid()
      ensures rootlevel == old(rootlevel) && pagesPerBuffer == old(pagesPerBuffer)
      ensures Weight(buffers) + Load(old(buffers[keep])) == Weight(old(buffers))
      ensures t.Ok? ==> (|t.value| == |splitinfo|
        && forall k :: 0 <= k < |splitinfo| ==>
             t.value[k] < |buffers| && buffers[t.value[k]].level == old(buffers[keep]).level)
      ensures t.Ok? && old(Staged(stage)) && old(buffers[keep]).tuples != [] ==>
        StagedTargets(buffers, buffersOnLevels, t.value, old(buffers[keep]).level, stage)
      ensures KeepsState(old(buffers), old(buffersOnLevels), buffers, buffersOnLevels, old(buffers[keep]).level, stage)
    {
      var level := buffers[keep].level;
      ghost var st := Staged(stage) && buffers[keep].tuples != [];
      assert st ==> level <= stage && Listed(keep);
      ghost var b0, l0 := buffers, buffersOnLevels;
      Clear(keep, stage);
      ghost var b1 := buffers;
      assert Listed(keep) == ListedIn(b0, l0, keep);
      t := SplitBuffers(level, splitinfo, keep, stage);
      KeepsStateTrans(b0, l0, b1, l0, buffers, buffersOnLevels, level, stage);
      assert t.Ok? && st ==> StagedTargets(buffers, buffersOnLevels, t.value, level, stage);
    }

    /** The relocation proper, for the existing buffer `keep` of the split page. */
    method MoveBuffer(keep: nat, splitinfo: seq<SplitPage>, ghost stage: int)
      returns (r: Result<seq<SplitPage>, BuildError>)
      requires Valid() && keep < |buffers|
      modifies this
      ensures Valid()
      ensures rootlevel == old(rootlevel) && pagesPerBuffer == old(pagesPerBuffer)
      ensures r.Ok? ==> Weight(buffers) == Weight(old(buffers))
      ensures r.Ok? ==> (|r.value| == |splitinfo|
        && forall i :: 0 <= i < |splitinfo| ==>
             r.value[i].blk == splitinfo[i].blk && r.value[i].downlink.tid == splitinfo[i].downlink.tid)
      ensures KeepsState(old(buffers), old(buffersOnLevels), buffers, buffersOnLevels, old(buffers[keep]).level, stage)
    {
      var level := buffers[keep].level;
      var moved := buffers[keep].tuples;
      ghost var b0, l0 := buffers, buffersOnLevels;
      var t := ClearAndSplit(keep, splitinfo, stage);
      if t.Err? {
        r := Err(t.error);
      } else if moved == [] {
        r := Ok(splitinfo);
      } else {
        r := Distribute(level, moved, t.value, splitinfo, stage, b0, l0);
      }
    }

    method SetPagesPerBuffer(n: int)
      modifies this
      ensures pagesPerBuffer == n
      ensures buffers == old(buffers) && queue == old(queue) && buffersOnLevels == old(buffersOnLevels) && rootlevel == old(rootlevel)
    {
      pagesPerBuffer := n;
    }

    method IncrementRootLevel()
      modifies this
      ensures rootlevel == old(rootlevel) + 1
      ensures buffers == old(buffers) && queue == old(queue) && buffersOnLevels == old(buffersOnLevels) && pagesPerBuffer == old(pagesPerBuffer)
    {
      rootlevel := rootlevel + 1;
    }
  }
}
