/** Heap nodes of the skip list, and what each row of links must be, given the nodes in level-0 order. */
module SkipShape {
  import opened Items
  import opened SortedSeqs

  const MAX_LEVEL := 32

  datatype Level = Level(forward: SkiplistNode?, span: nat)

  class SkiplistNode {
    const ele: string
    const score: real
    ghost const height: nat
    var backward: SkiplistNode?
    var levels: seq<Level>

    constructor (level: nat, score: real, ele: string)
      ensures this.ele == ele && this.score == score && this.height == level
      ensures backward == null && levels == seq(level, _ => Level(null, 0))
    {
      this.ele, this.score, this.height := ele, score, level;
      backward, levels := null, seq(level, _ => Level(null, 0));
    }
  }

  function Key(n: SkiplistNode): Item {
    Item(n.score, n.ele)
  }

  /** The mutable fields of one node. */
  datatype Fields = Fields(backward: SkiplistNode?, levels: seq<Level>)

  type Snap = map<SkiplistNode, Fields>

  // ---- rows ------------------------------------------------------------------------

  /** The next position after p, in level-0 order, whose node is taller than i; the length if there is none. */
  ghost function NextPos(nodes: seq<SkiplistNode>, i: nat, p: nat): (q: nat)
    requires p < |nodes|
    ensures p < q <= |nodes|
    decreases |nodes| - p
  {
    if p + 1 == |nodes| || nodes[p + 1].height > i then p + 1 else NextPos(nodes, i, p + 1)
  }

  lemma {:induction false} NextPosIs(nodes: seq<SkiplistNode>, i: nat, p: nat)
    requires p < |nodes|
    ensures NextPos(nodes, i, p) < |nodes| ==> nodes[NextPos(nodes, i, p)].height > i
    ensures forall t :: p < t < NextPos(nodes, i, p) ==> nodes[t].height <= i
    decreases |nodes| - p
  {
    if p + 1 < |nodes| && nodes[p + 1].height <= i {
      NextPosIs(nodes, i, p + 1);
    }
  }

  lemma {:induction false} NextPosUnique(nodes: seq<SkiplistNode>, i: nat, p: nat, q: nat)
    requires p < q <= |nodes| && (q < |nodes| ==> nodes[q].height > i)
    requires forall t :: p < t < q ==> nodes[t].height <= i
    ensures NextPos(nodes, i, p) == q
    decreases q - p
  {
    if p + 1 < q {
      NextPosUnique(nodes, i, p + 1, q);
    }
  }

  /** The link on row i of the node at position p: to the next taller node with its distance,
      or to nothing with the number of nodes that follow. */
  ghost function RowLevel(nodes: seq<SkiplistNode>, i: nat, p: nat): Level
    requires p < |nodes|
  {
    var q := NextPos(nodes, i, p);
    if q < |nodes| then Level(nodes[q], q - p) else Level(null, |nodes| - 1 - p)
  }

  /** Every node of `nodes` is known, with as many links as its height. */
  ghost predicate Heights(nodes: seq<SkiplistNode>, snap: Snap) {
    forall p :: 0 <= p < |nodes| ==> nodes[p] in snap && |snap[nodes[p]].levels| == nodes[p].height
  }

  ghost predicate RowOK(nodes: seq<SkiplistNode>, snap: Snap, i: nat)
    requires Heights(nodes, snap)
  {
    forall p {:trigger RowAt(nodes, snap, i, p)} :: 0 <= p < |nodes| && nodes[p].height > i ==> RowAt(nodes, snap, i, p)
  }

  ghost predicate RowAt(nodes: seq<SkiplistNode>, snap: Snap, i: nat, p: nat)
    requires p < |nodes| && nodes[p] in snap && i < |snap[nodes[p]].levels|
  {
    snap[nodes[p]].levels[i] == RowLevel(nodes, i, p)
  }

  ghost predicate Distinct(nodes: seq<SkiplistNode>) {
    forall p, q :: 0 <= p < q < |nodes| ==> nodes[p] != nodes[q]
  }

  // ---- a node more, a node less --------------------------------------------------------

  ghost function WithNode(nodes: seq<SkiplistNode>, k: nat, x: SkiplistNode): seq<SkiplistNode>
    requires k < |nodes|
  {
    nodes[..k + 1] + [x] + nodes[k + 1..]
  }

  /** Rows with a new node behind position k: behind it all shifts by one. */
  lemma InsertNextBehind(nodes: seq<SkiplistNode>, nodes': seq<SkiplistNode>, k: nat, x: SkiplistNode, i: nat, p: nat)
    requires k < p < |nodes| && nodes' == WithNode(nodes, k, x)
    ensures NextPos(nodes', i, p + 1) == NextPos(nodes, i, p) + 1
  {
    var q := NextPos(nodes, i, p);
    NextPosIs(nodes, i, p);
    forall t | p < t <= q && t < |nodes| ensures nodes'[t + 1] == nodes[t] {
    }
    forall t | p + 1 < t < q + 1 ensures nodes'[t].height <= i {
      assert nodes'[t] == nodes[t - 1];
    }
    NextPosUnique(nodes', i, p + 1, q + 1);
  }

  /** Links that end before the new node stay as they are. */
  lemma InsertNextBefore(nodes: seq<SkiplistNode>, nodes': seq<SkiplistNode>, k: nat, x: SkiplistNode, i: nat, p: nat)
    requires p <= k < |nodes| && nodes' == WithNode(nodes, k, x) && NextPos(nodes, i, p) <= k
    ensures NextPos(nodes', i, p) == NextPos(nodes, i, p)
  {
    var q := NextPos(nodes, i, p);
    NextPosIs(nodes, i, p);
    forall t | 0 <= t <= k ensures nodes'[t] == nodes[t] {
    }
    NextPosUnique(nodes', i, p, q);
  }

  /** A link across the new node: the node takes over, if it is tall enough. */
  lemma InsertNextAcross(nodes: seq<SkiplistNode>, nodes': seq<SkiplistNode>, k: nat, x: SkiplistNode, i: nat, p: nat)
    requires p <= k < |nodes| && nodes' == WithNode(nodes, k, x) && NextPos(nodes, i, p) > k
    ensures NextPos(nodes', i, p) == if x.height > i then k + 1 else NextPos(nodes, i, p) + 1
    ensures NextPos(nodes', i, k + 1) == NextPos(nodes, i, p) + 1
  {
    var q := NextPos(nodes, i, p);
    NextPosIs(nodes, i, p);
    assert nodes'[k + 1] == x && (q < |nodes| ==> nodes'[q + 1] == nodes[q]);
    forall t | p < t < q + 1 && t != k + 1 ensures nodes'[t].height <= i {
      assert nodes'[t] == if t <= k then nodes[t] else nodes[t - 1];
    }
    NextPosUnique(nodes', i, k + 1, q + 1);
    NextPosUnique(nodes', i, p, if x.height > i then k + 1 else q + 1);
  }

  ghost function WithoutNode(nodes: seq<SkiplistNode>, d: nat): seq<SkiplistNode>
    requires d < |nodes|
  {
    nodes[..d] + nodes[d + 1..]
  }

  /** Rows without the node at position d. */
  lemma DeleteNext(nodes: seq<SkiplistNode>, d: nat, i: nat, p: nat)
    requires 0 < d < |nodes| && p < |nodes| && p != d
    ensures var nodes', q := WithoutNode(nodes, d), NextPos(nodes, i, p);
            && (p > d ==> NextPos(nodes', i, p - 1) == q - 1)
            && (p < d && q < d ==> NextPos(nodes', i, p) == q)
            && (p < d && q == d ==> NextPos(nodes', i, p) == NextPos(nodes, i, d) - 1)
            && (p < d < q ==> NextPos(nodes', i, p) == q - 1)
  {
    var nodes', q := WithoutNode(nodes, d), NextPos(nodes, i, p);
    NextPosIs(nodes, i, p);
    NextPosIs(nodes, i, d);
    if p > d {
      forall t | p - 1 < t < q - 1 ensures nodes'[t].height <= i {
        assert nodes'[t] == nodes[t + 1];
      }
      NextPosUnique(nodes', i, p - 1, q - 1);
    } else if q < d {
      NextPosUnique(nodes', i, p, q);
    } else {
      var e := if q == d then NextPos(nodes, i, d) else q;
      forall t | p < t < e - 1 ensures nodes'[t].height <= i {
        assert nodes'[t] == if t < d then nodes[t] else nodes[t + 1];
      }
      assert e < |nodes| ==> nodes'[e - 1] == nodes[e];
      NextPosUnique(nodes', i, p, e - 1);
    }
  }

  // ---- single links ---------------------------------------------------------------------

  ghost function SetLevel(snap: Snap, n: SkiplistNode, i: nat, l: Level): Snap
    requires n in snap && i < |snap[n].levels|
  {
    snap[n := snap[n].(levels := snap[n].levels[i := l])]
  }

  /** The node on row i that a new node behind position k is linked from. */
  ghost predicate Predecessor(nodes: seq<SkiplistNode>, i: nat, k: nat, r: nat) {
    k < |nodes| && r <= k && nodes[r].height > i && NextPos(nodes, i, r) > k
  }

  lemma ShiftedTarget(nodes: seq<SkiplistNode>, nodes': seq<SkiplistNode>, k: nat, x: SkiplistNode, q: nat)
    requires k < q <= |nodes| && nodes' == WithNode(nodes, k, x)
    ensures q < |nodes| ==> nodes'[q + 1] == nodes[q]
    ensures |nodes'| == |nodes| + 1
  {
  }

  /** A taller-than-i node up to k other than the predecessor comes before it, and so does all it links to. */
  lemma BeforePredecessor(nodes: seq<SkiplistNode>, i: nat, k: nat, r: nat, p: nat)
    requires Predecessor(nodes, i, k, r) && p <= k && p != r && nodes[p].height > i
    ensures p < r && NextPos(nodes, i, p) <= r
  {
    NextPosIs(nodes, i, p);
    NextPosIs(nodes, i, r);
  }

  /** Row i with a new node behind position k. */
  ghost function RowWith(nodes: seq<SkiplistNode>, k: nat, x: SkiplistNode, i: nat, r: nat, p: nat): Level
    requires r <= k < |nodes| && p <= |nodes|
  {
    var l := RowLevel(nodes, i, r);
    if p > k + 1 then RowLevel(nodes, i, p - 1)
    else if p == k + 1 then Level(l.forward, if l.span >= k - r then l.span - (k - r) else 0)
    else if p == r then (if x.height > i then Level(x, k - r + 1) else Level(l.forward, l.span + 1))
    else RowLevel(nodes, i, p)
  }

  lemma RowWithIs(nodes: seq<SkiplistNode>, nodes': seq<SkiplistNode>, k: nat, x: SkiplistNode, i: nat, r: nat, p: nat)
    requires Predecessor(nodes, i, k, r) && nodes' == WithNode(nodes, k, x) && p < |nodes'| && nodes'[p].height > i
    ensures RowLevel(nodes', i, p) == RowWith(nodes, k, x, i, r, p)
    ensures RowLevel(nodes, i, r).span >= k - r
  {
    hide NextPos;
    if p > k + 1 {
      assert nodes'[p] == nodes[p - 1];
      InsertNextBehind(nodes, nodes', k, x, i, p - 1);
      ShiftedTarget(nodes, nodes', k, x, NextPos(nodes, i, p - 1));
    } else if p == k + 1 || p == r {
      InsertNextAcross(nodes, nodes', k, x, i, r);
      ShiftedTarget(nodes, nodes', k, x, NextPos(nodes, i, r));
      assert nodes'[k + 1] == x;
    } else {
      assert nodes'[p] == nodes[p];
      BeforePredecessor(nodes, i, k, r, p);
      InsertNextBefore(nodes, nodes', k, x, i, p);
      assert nodes'[NextPos(nodes, i, p)] == nodes[NextPos(nodes, i, p)];
    }
  }

  lemma NodeWith(nodes: seq<SkiplistNode>, nodes': seq<SkiplistNode>, k: nat, x: SkiplistNode, p: nat)
    requires k < |nodes| && nodes' == WithNode(nodes, k, x) && p < |nodes'|
    ensures nodes'[p] == if p <= k then nodes[p] else if p == k + 1 then x else nodes[p - 1]
  {
  }

  lemma HeightsWith(nodes: seq<SkiplistNode>, nodes': seq<SkiplistNode>, snap: Snap, k: nat, x: SkiplistNode)
    requires k < |nodes| && nodes' == WithNode(nodes, k, x)
    requires Heights(nodes, snap) && x in snap && |snap[x].levels| == x.height
    ensures Heights(nodes', snap)
  {
    forall p | 0 <= p < |nodes'| ensures nodes'[p] in snap && |snap[nodes'[p]].levels| == nodes'[p].height {
      NodeWith(nodes, nodes', k, x, p);
    }
  }

  /** Row i once the new node x, tall enough for it, is linked in: x takes over its predecessor's link. */
  lemma RowLinked(nodes: seq<SkiplistNode>, nodes': seq<SkiplistNode>, snap: Snap, snap': Snap, x: SkiplistNode, i: nat,
                  k: nat, r: nat)
    requires Heights(nodes, snap) && x in snap && |snap[x].levels| == x.height > i && x !in nodes && Distinct(nodes)
    requires Predecessor(nodes, i, k, r) && nodes' == WithNode(nodes, k, x) && RowOK(nodes, snap, i)
    requires snap' == SetLevel(SetLevel(snap, x, i, RowWith(nodes, k, x, i, r, k + 1)), nodes[r], i,
                               RowWith(nodes, k, x, i, r, r))
    ensures Heights(nodes', snap') && RowOK(nodes', snap', i)
  {
    HeightsWith(nodes, nodes', snap', k, x);
    forall p | 0 <= p < |nodes'| && nodes'[p].height > i
      ensures RowAt(nodes', snap', i, p)
    {
      NodeWith(nodes, nodes', k, x, p);
      RowWithIs(nodes, nodes', k, x, i, r, p);
      if p != k + 1 {
        assert RowAt(nodes, snap, i, if p <= k then p else p - 1);
      }
    }
  }

  /** Row i above the new node: the link across it gets longer by one. */
  lemma RowStretched(nodes: seq<SkiplistNode>, nodes': seq<SkiplistNode>, snap: Snap, snap': Snap, x: SkiplistNode,
                     i: nat, k: nat, r: nat)
    requires Heights(nodes, snap) && x in snap && |snap[x].levels| == x.height <= i && x !in nodes && Distinct(nodes)
    requires Predecessor(nodes, i, k, r) && nodes' == WithNode(nodes, k, x) && RowOK(nodes, snap, i)
    requires snap' == SetLevel(snap, nodes[r], i, RowWith(nodes, k, x, i, r, r))
    ensures Heights(nodes', snap') && RowOK(nodes', snap', i)
  {
    HeightsWith(nodes, nodes', snap', k, x);
    forall p | 0 <= p < |nodes'| && nodes'[p].height > i
      ensures RowAt(nodes', snap', i, p)
    {
      NodeWith(nodes, nodes', k, x, p);
      RowWithIs(nodes, nodes', k, x, i, r, p);
      if p != k + 1 {
        assert RowAt(nodes, snap, i, if p <= k then p else p - 1);
      }
    }
  }

  // ---- removing ------------------------------------------------------------------------------

  /** Row i without the node at position d. */
  ghost function RowWithout(nodes: seq<SkiplistNode>, d: nat, i: nat, r: nat, p: nat): Level
    requires 0 < d < |nodes| && r < d && p + 1 < |nodes|
  {
    var l := RowLevel(nodes, i, r);
    if p >= d then RowLevel(nodes, i, p + 1)
    else if p == r then
      if NextPos(nodes, i, r) == d then Level(RowLevel(nodes, i, d).forward, l.span + RowLevel(nodes, i, d).span - 1)
      else Level(l.forward, if l.span > 0 then l.span - 1 else 0)
    else RowLevel(nodes, i, p)
  }

  lemma NodeWithout(nodes: seq<SkiplistNode>, nodes': seq<SkiplistNode>, d: nat, p: nat)
    requires d < |nodes| && nodes' == WithoutNode(nodes, d) && p < |nodes'|
    ensures nodes'[p] == if p < d then nodes[p] else nodes[p + 1]
  {
  }

  lemma RowWithoutIs(nodes: seq<SkiplistNode>, nodes': seq<SkiplistNode>, d: nat, i: nat, r: nat, p: nat)
    requires 0 < d < |nodes| && Predecessor(nodes, i, d - 1, r) && nodes' == WithoutNode(nodes, d) && p < |nodes'|
    requires nodes'[p].height > i
    ensures RowLevel(nodes', i, p) == RowWithout(nodes, d, i, r, p)
    ensures NextPos(nodes, i, r) != d ==> RowLevel(nodes, i, r).span > 0
  {
    hide NextPos;
    NodeWithout(nodes, nodes', d, p);
    if p >= d {
      DeleteNext(nodes, d, i, p + 1);
      RemovedTarget(nodes, nodes', d, NextPos(nodes, i, p + 1));
    } else if p == r {
      DeleteNext(nodes, d, i, r);
      RemovedTarget(nodes, nodes', d, NextPos(nodes, i, d));
      if NextPos(nodes, i, r) > d {
        RemovedTarget(nodes, nodes', d, NextPos(nodes, i, r));
      }
    } else {
      BeforePredecessor(nodes, i, d - 1, r, p);
      DeleteNext(nodes, d, i, p);
      assert nodes'[NextPos(nodes, i, p)] == nodes[NextPos(nodes, i, p)];
    }
  }

  lemma RemovedTarget(nodes: seq<SkiplistNode>, nodes': seq<SkiplistNode>, d: nat, q: nat)
    requires d < q <= |nodes| && nodes' == WithoutNode(nodes, d)
    ensures q < |nodes| ==> nodes'[q - 1] == nodes[q]
    ensures |nodes'| == |nodes| - 1
  {
  }

  /** Row i once the node at d is taken out of it, or was never on it. */
  lemma RowUnlinked(nodes: seq<SkiplistNode>, nodes': seq<SkiplistNode>, snap: Snap, snap': Snap, i: nat, d: nat,
                    r: nat)
    requires Heights(nodes, snap) && Distinct(nodes) && 0 < d < |nodes|
    requires Predecessor(nodes, i, d - 1, r) && nodes' == WithoutNode(nodes, d) && RowOK(nodes, snap, i)
    requires snap' == SetLevel(snap, nodes[r], i, RowWithout(nodes, d, i, r, r))
    ensures Heights(nodes', snap') && RowOK(nodes', snap', i)
  {
    forall p | 0 <= p < |nodes'| ensures nodes'[p] in snap' && |snap'[nodes'[p]].levels| == nodes'[p].height {
      NodeWithout(nodes, nodes', d, p);
    }
    forall p | 0 <= p < |nodes'| && nodes'[p].height > i
      ensures RowAt(nodes', snap', i, p)
    {
      NodeWithout(nodes, nodes', d, p);
      RowWithoutIs(nodes, nodes', d, i, r, p);
      assert RowAt(nodes, snap, i, if p < d then p else p + 1);
    }
  }

  // ---- the invariant ----------------------------------------------------------------------------

  /** The stored pairs, in level-0 order; the head holds none. */
  ghost function Contents(nodes: seq<SkiplistNode>): (s: seq<Item>)
    requires |nodes| > 0
    ensures |s| == |nodes| - 1
  {
    seq(|nodes| - 1, p requires 0 <= p < |nodes| - 1 => Key(nodes[p + 1]))
  }

  ghost predicate Rows(nodes: seq<SkiplistNode>, snap: Snap, lo: nat, hi: nat)
    requires Heights(nodes, snap)
  {
    forall i :: lo <= i < hi ==> RowOK(nodes, snap, i)
  }

  ghost predicate BackOK(nodes: seq<SkiplistNode>, snap: Snap)
    requires Heights(nodes, snap)
  {
    forall p :: 0 < p < |nodes| ==> BackAt(nodes, snap, p)
  }

  ghost predicate BackAt(nodes: seq<SkiplistNode>, snap: Snap, p: nat)
    requires 0 < p < |nodes| && nodes[p] in snap
  {
    snap[nodes[p]].backward == if p == 1 then null else nodes[p - 1]
  }

  /** Above `level` only the head has links, and they lead nowhere. */
  ghost predicate HeightsBelow(nodes: seq<SkiplistNode>, snap: Snap, level: nat)
    requires Heights(nodes, snap) && |nodes| > 0
  {
    && nodes[0].height == MAX_LEVEL && 1 <= level <= MAX_LEVEL
    && (forall p :: 0 < p < |nodes| ==> 1 <= nodes[p].height <= level)
    && (forall i :: level <= i < MAX_LEVEL ==> snap[nodes[0]].levels[i].forward == null)
  }

  /** Rows, heights, backward links: all that holds of the links, however high `level` is. */
  ghost predicate LinksOK(nodes: seq<SkiplistNode>, snap: Snap, level: nat) {
    && 0 < |nodes| <= 0x1_0000_0000
    && Heights(nodes, snap) && Distinct(nodes) && HeightsBelow(nodes, snap, level)
    && Rows(nodes, snap, 0, level)
    && BackOK(nodes, snap)
  }

  ghost predicate SkipOK(nodes: seq<SkiplistNode>, snap: Snap, level: nat) {
    && LinksOK(nodes, snap, level)
    && (level > 1 ==> NextPos(nodes, level - 1, 0) < |nodes|)
    && WeaklySorted(Contents(nodes))
  }

  // ---- one row at a time ----------------------------------------------------------------------------

  /** Everything but the rows from lo up to hi is as before. */
  ghost predicate SameBut(snap: Snap, snap': Snap, lo: nat, hi: nat) {
    && snap'.Keys == snap.Keys
    && forall n :: n in snap ==> SameFields(snap[n], snap'[n], lo, hi)
  }

  ghost predicate SameFields(f: Fields, f': Fields, lo: nat, hi: nat) {
    && |f'.levels| == |f.levels| && f'.backward == f.backward
    && forall j :: 0 <= j < |f.levels| && (j < lo || hi <= j) ==> f'.levels[j] == f.levels[j]
  }

  lemma RowsFrame(nodes: seq<SkiplistNode>, snap: Snap, snap': Snap, i: nat, lo: nat, hi: nat)
    requires Heights(nodes, snap) && SameBut(snap, snap', i, i + 1) && Rows(nodes, snap, lo, hi) && (i < lo || hi <= i)
    ensures Heights(nodes, snap') && Rows(nodes, snap', lo, hi)
  {
    forall row | lo <= row < hi ensures RowOK(nodes, snap', row) {
      assert RowOK(nodes, snap, row);
      forall p | 0 <= p < |nodes| && nodes[p].height > row ensures RowAt(nodes, snap', row, p) {
        assert RowAt(nodes, snap, row, p) && SameFields(snap[nodes[p]], snap'[nodes[p]], i, i + 1);
      }
    }
  }

  /** Half way through: the rows below i are those of `nodes'`, the rows from i on those of `nodes`. */
  ghost predicate HalfWay(nodes: seq<SkiplistNode>, nodes': seq<SkiplistNode>, snap: Snap, i: nat, level: nat) {
    && Heights(nodes, snap) && Heights(nodes', snap)
    && Rows(nodes', snap, 0, i) && Rows(nodes, snap, i, level)
  }

  lemma RowDone(nodes: seq<SkiplistNode>, nodes': seq<SkiplistNode>, snap: Snap, snap': Snap, i: nat, level: nat)
    requires HalfWay(nodes, nodes', snap, i, level) && SameBut(snap, snap', i, i + 1) && i < level
    requires Heights(nodes', snap') && RowOK(nodes', snap', i)
    ensures HalfWay(nodes, nodes', snap', i + 1, level)
  {
    RowsFrame(nodes', snap, snap', i, 0, i);
    assert Rows(nodes, snap, i + 1, level);
    RowsFrame(nodes, snap, snap', i, i + 1, level);
  }

  lemma SetLevelSame(snap: Snap, n: SkiplistNode, i: nat, l: Level)
    requires n in snap && i < |snap[n].levels|
    ensures SameBut(snap, SetLevel(snap, n, i, l), i, i + 1)
  {
  }

  lemma SameButTransitive(a: Snap, b: Snap, c: Snap, i: nat, lo: nat, hi: nat)
    requires SameBut(a, b, lo, hi) && SameBut(b, c, i, i + 1) && lo <= i < hi
    ensures SameBut(a, c, lo, hi)
  {
    forall n | n in a ensures SameFields(a[n], c[n], lo, hi) {
      assert SameFields(a[n], b[n], lo, hi) && SameFields(b[n], c[n], i, i + 1);
    }
  }

  /** The predecessor on row i of a node behind position k, as a node and as a position. */
  ghost predicate PredAt(nodes: seq<SkiplistNode>, update: seq<SkiplistNode>, rank: seq<nat>, k: nat, i: nat) {
    && i < |update| && i < |rank| && rank[i] < |nodes| && update[i] == nodes[rank[i]]
    && Predecessor(nodes, i, k, rank[i])
  }

  ghost predicate Preds(nodes: seq<SkiplistNode>, update: seq<SkiplistNode>, rank: seq<nat>, k: nat, level: nat) {
    && |update| == |rank| == MAX_LEVEL
    && rank[0] == k
    && forall i :: 0 <= i < level ==> PredAt(nodes, update, rank, k, i)
  }
}
