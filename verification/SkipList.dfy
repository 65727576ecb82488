/** The skip list index: the source's linked rows with spans, backward links and tail. */
module SkipLists {
  import opened Items
  import opened SortedSeqs
  import opened SkipShape

  const TWO_32 := 0x1_0000_0000

  /** uint32 arithmetic. */
  function Add32(a: nat, b: nat): nat { (a + b) % TWO_32 }
  function Sub32(a: nat, b: nat): nat { (a - b) % TWO_32 }

  lemma Add32Exact(a: nat, b: nat)
    requires a + b < TWO_32
    ensures Add32(a, b) == a + b
  {
  }

  ghost predicate Mirrored(snap: Snap)
    reads snap.Keys
  {
    forall n :: n in snap ==> n.backward == snap[n].backward && n.levels == snap[n].levels
  }

  /** How many stored pairs are smaller than x. */
  ghost function Smaller(nodes: seq<SkiplistNode>, x: Item): (k: nat)
    requires |nodes| > 0
    ensures k < |nodes|
  {
    Below(Contents(nodes), x)
  }

  lemma SmallerIs(nodes: seq<SkiplistNode>, x: Item, p: nat)
    requires |nodes| > 0 && WeaklySorted(Contents(nodes)) && 0 < p < |nodes|
    ensures Less(Key(nodes[p]), x) <==> p <= Smaller(nodes, x)
  {
    BelowIsPrefix(Contents(nodes), x);
    assert Contents(nodes)[p - 1] == Key(nodes[p]);
  }

  /** One link of the list, as the rows have it. */
  lemma LinkIs(nodes: seq<SkiplistNode>, snap: Snap, level: nat, i: nat, r: nat)
    requires SkipOK(nodes, snap, level) && i < level && r < |nodes| && nodes[r].height > i
    ensures nodes[r] in snap && i < |snap[nodes[r]].levels|
    ensures snap[nodes[r]].levels[i] == RowLevel(nodes, i, r)
    ensures i == 0 ==> NextPos(nodes, i, r) == r + 1
  {
    assert RowOK(nodes, snap, i);
    assert RowAt(nodes, snap, i, r);
  }

  /** The descent of insert and RemoveByScore: on every row, as far as the pairs are smaller. */
  method Descend(x: Item, head: SkiplistNode, level: nat, ghost nodes: seq<SkiplistNode>, ghost snap: Snap)
    returns (update: seq<SkiplistNode>, rank: seq<nat>)
    requires SkipOK(nodes, snap, level) && Mirrored(snap) && head == nodes[0]
    ensures Preds(nodes, update, rank, Smaller(nodes, x), level)
  {
    update, rank := seq(MAX_LEVEL, _ => head), seq(MAX_LEVEL, _ => 0);
    ghost var k := Smaller(nodes, x);
    var cur := head;
    var r: nat, i: nat := 0, level;
    while i > 0
      invariant i <= level <= MAX_LEVEL && |update| == |rank| == MAX_LEVEL
      invariant r <= k < |nodes| && cur == nodes[r] && nodes[r].height >= i && (i < level ==> r == rank[i])
      invariant forall j :: i <= j < level ==> PredAt(nodes, update, rank, k, j)
    {
      i := i - 1;
      cur, r := Advance(x, cur, r, i, level, nodes, snap);
      ghost var update0, rank0 := update, rank;
      rank := rank[i := r];
      update := update[i := cur];
      forall j | i < j < level ensures PredAt(nodes, update, rank, k, j) {
        assert PredAt(nodes, update0, rank0, k, j);
      }
    }
    assert PredAt(nodes, update, rank, k, 0);
    LinkIs(nodes, snap, level, 0, rank[0]);
  }

  /** What the next link on row i says about the pairs smaller than x. */
  lemma NextIs(nodes: seq<SkiplistNode>, snap: Snap, level: nat, i: nat, r: nat, x: Item)
    requires SkipOK(nodes, snap, level) && i < level && r <= Smaller(nodes, x) && nodes[r].height > i
    ensures nodes[r] in snap && i < |snap[nodes[r]].levels|
    ensures var q, l := NextPos(nodes, i, r), snap[nodes[r]].levels[i];
            && (l.forward == null <==> q == |nodes|)
            && (q < |nodes| ==> l.forward == nodes[q] && nodes[q].height > i && Add32(r, l.span) == q)
            && (q < |nodes| ==> (Less(Key(nodes[q]), x) <==> q <= Smaller(nodes, x)))
  {
    LinkIs(nodes, snap, level, i, r);
    var q := NextPos(nodes, i, r);
    NextPosIs(nodes, i, r);
    if q < |nodes| {
      SmallerIs(nodes, x, q);
    }
  }

  /** Along row i as long as the next pair is smaller, adding up the spans. */
  method Advance(x: Item, from: SkiplistNode, rank: nat, i: nat, ghost level: nat, ghost nodes: seq<SkiplistNode>,
                 ghost snap: Snap)
    returns (cur: SkiplistNode, r: nat)
    requires SkipOK(nodes, snap, level) && Mirrored(snap) && i < level
    requires rank <= Smaller(nodes, x) && from == nodes[rank] && nodes[rank].height > i
    ensures r < |nodes| && cur == nodes[r] && Predecessor(nodes, i, Smaller(nodes, x), r)
  {
    cur, r := from, rank;
    NextIs(nodes, snap, level, i, r, x);
    while cur.levels[i].forward != null && Less(Key(cur.levels[i].forward), x)
      invariant r <= Smaller(nodes, x) && cur == nodes[r] && nodes[r].height > i && cur in snap
      invariant i < |snap[cur].levels|
      decreases |nodes| - r
    {
      NextIs(nodes, snap, level, i, r, x);
      r := Add32(r, cur.levels[i].span);
      cur := cur.levels[i].forward;
      NextIs(nodes, snap, level, i, r, x);
    }
    NextIs(nodes, snap, level, i, r, x);
  }

  // ---- insert -----------------------------------------------------------------------------------

  /** Rows the list did not have yet start out from the head, with all nodes ahead. */
  method Raise(head: SkiplistNode, level: nat, height: nat, length: nat, update: seq<SkiplistNode>, rank: seq<nat>,
               ghost nodes: seq<SkiplistNode>, ghost snap: Snap, ghost k: nat)
    returns (update': seq<SkiplistNode>, rank': seq<nat>, ghost snap': Snap)
    requires LinksOK(nodes, snap, level) && Mirrored(snap) && head == nodes[0] && length == |nodes| - 1 && k < |nodes|
    requires level <= height <= MAX_LEVEL && Preds(nodes, update, rank, k, level)
    modifies head
    ensures snap'.Keys == snap.Keys && Mirrored(snap') && LinksOK(nodes, snap', height)
    ensures Preds(nodes, update', rank', k, height)
  {
    update', rank', snap' := update, rank, snap;
    var i := level;
    while i < height
      invariant level <= i <= height && Preds(nodes, update', rank', k, i)
      invariant snap'.Keys == snap.Keys && Mirrored(snap') && LinksOK(nodes, snap', i)
    {
      ghost var before := snap';
      snap' := SetLevel(before, head, i, Level(null, |nodes| - 1));
      RaiseOne(nodes, before, snap', i, k);
      ghost var update0, rank0 := update', rank';
      rank' := rank'[i := 0];
      update' := update'[i := head];
      forall j | 0 <= j < i ensures PredAt(nodes, update', rank', k, j) {
        assert PredAt(nodes, update0, rank0, k, j);
      }
      head.levels := head.levels[i := head.levels[i].(span := length)];
      i := i + 1;
    }
  }

  lemma RaiseOne(nodes: seq<SkiplistNode>, snap: Snap, snap': Snap, i: nat, k: nat)
    requires LinksOK(nodes, snap, i) && i < MAX_LEVEL && k < |nodes|
    requires snap' == SetLevel(snap, nodes[0], i, Level(null, |nodes| - 1))
    ensures LinksOK(nodes, snap', i + 1) && Predecessor(nodes, i, k, 0)
    ensures snap[nodes[0]].levels[i].forward == null
  {
    NextPosUnique(nodes, i, 0, |nodes|);
    SetLevelSame(snap, nodes[0], i, Level(null, |nodes| - 1));
    RowsFrame(nodes, snap, snap', i, 0, i);
    forall p | 0 <= p < |nodes| && nodes[p].height > i
      ensures RowAt(nodes, snap', i, p)
    {
      assert p == 0;
    }
    forall p | 0 < p < |nodes| ensures BackAt(nodes, snap', p) {
      assert BackAt(nodes, snap, p);
    }
  }

  /** One row of linking in the new node x, d nodes behind its predecessor u. */
  method WriteLinkRow(x: SkiplistNode, u: SkiplistNode, i: nat, d: nat, ghost snap: Snap)
    requires Mirrored(snap) && x in snap && u in snap && x != u && i < |snap[x].levels| && i < |snap[u].levels|
    requires d <= snap[u].levels[i].span < TWO_32 && d + 1 < TWO_32
    modifies x, u
    ensures var l := snap[u].levels[i];
            Mirrored(SetLevel(SetLevel(snap, x, i, Level(l.forward, l.span - d)), u, i, Level(x, d + 1)))
  {
    x.levels := x.levels[i := Level(u.levels[i].forward, Sub32(u.levels[i].span, d))];
    u.levels := u.levels[i := Level(x, Add32(d, 1))];
  }

  lemma RowSpan(nodes: seq<SkiplistNode>, snap: Snap, i: nat, k: nat, r: nat)
    requires Heights(nodes, snap) && RowOK(nodes, snap, i) && Predecessor(nodes, i, k, r) && |nodes| < TWO_32
    ensures nodes[r] in snap && i < |snap[nodes[r]].levels|
    ensures snap[nodes[r]].levels[i] == RowLevel(nodes, i, r) && k - r <= RowLevel(nodes, i, r).span < TWO_32
  {
    assert RowAt(nodes, snap, i, r);
  }

  lemma LinkRowDone(x: SkiplistNode, nodes: seq<SkiplistNode>, nodes': seq<SkiplistNode>, snap: Snap, snap': Snap,
                    level: nat, i: nat, k: nat, r: nat)
    requires x in snap && |snap[x].levels| == x.height > i && x !in nodes && Distinct(nodes) && i < level
    requires |nodes| < TWO_32
    requires k < |nodes| && nodes' == WithNode(nodes, k, x) && Predecessor(nodes, i, k, r)
    requires HalfWay(nodes, nodes', snap, i, level)
    requires var l := snap[nodes[r]].levels[i];
             snap' == SetLevel(SetLevel(snap, x, i, Level(l.forward, if l.span >= k - r then l.span - (k - r) else 0)),
                               nodes[r], i, Level(x, k - r + 1))
    ensures HalfWay(nodes, nodes', snap', i + 1, level) && SameBut(snap, snap', i, i + 1)
  {
    assert RowOK(nodes, snap, i);
    RowSpan(nodes, snap, i, k, r);
    var s := SetLevel(snap, x, i, RowWith(nodes, k, x, i, r, k + 1));
    SetLevelSame(snap, x, i, RowWith(nodes, k, x, i, r, k + 1));
    SetLevelSame(s, nodes[r], i, RowWith(nodes, k, x, i, r, r));
    SameButTransitive(snap, s, snap', i, i, i + 1);
    RowLinked(nodes, nodes', snap, snap', x, i, k, r);
    RowDone(nodes, nodes', snap, snap', i, level);
  }

  /** Row i of linking in the new node, whose predecessor there is u. */
  method LinkRow(x: SkiplistNode, u: SkiplistNode, i: nat, d: nat,
                 ghost nodes: seq<SkiplistNode>, ghost nodes': seq<SkiplistNode>, ghost snap: Snap, ghost level: nat,
                 ghost k: nat, ghost r: nat)
    returns (ghost snap': Snap)
    requires x in snap && |snap[x].levels| == x.height > i && i < level
    requires x !in nodes && Distinct(nodes) && |nodes| < TWO_32 && k < |nodes| && nodes' == WithNode(nodes, k, x)
    requires Mirrored(snap) && HalfWay(nodes, nodes', snap, i, level)
    requires Predecessor(nodes, i, k, r) && u == nodes[r] && d == k - r
    modifies x, u
    ensures Mirrored(snap') && HalfWay(nodes, nodes', snap', i + 1, level) && SameBut(snap, snap', i, i + 1)
  {
    assert RowOK(nodes, snap, i);
    RowSpan(nodes, snap, i, k, r);
    ghost var l := snap[u].levels[i];
    WriteLinkRow(x, u, i, d, snap);
    snap' := SetLevel(SetLevel(snap, x, i, Level(l.forward, l.span - d)), u, i, Level(x, d + 1));
    LinkRowDone(x, nodes, nodes', snap, snap', level, i, k, r);
  }

  /** The rows of the new node, lowest first: x goes between its predecessor and what that led to. */
  method LinkRows(x: SkiplistNode, height: nat, update: seq<SkiplistNode>, rank: seq<nat>,
                  ghost nodes: seq<SkiplistNode>, ghost nodes': seq<SkiplistNode>, ghost snap: Snap, ghost level: nat,
                  ghost k: nat)
    returns (ghost snap': Snap)
    requires x in snap && |snap[x].levels| == x.height == height <= level <= MAX_LEVEL
    requires x !in nodes && Distinct(nodes) && |nodes| < TWO_32 && k < |nodes| && nodes' == WithNode(nodes, k, x)
    requires Mirrored(snap) && HalfWay(nodes, nodes', snap, 0, level) && Preds(nodes, update, rank, k, level)
    modifies x, nodes
    ensures Mirrored(snap') && HalfWay(nodes, nodes', snap', height, level) && SameBut(snap, snap', 0, level)
  {
    snap' := snap;
    var i := 0;
    while i < height
      invariant i <= height && Mirrored(snap') && HalfWay(nodes, nodes', snap', i, level)
      invariant SameBut(snap, snap', 0, level)
    {
      assert PredAt(nodes, update, rank, k, i);
      ghost var before := snap';
      snap' := LinkRow(x, update[i], i, Sub32(rank[0], rank[i]), nodes, nodes', before, level, k, rank[i]);
      SameButTransitive(snap, before, snap', i, 0, level);
      i := i + 1;
    }
  }

  lemma StretchRowDone(x: SkiplistNode, nodes: seq<SkiplistNode>, nodes': seq<SkiplistNode>, snap: Snap, snap': Snap,
                       level: nat, i: nat, k: nat, r: nat)
    requires x in snap && |snap[x].levels| == x.height <= i < level && x !in nodes && Distinct(nodes)
    requires |nodes| < TWO_32
    requires k < |nodes| && nodes' == WithNode(nodes, k, x) && Predecessor(nodes, i, k, r)
    requires HalfWay(nodes, nodes', snap, i, level)
    requires snap' == SetLevel(snap, nodes[r], i,
                               Level(snap[nodes[r]].levels[i].forward, snap[nodes[r]].levels[i].span + 1))
    ensures HalfWay(nodes, nodes', snap', i + 1, level) && SameBut(snap, snap', i, i + 1)
  {
    assert RowOK(nodes, snap, i);
    RowSpan(nodes, snap, i, k, r);
    SetLevelSame(snap, nodes[r], i, RowWith(nodes, k, x, i, r, r));
    RowStretched(nodes, nodes', snap, snap', x, i, k, r);
    RowDone(nodes, nodes', snap, snap', i, level);
  }

  method StretchRow(u: SkiplistNode, i: nat, ghost x: SkiplistNode,
                    ghost nodes: seq<SkiplistNode>, ghost nodes': seq<SkiplistNode>, ghost snap: Snap, ghost level: nat,
                    ghost k: nat, ghost r: nat)
    returns (ghost snap': Snap)
    requires x in snap && |snap[x].levels| == x.height <= i < level
    requires x !in nodes && Distinct(nodes) && |nodes| < TWO_32 && k < |nodes| && nodes' == WithNode(nodes, k, x)
    requires Mirrored(snap) && HalfWay(nodes, nodes', snap, i, level)
    requires Predecessor(nodes, i, k, r) && u == nodes[r]
    modifies u
    ensures Mirrored(snap') && HalfWay(nodes, nodes', snap', i + 1, level) && SameBut(snap, snap', i, i + 1)
  {
    assert RowOK(nodes, snap, i);
    RowSpan(nodes, snap, i, k, r);
    ghost var l := snap[u].levels[i];
    u.levels := u.levels[i := u.levels[i].(span := Add32(u.levels[i].span, 1))];
    snap' := SetLevel(snap, u, i, Level(l.forward, l.span + 1));
    StretchRowDone(x, nodes, nodes', snap, snap', level, i, k, r);
  }

  /** The rows above the new node: the links across it get longer by one. */
  method StretchRows(height: nat, level: nat, update: seq<SkiplistNode>, ghost rank: seq<nat>,
                     ghost x: SkiplistNode, ghost nodes: seq<SkiplistNode>, ghost nodes': seq<SkiplistNode>,
                     ghost snap: Snap, ghost k: nat)
    returns (ghost snap': Snap)
    requires x in snap && |snap[x].levels| == x.height == height <= level <= MAX_LEVEL
    requires x !in nodes && Distinct(nodes) && |nodes| < TWO_32 && k < |nodes| && nodes' == WithNode(nodes, k, x)
    requires Mirrored(snap) && HalfWay(nodes, nodes', snap, height, level) && Preds(nodes, update, rank, k, level)
    modifies nodes
    ensures Mirrored(snap') && HalfWay(nodes, nodes', snap', level, level) && SameBut(snap, snap', 0, level)
  {
    snap' := snap;
    var i := height;
    while i < level
      invariant height <= i <= level && Mirrored(snap') && HalfWay(nodes, nodes', snap', i, level)
      invariant SameBut(snap, snap', 0, level)
    {
      assert PredAt(nodes, update, rank, k, i);
      ghost var before := snap';
      snap' := StretchRow(update[i], i, x, nodes, nodes', before, level, k, rank[i]);
      SameButTransitive(snap, before, snap', i, 0, level);
      i := i + 1;
    }
  }

  /** A taller node exists exactly if the head has somewhere to go. */
  lemma TallerExists(nodes: seq<SkiplistNode>, i: nat, p: nat)
    requires 0 < p < |nodes| && nodes[p].height > i
    ensures NextPos(nodes, i, 0) < |nodes|
  {
    NextPosIs(nodes, i, 0);
  }

  ghost function BackwardSnap(nodes: seq<SkiplistNode>, snap: Snap, x: SkiplistNode, k: nat): Snap
    requires x in snap && Heights(nodes, snap) && k < |nodes|
  {
    var s := snap[x := snap[x].(backward := if k == 0 then null else nodes[k])];
    if k + 1 < |nodes| then s[nodes[k + 1] := s[nodes[k + 1]].(backward := x)] else s
  }

  lemma BackwardKeys(nodes: seq<SkiplistNode>, nodes': seq<SkiplistNode>, snap: Snap, x: SkiplistNode, k: nat)
    requires x in snap && Heights(nodes, snap) && k < |nodes| && nodes' == WithNode(nodes, k, x)
    ensures BackwardSnap(nodes, snap, x, k).Keys == snap.Keys
    ensures |nodes'| == |nodes| + 1 && nodes'[0] == nodes[0]
  {
  }

  lemma BackwardDone(nodes: seq<SkiplistNode>, nodes': seq<SkiplistNode>, before: Snap, snap: Snap, snap': Snap,
                     x: SkiplistNode, k: nat)
    requires Heights(nodes, before) && BackOK(nodes, before) && x !in nodes && Distinct(nodes)
    requires k < |nodes| && nodes' == WithNode(nodes, k, x) && x in snap && Heights(nodes, snap)
    requires Heights(nodes', snap)
    requires forall n :: n in before ==> n in snap && snap[n].backward == before[n].backward
    requires snap' == BackwardSnap(nodes, snap, x, k)
    ensures Heights(nodes', snap') && BackOK(nodes', snap')
  {
    forall p | 0 <= p < |nodes'| ensures nodes'[p] in snap' && |snap'[nodes'[p]].levels| == nodes'[p].height {
      assert |snap[nodes'[p]].levels| == nodes'[p].height;
    }
    forall p | 0 < p < |nodes'| ensures BackAt(nodes', snap', p) {
      NodeWith(nodes, nodes', k, x, p);
      NodeWith(nodes, nodes', k, x, p - 1);
      if p <= k {
        assert BackAt(nodes, before, p);
      } else if p > k + 1 {
        assert BackAt(nodes, before, p - 1);
      }
    }
  }

  lemma RowsKept(nodes: seq<SkiplistNode>, snap: Snap, snap': Snap, hi: nat)
    requires Heights(nodes, snap) && Heights(nodes, snap') && Rows(nodes, snap, 0, hi)
    requires forall p :: 0 <= p < |nodes| ==> snap'[nodes[p]].levels == snap[nodes[p]].levels
    ensures Rows(nodes, snap', 0, hi)
  {
    forall row | 0 <= row < hi ensures RowOK(nodes, snap', row) {
      assert RowOK(nodes, snap, row);
      forall p | 0 <= p < |nodes| && nodes[p].height > row ensures RowAt(nodes, snap', row, p) {
        assert RowAt(nodes, snap, row, p);
      }
    }
  }

  /** The contents with the new node: the sorted insert of its pair. */
  lemma ContentsWith(nodes: seq<SkiplistNode>, nodes': seq<SkiplistNode>, x: SkiplistNode)
    requires |nodes| > 0 && WeaklySorted(Contents(nodes)) && nodes' == WithNode(nodes, Smaller(nodes, Key(x)), x)
    ensures Contents(nodes') == SortedInsert(Contents(nodes), Key(x)) && WeaklySorted(Contents(nodes'))
  {
    var k, s := Smaller(nodes, Key(x)), SortedInsert(Contents(nodes), Key(x));
    forall p | 0 <= p < |nodes| ensures Contents(nodes')[p] == s[p] {
      NodeWith(nodes, nodes', k, x, p + 1);
    }
    assert Contents(nodes') == s;
    SortedInsertSorted(Contents(nodes), Key(x));
  }

  lemma InsertDone(nodes: seq<SkiplistNode>, nodes': seq<SkiplistNode>, start: Snap, raised: Snap, linked: Snap,
                   snap': Snap,
                   x: SkiplistNode, oldLevel: nat, level: nat, k: nat)
    requires SkipOK(nodes, start, oldLevel) && |nodes| < TWO_32 && k == Smaller(nodes, Key(x))
    requires nodes' == WithNode(nodes, k, x)
    requires oldLevel <= level && 1 <= x.height <= level && (level == oldLevel || level == x.height)
    requires x !in raised && LinksOK(nodes, raised, level)
    requires linked.Keys == raised.Keys + {x} && Heights(nodes, linked) && Heights(nodes', linked)
    requires Rows(nodes', linked, 0, level)
    requires forall n :: n in raised ==> SameFields(raised[n], linked[n], 0, level)
    requires snap' == BackwardSnap(nodes, linked, x, k)
    ensures SkipOK(nodes', snap', level) && Contents(nodes') == SortedInsert(Contents(nodes), Key(x))
  {
    NotKnown(nodes, raised, x);
    BackwardDone(nodes, nodes', raised, linked, snap', x, k);
    RowsKept(nodes', linked, snap', level);
    ContentsWith(nodes, nodes', x);
    DistinctWith(nodes, nodes', k, x);
    HeightsBelowWith(nodes, nodes', raised, snap', k, x, level);
    MinimalWith(nodes, nodes', x, oldLevel, level, k);
  }

  lemma MinimalWith(nodes: seq<SkiplistNode>, nodes': seq<SkiplistNode>, x: SkiplistNode, oldLevel: nat, level: nat,
                    k: nat)
    requires k < |nodes| && nodes' == WithNode(nodes, k, x)
    requires oldLevel > 1 ==> NextPos(nodes, oldLevel - 1, 0) < |nodes|
    requires level == oldLevel || level == x.height
    ensures level > 1 ==> NextPos(nodes', level - 1, 0) < |nodes'|
  {
    if level > 1 {
      if level == x.height {
        NodeWith(nodes, nodes', k, x, k + 1);
        TallerExists(nodes', level - 1, k + 1);
      } else {
        var q := NextPos(nodes, level - 1, 0);
        NextPosIs(nodes, level - 1, 0);
        NodeWith(nodes, nodes', k, x, if q <= k then q else q + 1);
        TallerExists(nodes', level - 1, if q <= k then q else q + 1);
      }
    }
  }

  lemma HeightsBelowWith(nodes: seq<SkiplistNode>, nodes': seq<SkiplistNode>, snap: Snap, snap': Snap, k: nat,
                         x: SkiplistNode, level: nat)
    requires k < |nodes| && nodes' == WithNode(nodes, k, x) && Heights(nodes, snap) && Heights(nodes', snap')
    requires HeightsBelow(nodes, snap, level) && 1 <= x.height <= level && nodes[0] in snap'
    requires |snap'[nodes[0]].levels| == |snap[nodes[0]].levels|
    requires forall j :: level <= j < MAX_LEVEL ==> snap'[nodes[0]].levels[j] == snap[nodes[0]].levels[j]
    ensures HeightsBelow(nodes', snap', level)
  {
    NodeWith(nodes, nodes', k, x, 0);
    forall p | 0 < p < |nodes'| ensures 1 <= nodes'[p].height <= level {
      NodeWith(nodes, nodes', k, x, p);
    }
  }

  lemma DistinctWith(nodes: seq<SkiplistNode>, nodes': seq<SkiplistNode>, k: nat, x: SkiplistNode)
    requires Distinct(nodes) && x !in nodes && k < |nodes| && nodes' == WithNode(nodes, k, x)
    ensures Distinct(nodes')
  {
    forall p, q | 0 <= p < q < |nodes'| ensures nodes'[p] != nodes'[q] {
      NodeWith(nodes, nodes', k, x, p);
      NodeWith(nodes, nodes', k, x, q);
    }
  }

  /** The predecessors of the new pair on every row it will have, new rows included. */
  method FindPlace(x: Item, height: nat, head: SkiplistNode, level: nat, length: nat, ghost nodes: seq<SkiplistNode>,
                   ghost snap: Snap)
    returns (update: seq<SkiplistNode>, rank: seq<nat>, level': nat, ghost snap': Snap)
    requires SkipOK(nodes, snap, level) && Mirrored(snap) && head == nodes[0] && length == |nodes| - 1
    requires 1 <= height <= MAX_LEVEL
    modifies head
    ensures snap'.Keys == snap.Keys && Mirrored(snap') && LinksOK(nodes, snap', level')
    ensures level' == (if height > level then height else level)
    ensures Preds(nodes, update, rank, Smaller(nodes, x), level')
  {
    update, rank := Descend(x, head, level, nodes, snap);
    level', snap' := level, snap;
    if height > level {
      update, rank, snap' := Raise(head, level, height, length, update, rank, nodes, snap, Smaller(nodes, x));
      level' := height;
    }
  }

  /** The new node, linked in on its rows, and the rows above it stretched. */
  method LinkNode(score: real, ele: string, height: nat, level: nat, update: seq<SkiplistNode>, rank: seq<nat>,
                  ghost nodes: seq<SkiplistNode>, ghost snap: Snap, ghost k: nat)
    returns (x: SkiplistNode, ghost nodes': seq<SkiplistNode>, ghost snap': Snap)
    requires Mirrored(snap) && LinksOK(nodes, snap, level) && Preds(nodes, update, rank, k, level)
    requires |nodes| < TWO_32 && k < |nodes| && 1 <= height <= level
    modifies nodes
    ensures fresh(x) && x !in snap && x.height == height && Key(x) == Item(score, ele)
    ensures nodes' == WithNode(nodes, k, x)
    ensures snap'.Keys == snap.Keys + {x} && Mirrored(snap') && HalfWay(nodes, nodes', snap', level, level)
    ensures forall n :: n in snap ==> SameFields(snap[n], snap'[n], 0, level)
  {
    x := new SkiplistNode(height, score, ele);
    nodes' := WithNode(nodes, k, x);
    ghost var with := snap[x := Fields(null, x.levels)];
    assert HalfWay(nodes, nodes', with, 0, level) by {
      HeightsWith(nodes, nodes', with, k, x);
      RowsKept(nodes, snap, with, level);
    }
    ghost var linked := LinkRows(x, height, update, rank, nodes, nodes', with, level, k);
    snap' := StretchRows(height, level, update, rank, x, nodes, nodes', linked, k);
    forall n | n in snap ensures SameFields(snap[n], snap'[n], 0, level) {
      assert SameFields(with[n], linked[n], 0, level) && SameFields(linked[n], snap'[n], 0, level);
    }
  }

  /** The backward links of the new node and of its successor, if it has one. */
  method LinkBack(x: SkiplistNode, pred: SkiplistNode, head: SkiplistNode, ghost nodes: seq<SkiplistNode>,
                  ghost nodes': seq<SkiplistNode>,
                  ghost linked: Snap, ghost level: nat, ghost k: nat)
    returns (last: bool, ghost snap': Snap)
    requires Mirrored(linked) && x in linked && k < |nodes| && pred == nodes[k] && head == nodes[0] && Distinct(nodes)
    requires x !in nodes
    requires nodes' == WithNode(nodes, k, x) && Heights(nodes, linked) && Heights(nodes', linked)
    requires Rows(nodes', linked, 0, level)
    requires level >= 1 && x.height >= 1 && forall p :: 0 < p < |nodes| ==> nodes[p].height >= 1
    modifies x, nodes
    ensures snap' == BackwardSnap(nodes, linked, x, k) && snap'.Keys == linked.Keys && Mirrored(snap')
    ensures |nodes'| == |nodes| + 1 && nodes'[0] == head && nodes'[|nodes|] == if last then x else nodes[|nodes| - 1]
    ensures |nodes| == 1 ==> last
  {
    snap' := BackwardSnap(nodes, linked, x, k);
    BackwardKeys(nodes, nodes', linked, x, k);
    FirstRow(nodes, nodes', linked, level, x, k);
    if pred == head {
      x.backward := null;
    } else {
      x.backward := pred;
    }
    last := x.levels[0].forward == null;
    if !last {
      x.levels[0].forward.backward := x;
    }
  }

  method InsertNode(score: real, ele: string, height: nat, head: SkiplistNode, level: nat, length: nat,
                    ghost nodes: seq<SkiplistNode>, ghost snap: Snap)
    returns (x: SkiplistNode, level': nat, last: bool, ghost nodes': seq<SkiplistNode>, ghost snap': Snap)
    requires SkipOK(nodes, snap, level) && Mirrored(snap) && head == nodes[0] && length == |nodes| - 1
    requires |nodes| < TWO_32 && 1 <= height <= MAX_LEVEL
    modifies snap.Keys
    ensures snap'.Keys == snap.Keys + {x} && fresh(x) && Mirrored(snap')
    ensures SkipOK(nodes', snap', level') && |nodes'| == |nodes| + 1 && head == nodes'[0]
    ensures nodes'[|nodes|] == if last then x else nodes[|nodes| - 1]
    ensures |nodes| == 1 ==> last
    ensures Contents(nodes') == SortedInsert(Contents(nodes), Item(score, ele))
    ensures nodes' == WithNode(nodes, Smaller(nodes, Item(score, ele)), x) && x.height == height
  {
    ghost var k := Smaller(nodes, Item(score, ele));
    var update, rank;
    ghost var raised, linked;
    update, rank, level', raised := FindPlace(Item(score, ele), height, head, level, length, nodes, snap);
    x, nodes', linked := LinkNode(score, ele, height, level', update, rank, nodes, raised, k);
    assert PredAt(nodes, update, rank, k, 0);
    NotKnown(nodes, raised, x);
    last, snap' := LinkBack(x, update[0], head, nodes, nodes', linked, level', k);
    InsertDone(nodes, nodes', snap, raised, linked, snap', x, level, level', k);
  }

  lemma NotKnown(nodes: seq<SkiplistNode>, snap: Snap, x: SkiplistNode)
    requires Heights(nodes, snap) && x !in snap
    ensures x !in nodes
  {
  }

  // ---- remove -------------------------------------------------------------------------------------

  /** Subtracting one from a span of zero wraps around, and adding the result wraps back. */
  lemma WrapBack(a: nat, b: nat)
    requires a < TWO_32 && b < TWO_32 && 1 <= a + b <= TWO_32
    ensures Add32(a, Sub32(b, 1)) == if a + b == TWO_32 then TWO_32 - 1 else a + b - 1
  {
    if b == 0 {
      assert Sub32(b, 1) == TWO_32 - 1;
      assert a + (TWO_32 - 1) == (a - 1) + TWO_32;
    }
  }

  lemma UnlinkRowDone(nodes: seq<SkiplistNode>, nodes': seq<SkiplistNode>, snap: Snap, snap': Snap, level: nat, i: nat,
                      d: nat, r: nat)
    requires 0 < d < |nodes| && nodes' == WithoutNode(nodes, d) && Distinct(nodes) && i < level
    requires Predecessor(nodes, i, d - 1, r)
    requires HalfWay(nodes, nodes', snap, i, level) && nodes[r] in snap && i < |snap[nodes[r]].levels|
    requires snap' == SetLevel(snap, nodes[r], i, RowWithout(nodes, d, i, r, r))
    ensures HalfWay(nodes, nodes', snap', i + 1, level) && SameBut(snap, snap', i, i + 1)
  {
    assert RowOK(nodes, snap, i);
    SetLevelSame(snap, nodes[r], i, RowWithout(nodes, d, i, r, r));
    RowUnlinked(nodes, nodes', snap, snap', i, d, r);
    RowDone(nodes, nodes', snap, snap', i, level);
  }

  /** What row i of the node to delete and of its predecessor hold, in numbers that fit. */
  lemma UnlinkFacts(nodes: seq<SkiplistNode>, snap: Snap, level: nat, i: nat, d: nat, r: nat)
    requires 0 < d < |nodes| <= TWO_32 && Distinct(nodes) && i < level && Predecessor(nodes, i, d - 1, r)
    requires Heights(nodes, snap) && RowOK(nodes, snap, i)
    ensures nodes[r] in snap && i < |snap[nodes[r]].levels|
    ensures var l := snap[nodes[r]].levels[i];
            && (l.forward == nodes[d] <==> NextPos(nodes, i, r) == d)
            && 0 < l.span < TWO_32 && l == RowLevel(nodes, i, r)
    ensures NextPos(nodes, i, r) == d ==>
      && nodes[d].height > i && nodes[d] in snap && i < |snap[nodes[d]].levels|
      && snap[nodes[d]].levels[i] == RowLevel(nodes, i, d) && RowLevel(nodes, i, r).span + RowLevel(nodes, i,
                                                                                                    d).span <= TWO_32
      && RowLevel(nodes, i, d).span < TWO_32
  {
    assert RowAt(nodes, snap, i, r);
    NextPosIs(nodes, i, r);
    var q := NextPos(nodes, i, r);
    if q == d {
      assert RowAt(nodes, snap, i, d);
    }
  }

  /** Row i of deleteNode: the predecessor u takes over the link of x, or its own link gets shorter by one. */
  method UnlinkRow(x: SkiplistNode, u: SkiplistNode, i: nat,
                   ghost nodes: seq<SkiplistNode>, ghost nodes': seq<SkiplistNode>, ghost snap: Snap, ghost level: nat,
                   ghost d: nat, ghost r: nat)
    returns (ghost snap': Snap)
    requires 0 < d < |nodes| <= TWO_32 && nodes' == WithoutNode(nodes, d) && Distinct(nodes) && i < level
    requires x == nodes[d]
    requires Mirrored(snap) && HalfWay(nodes, nodes', snap, i, level)
    requires Predecessor(nodes, i, d - 1, r) && u == nodes[r]
    modifies u
    ensures Mirrored(snap') && HalfWay(nodes, nodes', snap', i + 1, level) && SameBut(snap, snap', i, i + 1)
    ensures x in snap && snap'[x] == snap[x]
  {
    hide NextPos;
    assert RowOK(nodes, snap, i);
    UnlinkFacts(nodes, snap, level, i, d, r);
    snap' := SetLevel(snap, u, i, RowWithout(nodes, d, i, r, r));
    UnlinkRowDone(nodes, nodes', snap, snap', level, i, d, r);
    if u.levels[i].forward == x {
      WrapBack(u.levels[i].span, x.levels[i].span);
      u.levels := u.levels[i := u.levels[i].(span := Add32(u.levels[i].span, Sub32(x.levels[i].span, 1)))];
      u.levels := u.levels[i := u.levels[i].(forward := x.levels[i].forward)];
    } else {
      u.levels := u.levels[i := u.levels[i].(span := Sub32(u.levels[i].span, 1))];
    }
  }

  method UnlinkRows(x: SkiplistNode, level: nat, update: seq<SkiplistNode>, ghost rank: seq<nat>,
                    ghost nodes: seq<SkiplistNode>, ghost nodes': seq<SkiplistNode>, ghost snap: Snap, ghost d: nat)
    returns (ghost snap': Snap)
    requires 0 < d < |nodes| <= TWO_32 && nodes' == WithoutNode(nodes, d) && Distinct(nodes) && x == nodes[d]
    requires level <= MAX_LEVEL
    requires Mirrored(snap) && HalfWay(nodes, nodes', snap, 0, level) && Preds(nodes, update, rank, d - 1, level)
    modifies nodes
    ensures Mirrored(snap') && HalfWay(nodes, nodes', snap', level, level) && SameBut(snap, snap', 0, level)
    ensures x in snap && snap'[x] == snap[x]
  {
    snap' := snap;
    var i := 0;
    while i < level
      invariant i <= level && Mirrored(snap') && HalfWay(nodes, nodes', snap', i, level)
      invariant SameBut(snap, snap', 0, level)
      invariant x in snap && snap'[x] == snap[x]
    {
      assert PredAt(nodes, update, rank, d - 1, i);
      ghost var before := snap';
      snap' := UnlinkRow(x, update[i], i, nodes, nodes', before, level, d, rank[i]);
      SameButTransitive(snap, before, snap', i, 0, level);
      i := i + 1;
    }
  }

  ghost function UnbackSnap(nodes: seq<SkiplistNode>, snap: Snap, d: nat): Snap
    requires 0 < d < |nodes| && Heights(nodes, snap)
  {
    if d + 1 < |nodes| then snap[nodes[d + 1] := snap[nodes[d + 1]].(backward := snap[nodes[d]].backward)] else snap
  }

  lemma UnbackDone(nodes: seq<SkiplistNode>, nodes': seq<SkiplistNode>, before: Snap, snap: Snap, snap': Snap, d: nat)
    requires 0 < d < |nodes| && nodes' == WithoutNode(nodes, d) && Distinct(nodes)
    requires Heights(nodes, before) && BackOK(nodes, before) && Heights(nodes, snap) && Heights(nodes', snap)
    requires forall n :: n in before ==> n in snap && snap[n].backward == before[n].backward
    requires snap' == UnbackSnap(nodes, snap, d)
    ensures snap'.Keys == snap.Keys && Heights(nodes', snap') && BackOK(nodes', snap')
    ensures snap[nodes[d]].backward == if d == 1 then null else nodes[d - 1]
  {
    assert BackAt(nodes, before, d);
    forall p | 0 <= p < |nodes'| ensures nodes'[p] in snap' && |snap'[nodes'[p]].levels| == nodes'[p].height {
      assert |snap[nodes'[p]].levels| == nodes'[p].height;
    }
    forall p | 0 < p < |nodes'| ensures BackAt(nodes', snap', p) {
      NodeWithout(nodes, nodes', d, p);
      NodeWithout(nodes, nodes', d, p - 1);
      assert BackAt(nodes, before, if p < d then p else p + 1);
    }
  }

  /** All that holds of the links once the node is gone, the level not yet lowered. */
  lemma RemoveDone(nodes: seq<SkiplistNode>, nodes': seq<SkiplistNode>, start: Snap, unlinked: Snap, snap': Snap,
                   level: nat, d: nat)
    requires LinksOK(nodes, start, level) && 0 < d < |nodes| && nodes' == WithoutNode(nodes, d)
    requires HalfWay(nodes, nodes', unlinked, level, level) && SameBut(start, unlinked, 0, level)
    requires snap' == UnbackSnap(nodes, unlinked, d)
    ensures LinksOK(nodes', snap', level) && nodes'[0] == nodes[0]
  {
    UnbackDone(nodes, nodes', start, unlinked, snap', d);
    RowsKept(nodes', unlinked, snap', level);
    assert SameFields(start[nodes[0]], unlinked[nodes[0]], 0, level);
    forall p | 0 < p < |nodes'| ensures 1 <= nodes'[p].height <= level {
      NodeWithout(nodes, nodes', d, p);
    }
    forall p, q | 0 <= p < q < |nodes'| ensures nodes'[p] != nodes'[q] {
      NodeWithout(nodes, nodes', d, p);
      NodeWithout(nodes, nodes', d, q);
    }
    NodeWithout(nodes, nodes', d, 0);
  }

  lemma ContentsWithout(nodes: seq<SkiplistNode>, nodes': seq<SkiplistNode>, d: nat)
    requires 0 < d < |nodes| && nodes' == WithoutNode(nodes, d) && WeaklySorted(Contents(nodes))
    ensures Contents(nodes') == RemoveAt(Contents(nodes), d - 1) && WeaklySorted(Contents(nodes'))
  {
    var s := RemoveAt(Contents(nodes), d - 1);
    forall p | 0 <= p < |nodes'| - 1 ensures Contents(nodes')[p] == s[p] {
      NodeWithout(nodes, nodes', d, p + 1);
    }
    assert Contents(nodes') == s;
    RemoveSorted(Contents(nodes), d - 1);
  }

  /** Rows without any node left are given up. */
  method Lower(head: SkiplistNode, level: nat, ghost nodes: seq<SkiplistNode>, ghost snap: Snap) returns (level': nat)
    requires LinksOK(nodes, snap, level) && Mirrored(snap) && head == nodes[0]
    ensures LinksOK(nodes, snap, level') && (level' > 1 ==> NextPos(nodes, level' - 1, 0) < |nodes|)
  {
    level' := level;
    while level' > 1 && head.levels[level' - 1].forward == null
      invariant LinksOK(nodes, snap, level')
    {
      LowerOne(nodes, snap, level');
      level' := level' - 1;
    }
    if level' > 1 {
      LowerOne(nodes, snap, level');
    }
  }

  lemma LowerOne(nodes: seq<SkiplistNode>, snap: Snap, level: nat)
    requires LinksOK(nodes, snap, level) && level > 1
    ensures snap[nodes[0]].levels[level - 1].forward == null <==> NextPos(nodes, level - 1, 0) == |nodes|
    ensures snap[nodes[0]].levels[level - 1].forward == null ==> LinksOK(nodes, snap, level - 1)
  {
    assert RowOK(nodes, snap, level - 1);
    assert RowAt(nodes, snap, level - 1, 0);
    NextPosIs(nodes, level - 1, 0);
    assert Rows(nodes, snap, 0, level - 1);
  }

  /** Takes the node out of its rows and of the backward links. */
  method Unlink(x: SkiplistNode, level: nat, update: seq<SkiplistNode>, ghost rank: seq<nat>,
                ghost nodes: seq<SkiplistNode>, ghost snap: Snap, ghost d: nat)
    returns (last: bool, ghost nodes': seq<SkiplistNode>, ghost snap': Snap)
    requires LinksOK(nodes, snap, level) && Mirrored(snap) && 0 < d < |nodes| <= TWO_32 && x == nodes[d]
    requires Preds(nodes, update, rank, d - 1, level)
    modifies snap.Keys
    ensures snap'.Keys == snap.Keys && Mirrored(snap') && LinksOK(nodes', snap', level)
    ensures nodes' == WithoutNode(nodes, d) && nodes'[0] == nodes[0]
    ensures last <==> d + 1 == |nodes|
    ensures x.backward == if d == 1 then null else nodes[d - 1]
  {
    nodes' := WithoutNode(nodes, d);
    StartWithout(nodes, nodes', snap, level, d);
    FirstLink(nodes, snap, level, d);
    ghost var unlinked := UnlinkRows(x, level, update, rank, nodes, nodes', snap, d);
    snap' := UnbackSnap(nodes, unlinked, d);
    UnbackDone(nodes, nodes', snap, unlinked, snap', d);
    RemoveDone(nodes, nodes', snap, unlinked, snap', level, d);
    last := x.levels[0].forward == null;
    if !last {
      x.levels[0].forward.backward := x.backward;
    }
  }

  method DeleteNode(x: SkiplistNode, head: SkiplistNode, tail: SkiplistNode?, level: nat, update: seq<SkiplistNode>,
                    ghost rank: seq<nat>,
                    ghost nodes: seq<SkiplistNode>, ghost snap: Snap, ghost d: nat)
    returns (level': nat, tail': SkiplistNode?, ghost nodes': seq<SkiplistNode>, ghost snap': Snap)
    requires SkipOK(nodes, snap, level) && Mirrored(snap) && 0 < d < |nodes| <= TWO_32 && x == nodes[d]
    requires head == nodes[0]
    requires Preds(nodes, update, rank, d - 1, level) && tail == nodes[|nodes| - 1]
    modifies snap.Keys
    ensures snap'.Keys == snap.Keys && Mirrored(snap') && SkipOK(nodes', snap', level')
    ensures |nodes'| == |nodes| - 1 && nodes'[0] == head && Contents(nodes') == RemoveAt(Contents(nodes), d - 1)
    ensures tail' == if |nodes'| == 1 then null else nodes'[|nodes'| - 1]
  {
    var last;
    last, nodes', snap' := Unlink(x, level, update, rank, nodes, snap, d);
    ContentsWithout(nodes, nodes', d);
    RemovedTail(nodes, nodes', d);
    tail' := if last then x.backward else tail;
    level' := Lower(head, level, nodes', snap');
  }

  lemma StartWithout(nodes: seq<SkiplistNode>, nodes': seq<SkiplistNode>, snap: Snap, level: nat, d: nat)
    requires LinksOK(nodes, snap, level) && 0 < d < |nodes| && nodes' == WithoutNode(nodes, d)
    ensures HalfWay(nodes, nodes', snap, 0, level)
  {
    forall p | 0 <= p < |nodes'| ensures nodes'[p] in snap && |snap[nodes'[p]].levels| == nodes'[p].height {
      NodeWithout(nodes, nodes', d, p);
    }
  }

  /** On row 0 every node leads to its neighbour. */
  lemma FirstLink(nodes: seq<SkiplistNode>, snap: Snap, level: nat, d: nat)
    requires LinksOK(nodes, snap, level) && d < |nodes|
    ensures nodes[d] in snap && |snap[nodes[d]].levels| >= 1
    ensures snap[nodes[d]].levels[0].forward == if d + 1 < |nodes| then nodes[d + 1] else null
  {
    assert RowOK(nodes, snap, 0);
    assert RowAt(nodes, snap, 0, d);
  }

  /** The search of RemoveByScore: the first pair not smaller, if it is the one looked for. */
  method FindPair(x: Item, head: SkiplistNode, level: nat, ghost nodes: seq<SkiplistNode>, ghost snap: Snap)
    returns (cur: SkiplistNode?, update: seq<SkiplistNode>, ghost rank: seq<nat>)
    requires SkipOK(nodes, snap, level) && Mirrored(snap) && head == nodes[0]
    ensures Preds(nodes, update, rank, Smaller(nodes, x), level)
    ensures cur != null <==> x in Contents(nodes)
    ensures cur != null ==> Smaller(nodes, x) + 1 < |nodes| && cur == nodes[Smaller(nodes, x) + 1]
  {
    update, rank := Descend(x, head, level, nodes, snap);
    ghost var k := Smaller(nodes, x);
    assert PredAt(nodes, update, rank, k, 0);
    FirstLink(nodes, snap, level, k);
    StoredAt(nodes, x);
    cur := update[0].levels[0].forward;
    if !(cur != null && cur.score == x.score && cur.ele == x.member) {
      cur := null;
    }
  }

  method RemoveNode(x: Item, head: SkiplistNode, tail: SkiplistNode?, level: nat, ghost nodes: seq<SkiplistNode>,
                    ghost snap: Snap)
    returns (found: bool, level': nat, tail': SkiplistNode?, ghost nodes': seq<SkiplistNode>, ghost snap': Snap)
    requires SkipOK(nodes, snap, level) && Mirrored(snap) && head == nodes[0]
    requires tail == if |nodes| == 1 then null else nodes[|nodes| - 1]
    modifies snap.Keys
    ensures snap'.Keys == snap.Keys && Mirrored(snap') && SkipOK(nodes', snap', level') && head == nodes'[0]
    ensures tail' == if |nodes'| == 1 then null else nodes'[|nodes'| - 1]
    ensures found <==> x in Contents(nodes)
    ensures Contents(nodes') == SortedRemove(Contents(nodes), x)
    ensures if found then |nodes'| == |nodes| - 1 else nodes' == nodes && snap' == snap
  {
    var cur, update;
    ghost var rank;
    cur, update, rank := FindPair(x, head, level, nodes, snap);
    StoredAt(nodes, x);
    found := cur != null;
    level', tail', nodes', snap' := level, tail, nodes, snap;
    if found {
      level', tail', nodes', snap' := DeleteNode(cur, head, tail, level, update, rank, nodes, snap,
                                                 Smaller(nodes, x) + 1);
    }
  }

  // ---- rank -----------------------------------------------------------------------------------------

  /** What the next link on row i says about the pairs up to x. */
  lemma NextUpTo(nodes: seq<SkiplistNode>, snap: Snap, level: nat, i: nat, r: nat, x: Item)
    requires SkipOK(nodes, snap, level) && i < level && r <= UpTo(Contents(nodes), x) && nodes[r].height > i
    ensures nodes[r] in snap && i < |snap[nodes[r]].levels|
    ensures var q, l := NextPos(nodes, i, r), snap[nodes[r]].levels[i];
            && (l.forward == null <==> q == |nodes|)
            && (q < |nodes| ==> l.forward == nodes[q] && nodes[q].height > i && Add32(r, l.span) == q)
            && (q < |nodes| ==> (!Less(x, Key(nodes[q])) <==> q <= UpTo(Contents(nodes), x)))
    ensures i == 0 ==> NextPos(nodes, i, r) == r + 1
  {
    LinkIs(nodes, snap, level, i, r);
    var q := NextPos(nodes, i, r);
    NextPosIs(nodes, i, r);
    if q < |nodes| {
      UpToIsPrefix(Contents(nodes), x);
      assert Contents(nodes)[q - 1] == Key(nodes[q]);
    }
  }

  /** Along row i as long as the next pair is not larger, adding up the spans. */
  method AdvanceUpTo(x: Item, from: SkiplistNode, rank: nat, i: nat, ghost level: nat, ghost nodes: seq<SkiplistNode>,
                     ghost snap: Snap)
    returns (cur: SkiplistNode, r: nat)
    requires SkipOK(nodes, snap, level) && Mirrored(snap) && i < level
    requires rank <= UpTo(Contents(nodes), x) && from == nodes[rank] && nodes[rank].height > i
    ensures r <= UpTo(Contents(nodes), x) && cur == nodes[r] && nodes[r].height > i
    ensures i == 0 ==> r == UpTo(Contents(nodes), x)
    ensures forall p :: r < p <= UpTo(Contents(nodes), x) ==> nodes[p].height <= i
  {
    cur, r := from, rank;
    NextUpTo(nodes, snap, level, i, r, x);
    while cur.levels[i].forward != null
          && (cur.levels[i].forward.score < x.score
              || (cur.levels[i].forward.score == x.score && !StrLess(x.member, cur.levels[i].forward.ele)))
      invariant r <= UpTo(Contents(nodes), x) && cur == nodes[r] && nodes[r].height > i && cur in snap
      invariant i < |snap[cur].levels|
      decreases |nodes| - r
    {
      NextUpTo(nodes, snap, level, i, r, x);
      r := Add32(r, cur.levels[i].span);
      cur := cur.levels[i].forward;
      NextUpTo(nodes, snap, level, i, r, x);
    }
    NextUpTo(nodes, snap, level, i, r, x);
    NextPosIs(nodes, i, r);
  }

  /** The last pair not larger than a stored pair is that pair. */
  lemma LastUpTo(nodes: seq<SkiplistNode>, x: Item)
    requires |nodes| > 0 && WeaklySorted(Contents(nodes))
    ensures x in Contents(nodes) ==> UpTo(Contents(nodes), x) > 0 && Key(nodes[UpTo(Contents(nodes), x)]) == x
  {
    var s, n := Contents(nodes), UpTo(Contents(nodes), x);
    UpToIsPrefix(s, x);
    if x in s {
      var i :| 0 <= i < |s| && s[i] == x;
      LessTrichotomy(x, x);
      assert i < n;
      assert Key(nodes[n]) == s[n - 1];
      LessTrichotomy(s[n - 1], x);
    }
  }

  /** Some node as high as `level` has a pair not larger than x. */
  ghost predicate SeenFromTop(nodes: seq<SkiplistNode>, level: nat, x: Item) {
    exists p :: 0 < p < |nodes| && nodes[p].height >= level && !Less(x, Key(nodes[p]))
  }

  /** The highest row leads away from the head exactly if there is such a node. */
  lemma SeenOnTop(nodes: seq<SkiplistNode>, level: nat, x: Item, r: nat)
    requires |nodes| > 0 && WeaklySorted(Contents(nodes)) && r <= UpTo(Contents(nodes), x) && nodes[r].height >= level
    requires forall p :: r < p <= UpTo(Contents(nodes), x) ==> nodes[p].height < level
    ensures SeenFromTop(nodes, level, x) <==> r > 0
  {
    UpToIsPrefix(Contents(nodes), x);
    forall p | 0 < p < |nodes| ensures !Less(x, Key(nodes[p])) <==> p <= UpTo(Contents(nodes), x) {
      assert Key(nodes[p]) == Contents(nodes)[p - 1];
    }
    assert r > 0 ==> !Less(x, Key(nodes[r]));
  }

  /** The first pair of the member is at p. */
  ghost predicate First(s: seq<Item>, p: int, member: string) {
    0 <= p < |s| && s[p].member == member && forall i :: 0 <= i < p ==> s[i].member != member
  }

  /** A node of the given height was put behind those with smaller pairs. */
  ghost predicate Grown(nodes: seq<SkiplistNode>, nodes': seq<SkiplistNode>, x: Item, height: nat)
    requires |nodes| > 0
  {
    var k := Smaller(nodes, x);
    |nodes'| == |nodes| + 1 && nodes' == WithNode(nodes, k, nodes'[k + 1]) && nodes'[k + 1].height == height
  }

  class SkipListIndex {
    var head: SkiplistNode
    var tail: SkiplistNode?
    var length: nat
    var level: nat
    ghost var nodes: seq<SkiplistNode>
    ghost var snap: Snap

    ghost predicate Valid()
      reads this, snap.Keys
    {
      && SkipOK(nodes, snap, level) && Mirrored(snap)
      && head == nodes[0] && Key(head) == Item(0.0, "") && length == |nodes| - 1
      && tail == (if |nodes| == 1 then null else nodes[|nodes| - 1])
    }

    ghost function Items(): seq<Item>
      requires |nodes| > 0
      reads this
    {
      Contents(nodes)
    }

    constructor ()
      ensures Valid() && fresh(snap.Keys) && Items() == []
    {
      var h := new SkiplistNode(MAX_LEVEL, 0.0, "");
      head, tail, length, level := h, null, 0, 1;
      nodes := [h];
      snap := map[h := Fields(null, seq(MAX_LEVEL, _ => Level(null, 0)))];
      new;
      assert RowAt(nodes, snap, 0, 0);
      assert Rows(nodes, snap, 0, 1);
    }

    /** Insert with the level drawn for the new node. */
    method Insert(score: real, ele: string, height: nat)
      requires Valid() && |nodes| < TWO_32 && 1 <= height <= MAX_LEVEL
      modifies this, snap.Keys
      ensures Valid() && old(snap.Keys) <= snap.Keys && fresh(snap.Keys - old(snap.Keys))
      ensures Items() == SortedInsert(old(Items()), Item(score, ele))
      ensures Grown(old(nodes), nodes, Item(score, ele), height)
    {
      var x, newLevel, last;
      ghost var nodes', snap';
      x, newLevel, last, nodes', snap' := InsertNode(score, ele, height, head, level, length, nodes, snap);
      Add32Exact(length, 1);
      Become(newLevel, if last then x else tail, Add32(length, 1), nodes', snap');
    }

    /** Removes the pair if it is stored. */
    method RemoveByScore(score: real, member: string) returns (r: int)
      requires Valid()
      modifies this, snap.Keys
      ensures Valid() && snap.Keys == old(snap.Keys)
      ensures r == if Item(score, member) in old(Items()) then 1 else 0
      ensures Items() == SortedRemove(old(Items()), Item(score, member))
    {
      var found, newLevel, newTail;
      ghost var nodes', snap';
      found, newLevel, newTail, nodes', snap' := RemoveNode(Item(score, member), head, tail, level, nodes, snap);
      if found {
        Become(newLevel, newTail, Sub32(length, 1), nodes', snap');
        return 1;
      }
      r := 0;
    }

    /** The head looks like the pair (0, ""). So a search for that pair ends at the head unless it leaves it on the
        highest row, towards a node of that height with a pair not larger. */
    ghost predicate Visible(x: Item)
      reads this
    {
      x == Item(0.0, "") ==> SeenFromTop(nodes, level, x)
    }

    /** The 1-based rank of a pair, by adding up spans; 0 if it is not stored or cannot be seen. */
    method GetRankByScoreAndMember(score: real, ele: string) returns (rank: nat)
      requires Valid()
      ensures rank <= |Items()| && (rank > 0 ==> Items()[rank - 1] == Item(score, ele))
      ensures rank > 0 <==> Item(score, ele) in Items() && Visible(Item(score, ele))
    {
      hide SeenFromTop, Rows, BackOK, UpTo, WeaklySorted;
      var x, cur := Item(score, ele), head;
      var i: nat := level;
      rank := 0;
      LastUpTo(nodes, x);
      while i > 0
        invariant i <= level && rank <= UpTo(Contents(nodes), x) && cur == nodes[rank] && nodes[rank].height >= i
        invariant i == 0 && i < level ==> x !in Contents(nodes)
        invariant i < level && x == Item(0.0, "") ==> rank > 0 && SeenFromTop(nodes, level, x)
      {
        i := i - 1;
        cur, rank := AdvanceUpTo(x, cur, rank, i, level, nodes, snap);
        if i + 1 == level {
          SeenOnTop(nodes, level, x, rank);
        }
        if cur.score == score && cur.ele == ele {
          assert rank > 0 ==> Contents(nodes)[rank - 1] == x;
          return;
        }
      }
      rank := 0;
    }

    /** The first node with a member. */
    method FindMember(member: string) returns (x: SkiplistNode?, ghost p: nat)
      requires Valid()
      ensures x == null ==> forall i :: 0 <= i < |Items()| ==> Items()[i].member != member
      ensures x != null ==> p < |Items()| && Items()[p] == Key(x) && x.ele == member
      ensures x != null ==> forall i :: 0 <= i < p ==> Items()[i].member != member
    {
      p := 0;
      FirstLink(nodes, snap, level, 0);
      x := head.levels[0].forward;
      while x != null
        invariant p <= |Items()| && x == (if p + 1 < |nodes| then nodes[p + 1] else null)
        invariant forall i :: 0 <= i < p ==> Items()[i].member != member
        decreases |nodes| - p
      {
        assert Items()[p] == Key(x);
        if x.ele == member {
          return;
        }
        FirstLink(nodes, snap, level, p + 1);
        x := x.levels[0].forward;
        p := p + 1;
      }
    }

    /** The rank of a member, through the spans: what a scan from the start would count. */
    method GetRank(member: string) returns (rank: int)
      requires Valid()
      ensures rank == -1 || 0 <= rank < |Items()|
      ensures rank >= 0 ==> Items()[rank].member == member
      ensures (forall i :: 0 <= i < |Items()| ==> Items()[i].member != member) ==> rank == -1
      ensures member != "" && rank == -1 ==> forall i :: 0 <= i < |Items()| ==> Items()[i].member != member
      ensures forall p :: First(Items(), p, member) ==> (rank >= 0 <==> Visible(Items()[p]))
      ensures Sorted(Items()) && rank >= 0 ==> forall i :: 0 <= i < rank ==> Items()[i].member != member
      ensures Valid()
    {
      hide Rows, BackOK, LinksOK, SeenFromTop;
      var x;
      ghost var p;
      x, p := FindMember(member);
      if x == null {
        return -1;
      }
      var r := GetRankByScoreAndMember(x.score, member);
      if Sorted(Items()) && r > 0 {
        SortedPosition(Items(), p);
        SortedPosition(Items(), r - 1);
      }
      if r > 0 {
        return r - 1;
      }
      rank := -1;
    }

    /** The fields of the list after a change of its nodes. */
    method Become(level': nat, tail': SkiplistNode?, length': nat, ghost nodes': seq<SkiplistNode>, ghost snap': Snap)
      requires Mirrored(snap') && SkipOK(nodes', snap', level') && length' == |nodes'| - 1
      requires head == nodes'[0] && Key(head) == Item(0.0, "")
      requires tail' == if |nodes'| == 1 then null else nodes'[|nodes'| - 1]
      modifies `level, `tail, `length, `nodes, `snap
      ensures Valid() && nodes == nodes' && snap == snap'
    {
      level, tail, length, nodes, snap := level', tail', length', nodes', snap';
    }
  }

  /** On row 0 the new node leads to its neighbour. */
  lemma FirstRow(nodes: seq<SkiplistNode>, nodes': seq<SkiplistNode>, snap: Snap, level: nat, x: SkiplistNode, k: nat)
    requires k < |nodes| && nodes' == WithNode(nodes, k, x) && x in snap && Heights(nodes', snap)
    requires Rows(nodes', snap, 0, level)
    requires level >= 1 && x.height >= 1 && forall p :: 0 < p < |nodes| ==> nodes[p].height >= 1
    ensures |snap[x].levels| >= 1 && snap[x].levels[0].forward == if k + 1 < |nodes| then nodes[k + 1] else null
    ensures nodes'[|nodes'| - 1] == if k + 1 < |nodes| then nodes[|nodes| - 1] else x
  {
    NodeWith(nodes, nodes', k, x, k + 1);
    NodeWith(nodes, nodes', k, x, |nodes'| - 1);
    assert RowOK(nodes', snap, 0);
    assert RowAt(nodes', snap, 0, k + 1);
    if k + 1 < |nodes| {
      NodeWith(nodes, nodes', k, x, k + 2);
    }
  }

  /** A stored pair is the first one not smaller than itself. */
  lemma StoredAt(nodes: seq<SkiplistNode>, x: Item)
    requires |nodes| > 0 && WeaklySorted(Contents(nodes))
    ensures x in Contents(nodes) <==> Smaller(nodes, x) + 1 < |nodes| && Key(nodes[Smaller(nodes, x) + 1]) == x
    ensures SortedRemove(Contents(nodes), x) == if x in Contents(nodes) then RemoveAt(Contents(nodes),
        Smaller(nodes, x)) else Contents(nodes)
  {
    var s, k := Contents(nodes), Smaller(nodes, x);
    BelowIsPrefix(s, x);
    if k < |s| {
      assert s[k] == Key(nodes[k + 1]);
    }
    if x in s {
      var i :| 0 <= i < |s| && s[i] == x;
      LessTrichotomy(x, x);
      LessTrichotomy(s[k], x);
      LessTrichotomy(s[i], s[k]);
    }
  }

  lemma RemovedTail(nodes: seq<SkiplistNode>, nodes': seq<SkiplistNode>, d: nat)
    requires 0 < d < |nodes| <= TWO_32 && nodes' == WithoutNode(nodes, d)
    ensures |nodes'| == |nodes| - 1
    ensures nodes'[|nodes'| - 1] == if d + 1 == |nodes| then nodes[d - 1] else nodes[|nodes| - 1]
  {
  }

  /** Link by link: the next node as tall, and how far it is, or else how many nodes are left. */
  lemma ListLink(l: SkipListIndex, i: nat, p: nat) returns (q: nat)
    requires l.Valid() && p < |l.nodes| && i < l.nodes[p].height && i < l.level
    ensures p < q <= |l.nodes| && i < |l.nodes[p].levels|
    ensures forall t :: p < t < q ==> l.nodes[t].height <= i
    ensures var link := l.nodes[p].levels[i];
            if q < |l.nodes| then l.nodes[q].height > i && link.forward == l.nodes[q] && link.span == q - p
            else link.forward == null && link.span == |l.nodes| - 1 - p
  {
    q := NextPos(l.nodes, i, p);
    NextPosIs(l.nodes, i, p);
    assert RowOK(l.nodes, l.snap, i) && RowAt(l.nodes, l.snap, i, p);
    assert l.nodes[p].levels == l.snap[l.nodes[p]].levels;
  }

  /** Node by node: the way back, the end, the length, and the level as the greatest height. */
  lemma ListEnds(l: SkipListIndex, p: nat)
    requires l.Valid() && 0 < p < |l.nodes|
    ensures l.nodes[p].backward == if p == 1 then null else l.nodes[p - 1]
    ensures 1 <= l.nodes[p].height <= l.level <= 32 && |l.nodes[p].levels| == l.nodes[p].height
    ensures l.tail == l.nodes[|l.nodes| - 1] && l.length == |l.nodes| - 1 == |l.Items()|
    ensures l.Items()[p - 1] == Item(l.nodes[p].score, l.nodes[p].ele)
    ensures l.level > 1 ==> exists t :: 0 < t < |l.nodes| && l.nodes[t].height == l.level
  {
    assert BackAt(l.nodes, l.snap, p);
    assert l.nodes[p].backward == l.snap[l.nodes[p]].backward && l.nodes[p].levels == l.snap[l.nodes[p]].levels;
    if l.level > 1 {
      NextPosIs(l.nodes, l.level - 1, 0);
      assert l.nodes[NextPos(l.nodes, l.level - 1, 0)].height == l.level;
    }
  }

  lemma GrownOnce(nodes: seq<SkiplistNode>, nodes': seq<SkiplistNode>, x: Item, height: nat)
    requires |nodes| == 1 && Grown(nodes, nodes', x, height) && Contents(nodes') == SortedInsert(Contents(nodes), x)
    ensures |nodes'| == 2 && nodes'[1].height == height && Contents(nodes') == [x]
  {
    assert Contents(nodes) == [];
  }

  lemma GrownTwice(nodes: seq<SkiplistNode>, nodes': seq<SkiplistNode>, x: Item, y: Item, height: nat)
    requires |nodes| == 2 && Contents(nodes) == [x] && Less(x, y)
    requires Grown(nodes, nodes', y, height) && Contents(nodes') == SortedInsert(Contents(nodes), y)
    ensures |nodes'| == 3 && nodes'[1] == nodes[1] && nodes'[2].height == height && Contents(nodes') == [x, y]
  {
    PrefixBelow([x], y, 1);
    assert [x][..1] + [y] + [x][1..] == [x, y];
    assert |Contents(nodes')| == 2 && Key(nodes'[1]) == Contents(nodes')[0];
    assert Smaller(nodes, y) == 1;
  }

  lemma HiddenPair(nodes: seq<SkiplistNode>, snap: Snap, level: nat, x: Item, y: Item)
    requires SkipOK(nodes, snap, level) && |nodes| == 3 && Contents(nodes) == [x, y] && Less(x, y)
    requires nodes[1].height == 1 && nodes[2].height == 2
    ensures !SeenFromTop(nodes, level, x)
  {
    assert Key(nodes[2]) == Contents(nodes)[1];
    assert level >= nodes[2].height;
  }

  method EmptyBelowTaller() returns (list: SkipListIndex)
    ensures list.Valid() && list.Items() == [Item(0.0, ""), Item(1.0, "b")] && !list.Visible(Item(0.0, ""))
  {
    hide SkipOK, Grown, SortedInsert;
    ghost var x, y := Item(0.0, ""), Item(1.0, "b");
    list := new SkipListIndex();
    ghost var none := list.nodes;
    list.Insert(0.0, "", 1);
    ghost var one := list.nodes;
    GrownOnce(none, one, x, 1);
    list.Insert(1.0, "b", 2);
    GrownTwice(one, list.nodes, x, y, 2);
    HiddenPair(list.nodes, list.snap, list.level, x, y);
  }

  /** The empty member with score 0, below a taller node with a larger pair: stored, but not seen. */
  method EmptyMemberOverlooked() returns (list: SkipListIndex, rank: int)
    ensures list.Valid() && Item(0.0, "") in list.Items() && rank == -1
  {
    hide SkipOK;
    list := EmptyBelowTaller();
    assert list.Items()[0] == Item(0.0, "");
    rank := list.GetRank("");
  }
}
