/** The rebalancing steps of the B+ tree on the level-by-level description: split, borrow and merge. */
module BTreeSteps {
  import opened Items
  import opened BTreeShape

  lemma ParentLink(levels: seq<seq<Cell>>, k: nat, p: nat, pp: nat, j: nat)
    requires Linked(levels) && ParentOf(levels, k, p, 1, pp, j)
    ensures Down(levels[k + 1][pp])[j] == Link(levels[k][p].node, levels[k][p].fence)
    ensures levels[k + 1][pp].kids[j] == levels[k][p].node
  {
    var up := levels[k + 1];
    assert LinkedAt(levels, k + 1);
    DownAllAround(up, pp, up[pp]);
    assert Down(up[pp])[j] == DownAll(up)[p] == Links(levels[k])[p];
  }

  lemma LinksTwo(a: Cell, b: Cell)
    ensures Links([a, b]) == [Link(a.node, a.fence), Link(b.node, b.fence)]
    ensures Links([a]) == [Link(a.node, a.fence)]
  {
  }

  /** The parent of the cell at (k, p), as the links and as the heap have it. */
  lemma ParentCell(levels: seq<seq<Cell>>, snap: Snap, k: nat, p: nat) returns (pp: nat, j: nat)
    requires Linked(levels) && CellsOK(levels, snap) && k + 1 < |levels| && p < |levels[k]|
    ensures ParentOf(levels, k, p, 1, pp, j)
    ensures CellOK(levels[k][p], k, snap) && CellOK(levels[k + 1][pp], k + 1, snap)
    ensures levels[k + 1][pp].kids[j] == levels[k][p].node && snap[levels[k][p].node].parent == levels[k + 1][pp].node
  {
    assert LevelOK(levels[k], k, snap) && LevelOK(levels[k + 1], k + 1, snap);
    assert LinkedAt(levels, k + 1);
    pp, j := Locate(levels[k + 1], p);
    ParentLink(levels, k, p, pp, j);
    assert CellOK(levels[k + 1][pp], k + 1, snap);
  }

  // ---- the parent's side ---------------------------------------------------------

  function WithSeparator(d: Cell, j: nat, x: Item, kid: BTreeNode): Cell
    requires j <= |d.items| && j < |d.kids|
  {
    d.(items := d.items[..j] + [x] + d.items[j..], kids := d.kids[..j + 1] + [kid] + d.kids[j + 1..])
  }

  lemma DownWithSeparator(d: Cell, j: nat, x: Item, kid: BTreeNode)
    requires |d.kids| == |d.items| + 1 && j < |d.kids|
    ensures Down(WithSeparator(d, j, x, kid))
         == Down(d)[..j] + [Link(d.kids[j], Fin(x.score)), Link(kid, LinkAt(d, j).fence)] + Down(d)[j + 1..]
  {
  }

  function WithoutSeparator(d: Cell, j: nat): Cell
    requires j < |d.items| && j + 1 < |d.kids|
  {
    d.(items := d.items[..j] + d.items[j + 1..], kids := d.kids[..j + 1] + d.kids[j + 2..])
  }

  lemma DownWithoutSeparator(d: Cell, j: nat)
    requires |d.kids| == |d.items| + 1 && j < |d.items|
    ensures Down(WithoutSeparator(d, j)) == Down(d)[..j] + [Link(d.kids[j], LinkAt(d, j + 1).fence)] + Down(d)[j + 2..]
  {
  }

  function WithNewSeparator(d: Cell, j: nat, x: Item): Cell
    requires j < |d.items|
  {
    d.(items := d.items[j := x])
  }

  lemma DownWithNewSeparator(d: Cell, j: nat, x: Item)
    requires |d.kids| == |d.items| + 1 && j < |d.items|
    ensures Down(WithNewSeparator(d, j, x))
         == Down(d)[..j] + [Link(d.kids[j], Fin(x.score)),
                            Link(d.kids[j + 1], LinkAt(d, j + 1).fence)] + Down(d)[j + 2..]
  {
  }

  // ---- splits ----------------------------------------------------------------------

  function LeafLeft(c: Cell, m: nat): Cell
    requires m < |c.items|
  {
    Cell(c.node, c.items[..m], [], Fin(c.items[m].score))
  }

  function LeafRight(c: Cell, m: nat, right: BTreeNode): Cell
    requires m < |c.items|
  {
    Cell(right, c.items[m..], [], c.fence)
  }

  ghost function SplitLeafLevels(levels: seq<seq<Cell>>, p: nat, pp: nat, j: nat, m: nat,
                                 right: BTreeNode): seq<seq<Cell>>
    requires ParentOf(levels, 0, p, 1, pp, j) && j <= |levels[1][pp].items| && m < |levels[0][p].items|
  {
    var c := levels[0][p];
    Rewrite(levels, 0, p, 1, [LeafLeft(c, m), LeafRight(c, m, right)], pp,
            WithSeparator(levels[1][pp], j, c.items[m], right))
  }

  ghost function SplitLeafSnap(snap: Snap, c: Cell, d: Cell, j: nat, m: nat, right: BTreeNode): Snap
    requires c.node in snap && d.node in snap && m < |c.items| && j <= |d.items| && j < |d.kids|
  {
    var d' := WithSeparator(d, j, c.items[m], right);
    snap[c.node := snap[c.node].(items := c.items[..m], next := right)]
        [right := Fields(c.items[m..], [], d.node, snap[c.node].next)]
        [d.node := snap[d.node].(items := d'.items, children := d'.kids)]
  }

  lemma SplitTokens(strict: bool, u: seq<Token>, a: seq<Token>, b: seq<Token>, f: Token, v: seq<Token>)
    requires Ordered(strict, u + ((a + b) + [f]) + v) && |b| > 0 && b[0].isItem
    ensures Ordered(strict, u + ((a + [Token(b[0].bound, false)]) + (b + [f])) + v)
  {
    var x, y := u + a, b + [f] + v;
    assert u + ((a + b) + [f]) + v == x + y;
    AddFence(strict, x, y);
    assert u + ((a + [Token(b[0].bound, false)]) + (b + [f])) + v == x + [Token(y[0].bound, false)] + y;
  }

  lemma SplitLeafReading(l: seq<Cell>, c: Cell, r: seq<Cell>, m: nat, right: BTreeNode)
    requires m < |c.items|
    ensures Flat(l + [LeafLeft(c, m), LeafRight(c, m, right)] + r) == Flat(l + [c] + r)
    ensures Tokens(l + [c] + r)
         == Tokens(l) + ((ItemTokens(c.items[..m]) + ItemTokens(c.items[m..])) + [Token(c.fence, false)]) + Tokens(r)
    ensures Tokens(l + [LeafLeft(c, m), LeafRight(c, m, right)] + r)
         == Tokens(l)
          + ((ItemTokens(c.items[..m]) + [Token(Fin(c.items[m].score), false)])
             + (ItemTokens(c.items[m..]) + [Token(c.fence, false)]))
          + Tokens(r)
  {
    hide Flat, Tokens;
    var a, b := LeafLeft(c, m), LeafRight(c, m, right);
    FlatConcat(l + [c], r);
    FlatConcat(l, [c]);
    FlatConcat(l + [a, b], r);
    FlatConcat(l, [a, b]);
    FlatOne(c);
    FlatTwo(a, b);
    assert c.items == a.items + b.items;
    ItemTokensConcat(a.items, b.items);
  }

  /** Splitting a leaf sets one fence among the tokens and leaves the items as they are. */
  lemma SplitLeafTokens(cells: seq<Cell>, p: nat, m: nat, right: BTreeNode, cells': seq<Cell>)
    requires p < |cells| && m < |cells[p].items|
    requires cells' == cells[..p] + [LeafLeft(cells[p], m), LeafRight(cells[p], m, right)] + cells[p + 1..]
    ensures Flat(cells') == Flat(cells)
    ensures forall strict :: Ordered(strict, Tokens(cells)) ==> Ordered(strict, Tokens(cells'))
  {
    hide Tokens;
    var l, c, r := cells[..p], cells[p], cells[p + 1..];
    SplitLeafReading(l, c, r, m, right);
    assert cells == l + [c] + r;
    forall strict | Ordered(strict, Tokens(cells))
      ensures Ordered(strict, Tokens(cells'))
    {
      SplitTokens(strict, Tokens(l), ItemTokens(c.items[..m]), ItemTokens(c.items[m..]), Token(c.fence, false),
                  Tokens(r));
    }
  }

  lemma SplitLeafHeap(levels: seq<seq<Cell>>, snap: Snap, p: nat, pp: nat, j: nat, m: nat, right: BTreeNode)
    requires ParentOf(levels, 0, p, 1, pp, j) && m < |levels[0][p].items|
    requires CellOK(levels[0][p], 0, snap) && CellOK(levels[1][pp], 1, snap) && Chained(levels[0], snap)
    requires LevelOK(levels[0], 0, snap)
    requires right !in snap && right.isLeaf && right.height == 0
    ensures HeapStep(levels, 0, p, 1, [LeafLeft(levels[0][p], m), LeafRight(levels[0][p], m, right)], pp,
                     WithSeparator(levels[1][pp], j, levels[0][p].items[m], right),
                     snap, SplitLeafSnap(snap, levels[0][p], levels[1][pp], j, m, right))
    ensures ChainStep(levels[0], p, 1, [LeafLeft(levels[0][p], m), LeafRight(levels[0][p], m, right)],
                      snap, SplitLeafSnap(snap, levels[0][p], levels[1][pp], j, m, right))
  {
    var c, d := levels[0][p], levels[1][pp];
    var snap' := SplitLeafSnap(snap, c, d, j, m, right);
    assert levels[0][p..p + 1] == [c];
    assert NodesOf([c]) == {c.node} by { assert [c][0].node in NodesOf([c]); }
    forall i | 0 <= i < |levels[0]|
      ensures levels[0][i].node in snap && (i != p ==> snap'[levels[0][i].node].next == snap[levels[0][i].node].next)
    {
      assert CellOK(levels[0][i], 0, snap);
    }
  }

  // ---- joining two leaves, and sharing their items out anew ---------------------------

  function JoinLeaves(a: Cell, b: Cell): Cell {
    Cell(a.node, a.items + b.items, [], b.fence)
  }

  lemma JoinTokens(strict: bool, u: seq<Token>, a: seq<Token>, f: Token, b: seq<Token>, g: Token, v: seq<Token>)
    requires Ordered(strict, u + ((a + [f]) + (b + [g])) + v)
    ensures Ordered(strict, u + ((a + b) + [g]) + v)
  {
    var x, y := u + a, b + [g] + v;
    assert u + ((a + [f]) + (b + [g])) + v == x + [f] + y;
    DropToken(strict, x, f, y);
    assert u + ((a + b) + [g]) + v == x + y;
  }

  lemma JoinLeavesReading(cells: seq<Cell>, p: nat, cells': seq<Cell>)
    requires p + 1 < |cells|
    requires cells' == cells[..p] + [JoinLeaves(cells[p], cells[p + 1])] + cells[p + 2..]
    ensures Flat(cells') == Flat(cells)
    ensures var u, v, f, g := Tokens(cells[..p]), Tokens(cells[p + 2..]), Token(cells[p].fence,
        false), Token(cells[p + 1].fence, false);
            var a, b := ItemTokens(cells[p].items), ItemTokens(cells[p + 1].items);
            && Tokens(cells) == u + ((a + [f]) + (b + [g])) + v
            && Tokens(cells') == u + ((a + b) + [g]) + v
  {
    hide Flat, Tokens, ItemTokens;
    var a, b, c := cells[p], cells[p + 1], JoinLeaves(cells[p], cells[p + 1]);
    FlatSplice(cells, p, 2, [c]);
    assert cells[p..p + 2] == [a, b];
    FlatOne(c);
    FlatTwo(a, b);
    ItemTokensConcat(a.items, b.items);
  }

  /** Joining two leaves drops one fence among the tokens and leaves the items as they are. */
  lemma JoinLeavesTokens(cells: seq<Cell>, p: nat, cells': seq<Cell>)
    requires p + 1 < |cells|
    requires cells' == cells[..p] + [JoinLeaves(cells[p], cells[p + 1])] + cells[p + 2..]
    ensures Flat(cells') == Flat(cells)
    ensures forall strict :: Ordered(strict, Tokens(cells)) ==> Ordered(strict, Tokens(cells'))
  {
    JoinLeavesReading(cells, p, cells');
    var a, b := cells[p], cells[p + 1];
    forall strict | Ordered(strict, Tokens(cells))
      ensures Ordered(strict, Tokens(cells'))
    {
      JoinTokens(strict, Tokens(cells[..p]), ItemTokens(a.items), Token(a.fence, false),
                 ItemTokens(b.items), Token(b.fence, false), Tokens(cells[p + 2..]));
    }
  }

  /** Sharing the items of two leaves out anew at position m is a join followed by a split. */
  lemma ShareLeavesTokens(cells: seq<Cell>, p: nat, m: nat, cells': seq<Cell>)
    requires p + 1 < |cells| && m < |cells[p].items + cells[p + 1].items|
    requires var c := JoinLeaves(cells[p], cells[p + 1]);
             cells' == cells[..p] + [LeafLeft(c, m), LeafRight(c, m, cells[p + 1].node)] + cells[p + 2..]
    ensures Flat(cells') == Flat(cells)
    ensures forall strict :: Ordered(strict, Tokens(cells)) ==> Ordered(strict, Tokens(cells'))
  {
    var mid := cells[..p] + [JoinLeaves(cells[p], cells[p + 1])] + cells[p + 2..];
    JoinLeavesTokens(cells, p, mid);
    assert mid[..p] == cells[..p] && mid[p + 1..] == cells[p + 2..];
    SplitLeafTokens(mid, p, m, cells[p + 1].node, cells');
  }

  // ---- internal nodes --------------------------------------------------------------------

  function InnerLeft(c: Cell, m: nat): Cell
    requires m < |c.items| && m < |c.kids|
  {
    Cell(c.node, c.items[..m], c.kids[..m + 1], Fin(c.items[m].score))
  }

  function InnerRight(c: Cell, m: nat, right: BTreeNode): Cell
    requires m < |c.items| && m < |c.kids|
  {
    Cell(right, c.items[m + 1..], c.kids[m + 1..], c.fence)
  }

  function JoinInner(a: Cell, x: Item, b: Cell): Cell {
    Cell(a.node, a.items + [x] + b.items, a.kids + b.kids, b.fence)
  }

  /** Splitting an internal node leaves the level below it as it is. */
  lemma SplitInnerDown(c: Cell, m: nat, right: BTreeNode)
    requires |c.kids| == |c.items| + 1 && m < |c.items|
    ensures DownAll([InnerLeft(c, m), InnerRight(c, m, right)]) == Down(c)
  {
    var a, b := InnerLeft(c, m), InnerRight(c, m, right);
    DownAllTwo(a, b);
    assert Down(a) + Down(b) == Down(c);
  }

  /** Joining two internal nodes around their separator leaves the level below them as it is. */
  lemma JoinInnerDown(a: Cell, x: Item, b: Cell)
    requires |a.kids| == |a.items| + 1 && |b.kids| == |b.items| + 1 && a.fence == Fin(x.score)
    ensures Down(JoinInner(a, x, b)) == DownAll([a, b])
  {
    DownAllTwo(a, b);
    assert Down(JoinInner(a, x, b)) == Down(a) + Down(b);
  }

  lemma KidsDistinct(levels: seq<seq<Cell>>, snap: Snap, k: nat, p: nat)
    requires Linked(levels) && CellsOK(levels, snap) && 0 < k < |levels| && p < |levels[k]|
    ensures Distinct(levels[k][p].kids)
  {
    var c, o := levels[k][p], |DownAll(levels[k][..p])|;
    assert LinkedAt(levels, k) && LevelOK(levels[k - 1], k - 1, snap);
    DownAllAround(levels[k], p, c);
    forall i | 0 <= i < |c.kids|
      ensures o + i < |levels[k - 1]| && c.kids[i] == levels[k - 1][o + i].node
    {
      assert Down(c)[i] == DownAll(levels[k])[o + i] == Links(levels[k - 1])[o + i];
    }
  }

  // ---- the heap's side ---------------------------------------------------------------------

  /** The node of c gets the items and children of c. */
  ghost function Store(snap: Snap, c: Cell): Snap
    requires c.node in snap
  {
    snap[c.node := snap[c.node].(items := c.items, children := c.kids)]
  }

  ghost function Members(kids: seq<BTreeNode>): set<BTreeNode> {
    set x | x in kids
  }

  ghost function Reparent(snap: Snap, kids: set<BTreeNode>, par: BTreeNode): Snap {
    map n | n in snap :: if n in kids then snap[n].(parent := par) else snap[n]
  }

  /** Splitting an internal node: the upper half of the children moves to the new node. */
  ghost function SplitInnerSnap(snap: Snap, c: Cell, m: nat, right: BTreeNode, d': Cell): Snap
    requires c.node in snap && d'.node in snap && m < |c.items| && m < |c.kids|
  {
    var r := InnerRight(c, m, right);
    Reparent(Store(Store(snap[right := Fields(r.items, r.kids, d'.node, null)], InnerLeft(c, m)), d'), Members(r.kids),
             right)
  }

  lemma SplitInnerHeap(levels: seq<seq<Cell>>, snap: Snap, k: nat, p: nat, pp: nat, j: nat, m: nat, right: BTreeNode,
                       d': Cell, snap': Snap)
    requires 0 < k && ParentOf(levels, k, p, 1, pp, j) && m < |levels[k][p].items|
    requires CellOK(levels[k][p], k, snap) && CellOK(levels[k + 1][pp], k + 1, snap)
    requires Distinct(levels[k][p].kids)
    requires right !in snap && !right.isLeaf && right.height == k
    requires d' == WithSeparator(levels[k + 1][pp], j, levels[k][p].items[m], right)
    requires snap' == SplitInnerSnap(snap, levels[k][p], m, right, d')
    ensures HeapStep(levels, k, p, 1, [InnerLeft(levels[k][p], m), InnerRight(levels[k][p], m, right)], pp, d', snap,
                     snap')
  {
    hide Flat, Tokens, Links, DownAll;
    var c, d := levels[k][p], levels[k + 1][pp];
    var a, b := InnerLeft(c, m), InnerRight(c, m, right);
    assert levels[k][p..p + 1] == [c];
    assert NodesOf([c]) == {c.node} by { assert [c][0].node in NodesOf([c]); }
    assert snap'.Keys == snap.Keys + {right};
    forall i | 0 <= i < |a.kids|
      ensures a.kids[i] in snap' && snap'[a.kids[i]].parent == c.node
    {
      assert a.kids[i] == c.kids[i] && c.kids[i] in snap;
      assert a.kids[i] !in b.kids;
    }
    forall i | 0 <= i < |b.kids|
      ensures b.kids[i] in snap' && snap'[b.kids[i]].parent == right
    {
      assert b.kids[i] == c.kids[m + 1 + i] && c.kids[m + 1 + i] in snap;
    }
    forall i | 0 <= i < |d'.kids|
      ensures d'.kids[i] in snap' && snap'[d'.kids[i]].parent == d.node
    {
      assert d'.kids[i] == right || d'.kids[i] in d.kids;
    }
    forall x | x in snap
      ensures snap[x].parent !in {c.node, d.node} ==> snap'[x].parent == snap[x].parent
    {
      assert x in b.kids ==> x in c.kids;
    }
  }

  /** Sharing the children of two siblings out anew: those in `moved` get the parent `par`. */
  ghost function ShareSnap(snap: Snap, a': Cell, b': Cell, d': Cell, moved: set<BTreeNode>, par: BTreeNode): Snap
    requires a'.node in snap && b'.node in snap && d'.node in snap
  {
    Reparent(Store(Store(Store(snap, a'), b'), d'), moved, par)
  }

  lemma ShareSnapKeeps(snap: Snap, a': Cell, b': Cell, d': Cell, moved: set<BTreeNode>, par: BTreeNode)
    requires a'.node in snap && b'.node in snap && d'.node in snap
    ensures ShareSnap(snap, a', b', d', moved, par).Keys == snap.Keys
    ensures forall x :: x in snap ==> ShareSnap(snap, a', b', d', moved, par)[x].next == snap[x].next
  {
  }

  /** The new owner of each child of two siblings. */
  ghost predicate Shares(c': Cell, c: Cell, moved: set<BTreeNode>, par: BTreeNode) {
    forall i :: 0 <= i < |c'.kids| ==> if c'.kids[i] in moved then par == c.node else c'.kids[i] in c.kids
  }

  lemma ShareHeap(levels: seq<seq<Cell>>, snap: Snap, k: nat, p: nat, pp: nat, a': Cell, b': Cell, d': Cell,
                  moved: set<BTreeNode>, par: BTreeNode, snap': Snap)
    requires k + 1 < |levels| && p + 2 <= |levels[k]| && pp < |levels[k + 1]|
    requires CellOK(levels[k][p], k, snap) && CellOK(levels[k][p + 1], k, snap)
    requires CellOK(levels[k + 1][pp], k + 1, snap)
    requires levels[k][p].node != levels[k][p + 1].node
    requires a'.node == levels[k][p].node && b'.node == levels[k][p + 1].node
    requires d'.(items := levels[k + 1][pp].items) == levels[k + 1][pp] && |d'.items| == |levels[k + 1][pp].items|
    requires |a'.kids| == (if k == 0 then 0 else |a'.items| + 1) && |b'.kids| == (if k == 0 then 0 else |b'.items| + 1)
    requires Shares(a', levels[k][p], moved, par) && Shares(b', levels[k][p + 1], moved, par)
    requires forall x :: x in moved ==> x in levels[k][p].kids || x in levels[k][p + 1].kids
    requires snap' == ShareSnap(snap, a', b', d', moved, par)
    ensures HeapStep(levels, k, p, 2, [a', b'], pp, d', snap, snap')
  {
    var a, b, d := levels[k][p], levels[k][p + 1], levels[k + 1][pp];
    assert levels[k][p..p + 2] == [a, b];
    assert NodesOf([a, b]) == {a.node, b.node} by {
      assert [a, b][0].node in NodesOf([a, b]) && [a, b][1].node in NodesOf([a, b]);
    }
    assert snap'.Keys == snap.Keys;
    forall x | x in moved
      ensures x in snap && snap[x].parent in {a.node, b.node}
    {
    }
    forall i | 0 <= i < |a'.kids|
      ensures a'.kids[i] in snap' && snap'[a'.kids[i]].parent == a.node
    {
      assert a'.kids[i] in moved || a'.kids[i] in a.kids;
    }
    forall i | 0 <= i < |b'.kids|
      ensures b'.kids[i] in snap' && snap'[b'.kids[i]].parent == b.node
    {
      assert b'.kids[i] in moved || b'.kids[i] in b.kids;
    }
    forall i | 0 <= i < |d'.kids|
      ensures d'.kids[i] in snap' && snap'[d'.kids[i]].parent == d.node
    {
      assert d'.kids[i] == d.kids[i];
    }
  }

  /** Merging: the left sibling takes over everything of the right one, which drops out of the tree. */
  ghost function JoinSnap(snap: Snap, c: Cell, b: Cell, d': Cell, next: BTreeNode?): Snap
    requires c.node in snap && d'.node in snap
  {
    Reparent(Store(Store(snap[c.node := snap[c.node].(next := next)], c), d'), Members(b.kids), c.node)
  }

  lemma JoinHeap(levels: seq<seq<Cell>>, snap: Snap, k: nat, p: nat, pp: nat, j: nat, c: Cell, d': Cell,
                 next: BTreeNode?, snap': Snap)
    requires k + 1 < |levels| && p + 2 <= |levels[k]| && pp < |levels[k + 1]|
    requires CellOK(levels[k][p], k, snap) && CellOK(levels[k][p + 1], k, snap)
    requires CellOK(levels[k + 1][pp], k + 1, snap)
    requires c.node == levels[k][p].node && c.kids == levels[k][p].kids + levels[k][p + 1].kids
    requires |c.kids| == if k == 0 then 0 else |c.items| + 1
    requires j < |levels[k + 1][pp].items| && d' == WithoutSeparator(levels[k + 1][pp], j)
    requires snap' == JoinSnap(snap, c, levels[k][p + 1], d', next)
    ensures HeapStep(levels, k, p, 2, [c], pp, d', snap, snap')
  {
    var a, b, d := levels[k][p], levels[k][p + 1], levels[k + 1][pp];
    assert levels[k][p..p + 2] == [a, b];
    assert NodesOf([a, b]) == {a.node, b.node} by {
      assert [a, b][0].node in NodesOf([a, b]) && [a, b][1].node in NodesOf([a, b]);
    }
    assert snap'.Keys == snap.Keys;
    forall i | 0 <= i < |c.kids|
      ensures c.kids[i] in snap' && snap'[c.kids[i]].parent == a.node
    {
      assert c.kids[i] in a.kids || c.kids[i] in b.kids;
    }
    forall i | 0 <= i < |d'.kids|
      ensures d'.kids[i] in snap' && snap'[d'.kids[i]].parent == d.node
    {
      assert d'.kids[i] in d.kids;
    }
  }

  // ---- the steps as a whole ------------------------------------------------------------------

  /** A step of rebalancing: the invariant, the root, the items in order and the absence of ties are kept. */
  ghost predicate Stepped(levels: seq<seq<Cell>>, levels': seq<seq<Cell>>, snap': Snap)
    requires |levels| > 0 && |levels[|levels| - 1]| == 1
  {
    && Core(levels', snap')
    && |levels'| == |levels| && Top(levels').node == Top(levels).node
    && LeafStep(levels, levels', snap')
  }

  lemma SplitLeafStep(levels: seq<seq<Cell>>, snap: Snap, p: nat, pp: nat, j: nat, m: nat, right: BTreeNode, d': Cell,
                      snap': Snap)
    requires Core(levels, snap) && ParentOf(levels, 0, p, 1, pp, j) && CellOK(levels[1][pp], 1, snap)
    requires 0 < m < |levels[0][p].items|
    requires d' == WithSeparator(levels[1][pp], j, levels[0][p].items[m], right)
    requires HeapStep(levels, 0, p, 1, [LeafLeft(levels[0][p], m), LeafRight(levels[0][p], m, right)], pp, d', snap,
                      snap')
    requires ChainStep(levels[0], p, 1, [LeafLeft(levels[0][p], m), LeafRight(levels[0][p], m, right)], snap, snap')
    ensures Stepped(levels, SplitLeafLevels(levels, p, pp, j, m, right), snap')
  {
    hide Flat, Tokens, Linked, DownAll, CellsOK, Chained, ChainStep;
    var c := levels[0][p];
    var levels', r := SplitLeafLevels(levels, p, pp, j, m, right), [LeafLeft(c, m), LeafRight(c, m, right)];
    SplitDown(levels, 0, p, pp, j, r[0], r[1], c.items[m]);
    assert LeafStep(levels, levels', snap') by {
      ChainSplice(levels[0], p, 1, r, snap, snap');
      SplitLeafTokens(levels[0], p, m, right, levels'[0]);
    }
    StepCore(levels, levels', 0, p, 1, r, pp, j, d', snap, snap');
  }

  ghost function SplitInnerLevels(levels: seq<seq<Cell>>, k: nat, p: nat, pp: nat, j: nat, m: nat,
                                  right: BTreeNode): seq<seq<Cell>>
    requires ParentOf(levels, k, p, 1, pp, j) && j <= |levels[k + 1][pp].items|
    requires m < |levels[k][p].items| && m < |levels[k][p].kids|
  {
    var c := levels[k][p];
    Rewrite(levels, k, p, 1, [InnerLeft(c, m), InnerRight(c, m, right)], pp,
            WithSeparator(levels[k + 1][pp], j, c.items[m], right))
  }

  lemma SplitDown(levels: seq<seq<Cell>>, k: nat, p: nat, pp: nat, j: nat, a: Cell, b: Cell, x: Item)
    requires Linked(levels) && ParentOf(levels, k, p, 1, pp, j)
    requires |levels[k + 1][pp].kids| == |levels[k + 1][pp].items| + 1
    requires a.node == levels[k][p].node && a.fence == Fin(x.score) && b.fence == levels[k][p].fence
    ensures var d := levels[k + 1][pp];
            Down(WithSeparator(d, j, x, b.node)) == Down(d)[..j] + Links([a, b]) + Down(d)[j + 1..]
  {
    ParentLink(levels, k, p, pp, j);
    LinksTwo(a, b);
    DownWithSeparator(levels[k + 1][pp], j, x, b.node);
  }

  lemma SplitInnerStep(levels: seq<seq<Cell>>, snap: Snap, k: nat, p: nat, pp: nat, j: nat, m: nat, right: BTreeNode,
                       d': Cell, snap': Snap)
    requires Core(levels, snap) && 0 < k && ParentOf(levels, k, p, 1, pp, j)
    requires m < |levels[k][p].items|
    requires CellOK(levels[k][p], k, snap) && CellOK(levels[k + 1][pp], k + 1, snap)
    requires d' == WithSeparator(levels[k + 1][pp], j, levels[k][p].items[m], right)
    requires HeapStep(levels, k, p, 1, [InnerLeft(levels[k][p], m), InnerRight(levels[k][p], m, right)], pp, d', snap,
                      snap')
    requires forall n :: n in snap ==> snap'[n].next == snap[n].next
    ensures Stepped(levels, SplitInnerLevels(levels, k, p, pp, j, m, right), snap')
  {
    var c := levels[k][p];
    var levels', r := SplitInnerLevels(levels, k, p, pp, j, m, right), [InnerLeft(c, m), InnerRight(c, m, right)];
    SplitDown(levels, k, p, pp, j, r[0], r[1], c.items[m]);
    LeavesUntouched(levels, levels', snap, snap');
    SplitInnerDownAll(levels, k, p, m, right);
    StepCore(levels, levels', k, p, 1, r, pp, j, d', snap, snap');
  }

  lemma SplitInnerDownAll(levels: seq<seq<Cell>>, k: nat, p: nat, m: nat, right: BTreeNode)
    requires k < |levels| && p < |levels[k]| && m < |levels[k][p].items|
    requires |levels[k][p].kids| == |levels[k][p].items| + 1
    ensures DownAll([InnerLeft(levels[k][p], m), InnerRight(levels[k][p], m, right)]) == DownAll(levels[k][p..p + 1])
  {
    SplitInnerDown(levels[k][p], m, right);
    assert levels[k][p..p + 1] == [levels[k][p]];
    DownAllOne(levels[k][p]);
  }

  ghost function ShareLevels(levels: seq<seq<Cell>>, k: nat, p: nat, pp: nat, j: nat, a': Cell, b': Cell,
                             x: Item): seq<seq<Cell>>
    requires ParentOf(levels, k, p, 2, pp, j) && j < |levels[k + 1][pp].items|
  {
    Rewrite(levels, k, p, 2, [a', b'], pp, WithNewSeparator(levels[k + 1][pp], j, x))
  }

  lemma ShareDown(levels: seq<seq<Cell>>, k: nat, p: nat, pp: nat, j: nat, a': Cell, b': Cell, x: Item)
    requires Linked(levels) && ParentOf(levels, k, p, 2, pp, j) && j < |levels[k + 1][pp].items|
    requires |levels[k + 1][pp].kids| == |levels[k + 1][pp].items| + 1
    requires a'.node == levels[k][p].node && b'.node == levels[k][p + 1].node
    requires a'.fence == Fin(x.score) && b'.fence == levels[k][p + 1].fence
    ensures var d := levels[k + 1][pp];
            Down(WithNewSeparator(d, j, x)) == Down(d)[..j] + Links([a', b']) + Down(d)[j + 2..]
  {
    ParentLink(levels, k, p, pp, j);
    ParentLink(levels, k, p + 1, pp, j + 1);
    LinksTwo(a', b');
    DownWithNewSeparator(levels[k + 1][pp], j, x);
  }

  /** Two neighbouring leaves share their items out anew, the left one keeping the first m. */
  lemma ShareLeavesStep(levels: seq<seq<Cell>>, levels': seq<seq<Cell>>, snap: Snap, p: nat, pp: nat, j: nat, m: nat,
                        c: Cell, a': Cell, b': Cell, snap': Snap)
    requires ParentOf(levels, 0, p, 2, pp, j) && j < |levels[1][pp].items|
    requires c == JoinLeaves(levels[0][p], levels[0][p + 1]) && 0 < m < |c.items|
    requires a' == LeafLeft(c, m) && b' == LeafRight(c, m, levels[0][p + 1].node)
    requires levels' == ShareLevels(levels, 0, p, pp, j, a', b', c.items[m])
    requires snap'.Keys == snap.Keys && forall n :: n in snap ==> snap'[n].next == snap[n].next
    requires CellOK(levels[1][pp], 1, snap)
    requires HeapStep(levels, 0, p, 2, [a', b'], pp, WithNewSeparator(levels[1][pp], j, c.items[m]), snap, snap')
    requires Core(levels, snap)
    ensures Stepped(levels, levels', snap')
  {
    hide Flat, Tokens, Linked, DownAll, CellsOK, Chained;
    ShareDown(levels, 0, p, pp, j, a', b', c.items[m]);
    assert LeafStep(levels, levels', snap') by {
      ShareChain(levels[0], p, a', b', snap, snap');
      ShareLeavesTokens(levels[0], p, m, levels'[0]);
    }
    StepCore(levels, levels', 0, p, 2, [a', b'], pp, j, WithNewSeparator(levels[1][pp], j, c.items[m]), snap, snap');
  }

  lemma ShareChain(cells: seq<Cell>, p: nat, a': Cell, b': Cell, snap: Snap, snap': Snap)
    requires p + 1 < |cells| && Chained(cells, snap)
    requires a'.node == cells[p].node && b'.node == cells[p + 1].node
    requires snap.Keys == snap'.Keys && forall n :: n in snap ==> snap'[n].next == snap[n].next
    ensures Chained(cells[..p] + [a', b'] + cells[p + 2..], snap')
  {
    forall i | 0 <= i < |cells| ensures cells[i].node in snap {
      assert ChainedAt(cells, i, snap);
    }
    assert ChainedAt(cells, p, snap);
    ChainSplice(cells, p, 2, [a', b'], snap, snap');
  }

  /** Two neighbouring internal nodes share their items and children out anew around their separator. */
  lemma ShareInnerStep(levels: seq<seq<Cell>>, levels': seq<seq<Cell>>, snap: Snap, k: nat, p: nat, pp: nat, j: nat,
                       m: nat, c: Cell, a': Cell, b': Cell, snap': Snap)
    requires 0 < k && ParentOf(levels, k, p, 2, pp, j) && j < |levels[k + 1][pp].items|
    requires c == JoinInner(levels[k][p], levels[k + 1][pp].items[j], levels[k][p + 1]) && m < |c.items| && m < |c.kids|
    requires a' == InnerLeft(c, m) && b' == InnerRight(c, m, levels[k][p + 1].node)
    requires levels' == ShareLevels(levels, k, p, pp, j, a', b', c.items[m])
    requires snap'.Keys == snap.Keys && forall n :: n in snap ==> snap'[n].next == snap[n].next
    requires CellOK(levels[k][p], k, snap) && CellOK(levels[k][p + 1], k, snap)
    requires CellOK(levels[k + 1][pp], k + 1, snap)
    requires HeapStep(levels, k, p, 2, [a', b'], pp, WithNewSeparator(levels[k + 1][pp], j, c.items[m]), snap, snap')
    requires Core(levels, snap)
    ensures Stepped(levels, levels', snap')
  {
    ShareDown(levels, k, p, pp, j, a', b', c.items[m]);
    LeavesUntouched(levels, levels', snap, snap');
    ShareInnerDown(levels, k, p, pp, j, m, c);
    StepCore(levels, levels', k, p, 2, [a', b'], pp, j, WithNewSeparator(levels[k + 1][pp], j, c.items[m]), snap,
             snap');
  }

  lemma ShareInnerDown(levels: seq<seq<Cell>>, k: nat, p: nat, pp: nat, j: nat, m: nat, c: Cell)
    requires Linked(levels) && ParentOf(levels, k, p, 2, pp, j) && j < |levels[k + 1][pp].items|
    requires |levels[k][p].kids| == |levels[k][p].items| + 1 && |levels[k][p + 1].kids| == |levels[k][p + 1].items| + 1
    requires c == JoinInner(levels[k][p], levels[k + 1][pp].items[j], levels[k][p + 1]) && m < |c.items|
    ensures DownAll([InnerLeft(c, m), InnerRight(c, m, levels[k][p + 1].node)]) == DownAll(levels[k][p..p + 2])
  {
    var a, b, d := levels[k][p], levels[k][p + 1], levels[k + 1][pp];
    ParentLink(levels, k, p, pp, j);
    JoinInnerDown(a, d.items[j], b);
    SplitInnerDown(c, m, b.node);
    assert levels[k][p..p + 2] == [a, b];
  }

  ghost function JoinLevels(levels: seq<seq<Cell>>, k: nat, p: nat, pp: nat, j: nat, c: Cell): seq<seq<Cell>>
    requires ParentOf(levels, k, p, 2, pp, j) && j < |levels[k + 1][pp].items|
  {
    Rewrite(levels, k, p, 2, [c], pp, WithoutSeparator(levels[k + 1][pp], j))
  }

  lemma JoinDown(levels: seq<seq<Cell>>, k: nat, p: nat, pp: nat, j: nat, c: Cell)
    requires Linked(levels) && ParentOf(levels, k, p, 2, pp, j) && j < |levels[k + 1][pp].items|
    requires |levels[k + 1][pp].kids| == |levels[k + 1][pp].items| + 1
    requires c.node == levels[k][p].node && c.fence == levels[k][p + 1].fence
    ensures var d := levels[k + 1][pp];
            Down(WithoutSeparator(d, j)) == Down(d)[..j] + Links([c]) + Down(d)[j + 2..]
  {
    ParentLink(levels, k, p, pp, j);
    ParentLink(levels, k, p + 1, pp, j + 1);
    LinksTwo(c, c);
    DownWithoutSeparator(levels[k + 1][pp], j);
  }

  /** Two neighbouring leaves become one. */
  lemma JoinLeavesStep(levels: seq<seq<Cell>>, levels': seq<seq<Cell>>, snap: Snap, p: nat, pp: nat, j: nat, c: Cell,
                       snap': Snap)
    requires ParentOf(levels, 0, p, 2, pp, j) && j < |levels[1][pp].items| && j + 1 < |levels[1][pp].kids|
    requires c == JoinLeaves(levels[0][p], levels[0][p + 1])
    requires levels' == JoinLevels(levels, 0, p, pp, j, c)
    requires snap'.Keys == snap.Keys && forall n :: n in snap && n != c.node ==> snap'[n].next == snap[n].next
    requires c.node in snap && levels[0][p + 1].node in snap && snap'[c.node].next == snap[levels[0][p + 1].node].next
    requires CellOK(levels[1][pp], 1, snap)
    requires HeapStep(levels, 0, p, 2, [c], pp, WithoutSeparator(levels[1][pp], j), snap, snap')
    requires Core(levels, snap)
    ensures Stepped(levels, levels', snap')
  {
    JoinDown(levels, 0, p, pp, j, c);
    assert LeafStep(levels, levels', snap') by {
      assert LevelOK(levels[0], 0, snap);
      JoinChain(levels[0], p, c, snap, snap');
      JoinLeavesTokens(levels[0], p, levels'[0]);
    }
    StepCore(levels, levels', 0, p, 2, [c], pp, j, WithoutSeparator(levels[1][pp], j), snap, snap');
  }

  lemma JoinChain(cells: seq<Cell>, p: nat, c: Cell, snap: Snap, snap': Snap)
    requires p + 1 < |cells| && Chained(cells, snap) && LevelOK(cells, 0, snap)
    requires c.node == cells[p].node
    requires snap.Keys == snap'.Keys && forall n :: n in snap && n != c.node ==> snap'[n].next == snap[n].next
    requires snap'[c.node].next == snap[cells[p + 1].node].next
    ensures Chained(cells[..p] + [c] + cells[p + 2..], snap')
  {
    forall i | 0 <= i < |cells| ensures cells[i].node in snap {
      assert ChainedAt(cells, i, snap);
    }
    ChainSplice(cells, p, 2, [c], snap, snap');
  }

  /** Two neighbouring internal nodes become one around their separator. */
  lemma JoinInnerStep(levels: seq<seq<Cell>>, levels': seq<seq<Cell>>, snap: Snap, k: nat, p: nat, pp: nat, j: nat,
                      c: Cell, snap': Snap)
    requires 0 < k && ParentOf(levels, k, p, 2, pp, j) && j < |levels[k + 1][pp].items|
    requires j + 1 < |levels[k + 1][pp].kids|
    requires c == JoinInner(levels[k][p], levels[k + 1][pp].items[j], levels[k][p + 1])
    requires levels' == JoinLevels(levels, k, p, pp, j, c)
    requires snap'.Keys == snap.Keys && forall n :: n in snap ==> snap'[n].next == snap[n].next
    requires CellOK(levels[k][p], k, snap) && CellOK(levels[k][p + 1], k, snap)
    requires CellOK(levels[k + 1][pp], k + 1, snap)
    requires HeapStep(levels, k, p, 2, [c], pp, WithoutSeparator(levels[k + 1][pp], j), snap, snap')
    requires Core(levels, snap)
    ensures Stepped(levels, levels', snap')
  {
    JoinDown(levels, k, p, pp, j, c);
    LeavesUntouched(levels, levels', snap, snap');
    JoinInnerDownAll(levels, k, p, pp, j, c);
    StepCore(levels, levels', k, p, 2, [c], pp, j, WithoutSeparator(levels[k + 1][pp], j), snap, snap');
  }

  lemma JoinInnerDownAll(levels: seq<seq<Cell>>, k: nat, p: nat, pp: nat, j: nat, c: Cell)
    requires Linked(levels) && ParentOf(levels, k, p, 2, pp, j) && j < |levels[k + 1][pp].items|
    requires |levels[k][p].kids| == |levels[k][p].items| + 1 && |levels[k][p + 1].kids| == |levels[k][p + 1].items| + 1
    requires c == JoinInner(levels[k][p], levels[k + 1][pp].items[j], levels[k][p + 1])
    ensures DownAll([c]) == DownAll(levels[k][p..p + 2])
  {
    var a, b, d := levels[k][p], levels[k][p + 1], levels[k + 1][pp];
    ParentLink(levels, k, p, pp, j);
    JoinInnerDown(a, d.items[j], b);
    DownAllOne(c);
    assert levels[k][p..p + 2] == [a, b];
  }

  // ---- sizes -----------------------------------------------------------------------------------

  /** Between `lo` and `hi` items in every node, the root excused from `lo` and the node `exc` from both. */
  ghost predicate Sizes(levels: seq<seq<Cell>>, lo: nat, hi: nat, exc: BTreeNode?) {
    forall k, p :: 0 <= k < |levels| && 0 <= p < |levels[k]| && levels[k][p].node != exc ==>
      |levels[k][p].items| <= hi && (k + 1 < |levels| ==> lo <= |levels[k][p].items|)
  }

  lemma NodePosition(levels: seq<seq<Cell>>, snap: Snap, k: nat, p: nat)
    requires CellsOK(levels, snap) && k < |levels| && p < |levels[k]|
    ensures forall i, q :: 0 <= i < |levels| && 0 <= q < |levels[i]| && levels[i][q].node == levels[k][p].node ==>
      i == k && q == p
  {
    forall i, q | 0 <= i < |levels| && 0 <= q < |levels[i]| && levels[i][q].node == levels[k][p].node
      ensures i == k && q == p
    {
      assert LevelOK(levels[i], i, snap) && LevelOK(levels[k], k, snap);
      assert CellOK(levels[i][q], i, snap) && CellOK(levels[k][p], k, snap);
    }
  }

  /** A step leaves the replaced cells within bounds, the parent aside. */
  lemma StepSizes(levels: seq<seq<Cell>>, levels': seq<seq<Cell>>, snap: Snap, lo: nat, hi: nat, e: nat,
                  k: nat, p: nat, n: nat, r: seq<Cell>, pp: nat, d: Cell)
    requires k + 1 < |levels| && p + n <= |levels[k]| && pp < |levels[k + 1]| && p <= e < p + n
    requires levels' == Rewrite(levels, k, p, n, r, pp, d)
    requires forall i :: 0 <= i < |r| ==> lo <= |r[i].items| <= hi
    requires CellsOK(levels, snap) && Sizes(levels, lo, hi, levels[k][e].node)
    ensures Sizes(levels', lo, hi, d.node)
  {
    NodePosition(levels, snap, k, e);
    forall i, q | 0 <= i < |levels'| && 0 <= q < |levels'[i]| && levels'[i][q].node != d.node
      ensures |levels'[i][q].items| <= hi && (i + 1 < |levels'| ==> lo <= |levels'[i][q].items|)
    {
      if i == k {
        if p <= q < p + |r| {
          assert levels'[i][q] == r[q - p];
        } else {
          var o := if q < p then q else q - |r| + n;
          assert levels'[i][q] == levels[k][o];
        }
      } else {
        assert levels'[i][q] == levels[i][q];
      }
    }
  }

  lemma SizesClosed(levels: seq<seq<Cell>>, snap: Snap, lo: nat, hi: nat, k: nat, p: nat)
    requires CellsOK(levels, snap) && k < |levels| && p < |levels[k]|
    requires Sizes(levels, lo, hi, levels[k][p].node)
    requires |levels[k][p].items| <= hi && (k + 1 < |levels| ==> lo <= |levels[k][p].items|)
    ensures Sizes(levels, lo, hi, null)
  {
    NodePosition(levels, snap, k, p);
  }

  // ---- growing and collapsing at the root ---------------------------------------------------------

  ghost function GrowLevels(levels: seq<seq<Cell>>, top: BTreeNode): seq<seq<Cell>>
    requires |levels| > 0 && |levels[|levels| - 1]| == 1
  {
    levels + [[Cell(top, [], [Top(levels).node], Inf)]]
  }

  ghost function GrowSnap(snap: Snap, old': BTreeNode, top: BTreeNode): Snap
    requires old' in snap
  {
    snap[old' := snap[old'].(parent := top)][top := Fields([], [old'], null, null)]
  }

  /** A new root above the old one. */
  lemma GrowStep(levels: seq<seq<Cell>>, snap: Snap, top: BTreeNode, levels': seq<seq<Cell>>, snap': Snap)
    requires |levels| > 0 && |levels[|levels| - 1]| == 1 && Top(levels).node in snap
    requires top !in snap && !top.isLeaf && top.height == |levels|
    requires levels' == GrowLevels(levels, top) && snap' == GrowSnap(snap, Top(levels).node, top)
    requires Core(levels, snap)
    ensures Core(levels', snap') && Top(levels').node == top && levels'[0] == levels[0]
  {
    var n, old' := |levels|, Top(levels).node;
    assert Frame(snap, snap', {});
    forall k | 0 <= k < |levels'|
      ensures LevelOK(levels'[k], k, snap')
    {
      if k < n {
        assert levels'[k] == levels[k];
        LevelFrame(levels[k], k, snap, snap', {});
      }
    }
    forall k | 0 < k < |levels'|
      ensures LinkedAt(levels', k)
    {
      if k < n {
        assert LinkedAt(levels, k);
      } else {
        DownAllOne(levels'[n][0]);
        assert levels'[n] == [levels'[n][0]];
      }
    }
    LeavesUntouched(levels, levels', snap, snap');
  }

  /** A root left with one child and no item hands over to the child. */
  lemma CollapseStep(levels: seq<seq<Cell>>, snap: Snap, levels': seq<seq<Cell>>, snap': Snap, kid: BTreeNode)
    requires |levels| > 1 && |levels[|levels| - 1]| == 1 && Top(levels).items == [] && Top(levels).kids == [kid]
    requires kid in snap && levels' == levels[..|levels| - 1] && snap' == snap[kid := snap[kid].(parent := null)]
    requires Core(levels, snap)
    ensures Core(levels', snap') && Top(levels').node == kid && levels'[0] == levels[0]
  {
    var n := |levels| - 1;
    assert LinkedAt(levels, n);
    assert levels[n] == [levels[n][0]];
    DownAllOne(levels[n][0]);
    assert Links(levels[n - 1])[0] == Down(levels[n][0])[0];
    assert LevelOK(levels[n], n, snap) && CellOK(levels[n][0], n, snap);
    assert snap[kid].parent == Top(levels).node;
    assert Frame(snap, snap', {Top(levels).node});
    forall k | 0 <= k < |levels'|
      ensures LevelOK(levels'[k], k, snap')
    {
      LevelFrame(levels[k], k, snap, snap', {Top(levels).node});
    }
    forall k | 0 < k < |levels'|
      ensures LinkedAt(levels', k)
    {
      assert LinkedAt(levels, k);
    }
    LeavesUntouched(levels, levels', snap, snap');
  }

  // ---- splits, put together -------------------------------------------------------------------------

  /** The items and the fence of every leaf, node identities aside. */
  ghost function View(cells: seq<Cell>): (r: seq<(seq<Item>, Bound)>)
    ensures |r| == |cells|
  {
    seq(|cells|, p requires 0 <= p < |cells| => (cells[p].items, cells[p].fence))
  }

  /** Leaf p cut in two before its item m, whose score becomes the fence between the halves. */
  ghost function SplitView(v: seq<(seq<Item>, Bound)>, p: nat, m: nat): seq<(seq<Item>, Bound)>
    requires p < |v| && m < |v[p].0|
  {
    v[..p] + [(v[p].0[..m], Fin(v[p].0[m].score)), (v[p].0[m..], v[p].1)] + v[p + 1..]
  }

  /** Between two descriptions of a tree: the same items in the same order, and no new disorder. */
  ghost predicate Kept(levels: seq<seq<Cell>>, levels': seq<seq<Cell>>)
    requires |levels| > 0 && |levels'| > 0
  {
    && Flat(levels'[0]) == Flat(levels[0])
    && forall strict :: Ordered(strict, Tokens(levels[0])) ==> Ordered(strict, Tokens(levels'[0]))
  }

  /** What the parent and the root look like once a child was split. */
  lemma SplitFacts(levels: seq<seq<Cell>>, levels': seq<seq<Cell>>, k: nat, p: nat, r: seq<Cell>, pp: nat, j: nat,
                   x: Item, right: BTreeNode)
    requires ParentOf(levels, k, p, 1, pp, j) && j <= |levels[k + 1][pp].items|
    requires levels' == Rewrite(levels, k, p, 1, r, pp, WithSeparator(levels[k + 1][pp], j, x, right))
    requires |levels[|levels| - 1]| == 1
    ensures |levels'| == |levels| && |levels'[k + 1]| == |levels[k + 1]| && |levels'[|levels| - 1]| == 1
    ensures levels'[k + 1][pp].node == levels[k + 1][pp].node
    ensures |levels'[k + 1][pp].items| == |levels[k + 1][pp].items| + 1
    ensures |levels| == k + 2 || |Top(levels).items| >= 1 ==> |Top(levels').items| >= 1
  {
  }

  lemma KeptTransitive(a: seq<seq<Cell>>, b: seq<seq<Cell>>, c: seq<seq<Cell>>)
    requires |a| > 0 && |b| > 0 && |c| > 0 && Kept(a, b) && Kept(b, c)
    ensures Kept(a, c)
  {
  }

  lemma SplitLeafDone(levels: seq<seq<Cell>>, snap: Snap, degree: int, p: nat, pp: nat, j: nat, m: nat,
                      right: BTreeNode, levels': seq<seq<Cell>>, snap': Snap)
    requires ParentOf(levels, 0, p, 1, pp, j) && CellOK(levels[0][p], 0, snap) && CellOK(levels[1][pp], 1, snap)
    requires degree >= 3 && |levels[0][p].items| == degree && m == degree / 2
    requires right !in snap && right.isLeaf && right.height == 0
    requires levels' == SplitLeafLevels(levels, p, pp, j, m, right)
    requires snap' == SplitLeafSnap(snap, levels[0][p], levels[1][pp], j, m, right)
    requires Sizes(levels, (degree - 1) / 2, degree - 1, levels[0][p].node)
    requires Core(levels, snap)
    ensures Stepped(levels, levels', snap')
    ensures Sizes(levels', (degree - 1) / 2, degree - 1, levels[1][pp].node)
    ensures View(levels'[0]) == SplitView(View(levels[0]), p, m)
  {
    hide Flat, Tokens, Ordered, Linked, Chained, HeapStep, Sizes, Stepped;
    var c, d' := levels[0][p], WithSeparator(levels[1][pp], j, levels[0][p].items[m], right);
    assert LevelOK(levels[0], 0, snap);
    SplitLeafHeap(levels, snap, p, pp, j, m, right);
    SplitLeafStep(levels, snap, p, pp, j, m, right, d', snap');
    StepSizes(levels, levels', snap, (degree - 1) / 2, degree - 1, p, 0, p, 1, [LeafLeft(c, m), LeafRight(c, m, right)],
              pp, d');
  }

  lemma SplitInnerDone(levels: seq<seq<Cell>>, snap: Snap, degree: int, k: nat, p: nat, pp: nat, j: nat, m: nat,
                       right: BTreeNode, levels': seq<seq<Cell>>, snap': Snap)
    requires 0 < k && ParentOf(levels, k, p, 1, pp, j) && CellOK(levels[k][p], k, snap)
    requires CellOK(levels[k + 1][pp], k + 1, snap)
    requires degree >= 3 && |levels[k][p].items| == degree && m == degree / 2
    requires right !in snap && !right.isLeaf && right.height == k
    requires levels' == SplitInnerLevels(levels, k, p, pp, j, m, right)
    requires snap' == SplitInnerSnap(snap, levels[k][p], m, right,
                                     WithSeparator(levels[k + 1][pp], j, levels[k][p].items[m], right))
    requires Sizes(levels, (degree - 1) / 2, degree - 1, levels[k][p].node)
    requires Core(levels, snap)
    ensures Stepped(levels, levels', snap') && levels'[0] == levels[0]
    ensures Sizes(levels', (degree - 1) / 2, degree - 1, levels[k + 1][pp].node)
  {
    var c, d' := levels[k][p], WithSeparator(levels[k + 1][pp], j, levels[k][p].items[m], right);
    KidsDistinct(levels, snap, k, p);
    SplitInnerHeap(levels, snap, k, p, pp, j, m, right, d', snap');
    SplitInnerStep(levels, snap, k, p, pp, j, m, right, d', snap');
    StepSizes(levels, levels', snap, (degree - 1) / 2, degree - 1, p, k, p, 1,
              [InnerLeft(c, m), InnerRight(c, m, right)], pp, d');
  }

  // ---- borrowing and merging, put together ---------------------------------------------------------------

  /** After items moved between two siblings, the one that lacked an item included. */
  lemma ShareLeavesDone(levels: seq<seq<Cell>>, snap: Snap, lo: nat, hi: nat, e: nat, p: nat, pp: nat, j: nat, m: nat,
                        c: Cell, a': Cell, b': Cell, levels': seq<seq<Cell>>, snap': Snap)
    requires ParentOf(levels, 0, p, 2, pp, j) && j < |levels[1][pp].items| && p <= e < p + 2
    requires c == JoinLeaves(levels[0][p], levels[0][p + 1]) && 0 < m < |c.items|
    requires lo <= m <= hi && lo <= |c.items| - m <= hi
    requires a' == LeafLeft(c, m) && b' == LeafRight(c, m, levels[0][p + 1].node)
    requires levels' == ShareLevels(levels, 0, p, pp, j, a', b', c.items[m])
    requires levels[0][p].node in snap && levels[0][p + 1].node in snap && levels[1][pp].node in snap
    requires snap' == ShareSnap(snap, a', b', WithNewSeparator(levels[1][pp], j, c.items[m]), {}, b'.node)
    requires Sizes(levels, lo, hi, levels[0][e].node) && Core(levels, snap)
    ensures Stepped(levels, levels', snap') && snap'.Keys == snap.Keys
    ensures Sizes(levels', lo, hi, null)
    ensures |Top(levels').items| == |Top(levels).items|
  {
    hide Flat, Tokens, Ordered, HeapStep, Sizes;
    var d' := WithNewSeparator(levels[1][pp], j, c.items[m]);
    assert LevelOK(levels[0], 0, snap) && LevelOK(levels[1], 1, snap);
    ShareSnapKeeps(snap, a', b', d', {}, b'.node);
    ShareHeap(levels, snap, 0, p, pp, a', b', d', {}, b'.node, snap');
    ShareLeavesStep(levels, levels', snap, p, pp, j, m, c, a', b', snap');
    ShareSizes(levels, levels', snap, snap', lo, hi, e, 0, p, pp, j, a', b', c.items[m]);
  }

  lemma ShareSizes(levels: seq<seq<Cell>>, levels': seq<seq<Cell>>, snap: Snap, snap': Snap, lo: nat, hi: nat, e: nat,
                   k: nat, p: nat, pp: nat, j: nat, a': Cell, b': Cell, x: Item)
    requires ParentOf(levels, k, p, 2, pp, j) && j < |levels[k + 1][pp].items| && p <= e < p + 2
    requires levels' == ShareLevels(levels, k, p, pp, j, a', b', x) && |levels[|levels| - 1]| == 1
    requires lo <= |a'.items| <= hi && lo <= |b'.items| <= hi
    requires Sizes(levels, lo, hi, levels[k][e].node)
    requires CellsOK(levels, snap) && CellsOK(levels', snap')
    ensures Sizes(levels', lo, hi, null)
    ensures |levels'[|levels| - 1]| == 1 && |Top(levels').items| == |Top(levels).items|
  {
    var d' := WithNewSeparator(levels[k + 1][pp], j, x);
    StepSizes(levels, levels', snap, lo, hi, e, k, p, 2, [a', b'], pp, d');
    NodePosition(levels, snap, k, e);
    assert levels'[k + 1][pp] == d';
    assert levels[k + 1][pp].node != levels[k][e].node;
    SizesClosed(levels', snap', lo, hi, k + 1, pp);
  }

  lemma ShareInnerDone(levels: seq<seq<Cell>>, snap: Snap, lo: nat, hi: nat, e: nat, k: nat, p: nat, pp: nat, j: nat,
                       m: nat, c: Cell, a': Cell, b': Cell, moved: set<BTreeNode>, par: BTreeNode,
                       levels': seq<seq<Cell>>, snap': Snap)
    requires 0 < k && ParentOf(levels, k, p, 2, pp, j) && j < |levels[k + 1][pp].items| && p <= e < p + 2
    requires c == JoinInner(levels[k][p], levels[k + 1][pp].items[j], levels[k][p + 1]) && m < |c.items| && m < |c.kids|
    requires lo <= m <= hi && lo <= |c.items| - m - 1 <= hi
    requires a' == InnerLeft(c, m) && b' == InnerRight(c, m, levels[k][p + 1].node)
    requires levels' == ShareLevels(levels, k, p, pp, j, a', b', c.items[m])
    requires levels[k][p].node in snap && levels[k][p + 1].node in snap && levels[k + 1][pp].node in snap
    requires snap' == ShareSnap(snap, a', b', WithNewSeparator(levels[k + 1][pp], j, c.items[m]), moved, par)
    requires Shares(a', levels[k][p], moved, par) && Shares(b', levels[k][p + 1], moved, par)
    requires forall x :: x in moved ==> x in levels[k][p].kids || x in levels[k][p + 1].kids
    requires Sizes(levels, lo, hi, levels[k][e].node) && Core(levels, snap)
    ensures Stepped(levels, levels', snap') && snap'.Keys == snap.Keys
    ensures Sizes(levels', lo, hi, null)
    ensures |Top(levels').items| == |Top(levels).items|
  {
    var d' := WithNewSeparator(levels[k + 1][pp], j, c.items[m]);
    assert LevelOK(levels[k], k, snap) && LevelOK(levels[k + 1], k + 1, snap);
    assert CellOK(levels[k][p], k, snap) && CellOK(levels[k][p + 1], k, snap);
    ShareSnapKeeps(snap, a', b', d', moved, par);
    ShareHeap(levels, snap, k, p, pp, a', b', d', moved, par, snap');
    ShareInnerStep(levels, levels', snap, k, p, pp, j, m, c, a', b', snap');
    ShareSizes(levels, levels', snap, snap', lo, hi, e, k, p, pp, j, a', b', c.items[m]);
  }

  /** After two siblings became one, the parent excused for its lost child. */
  lemma JoinSizes(levels: seq<seq<Cell>>, levels': seq<seq<Cell>>, snap: Snap, lo: nat, hi: nat, e: nat, k: nat, p: nat,
                  pp: nat, j: nat, c: Cell)
    requires ParentOf(levels, k, p, 2, pp, j) && j < |levels[k + 1][pp].items| && p <= e < p + 2
    requires levels' == JoinLevels(levels, k, p, pp, j, c) && |levels[|levels| - 1]| == 1
    requires lo <= |c.items| <= hi && Sizes(levels, lo, hi, levels[k][e].node)
    requires CellsOK(levels, snap)
    ensures Sizes(levels', lo, hi, levels[k + 1][pp].node)
    ensures |levels'| == |levels| && |levels'[|levels| - 1]| == 1 && |levels'[k + 1]| == |levels[k + 1]|
    ensures levels'[k + 1][pp] == WithoutSeparator(levels[k + 1][pp], j)
    ensures k + 2 < |levels| ==> Top(levels') == Top(levels)
    ensures |levels[k + 1][pp].items| <= hi && (k + 2 < |levels| ==> lo <= |levels[k + 1][pp].items|)
  {
    StepSizes(levels, levels', snap, lo, hi, e, k, p, 2, [c], pp, WithoutSeparator(levels[k + 1][pp], j));
    NodePosition(levels, snap, k, e);
    assert levels[k + 1][pp].node != levels[k][e].node;
  }

  lemma JoinLeavesDone(levels: seq<seq<Cell>>, snap: Snap, p: nat, pp: nat, j: nat, c: Cell, levels': seq<seq<Cell>>,
                       snap': Snap)
    requires ParentOf(levels, 0, p, 2, pp, j) && j < |levels[1][pp].items| && j + 1 < |levels[1][pp].kids|
    requires c == JoinLeaves(levels[0][p], levels[0][p + 1])
    requires levels' == JoinLevels(levels, 0, p, pp, j, c)
    requires levels[0][p].node in snap && levels[0][p + 1].node in snap && levels[1][pp].node in snap
    requires snap' == JoinSnap(snap, c, levels[0][p + 1], WithoutSeparator(levels[1][pp], j),
                               snap[levels[0][p + 1].node].next)
    requires Core(levels, snap)
    ensures Stepped(levels, levels', snap') && snap'.Keys == snap.Keys
  {
    assert LevelOK(levels[0], 0, snap) && LevelOK(levels[1], 1, snap);
    assert CellOK(levels[0][p], 0, snap) && CellOK(levels[0][p + 1], 0, snap);
    JoinHeap(levels, snap, 0, p, pp, j, c, WithoutSeparator(levels[1][pp], j), snap[levels[0][p + 1].node].next, snap');
    JoinLeavesStep(levels, levels', snap, p, pp, j, c, snap');
  }

  lemma JoinInnerDone(levels: seq<seq<Cell>>, snap: Snap, k: nat, p: nat, pp: nat, j: nat, c: Cell,
                      levels': seq<seq<Cell>>, snap': Snap)
    requires 0 < k && ParentOf(levels, k, p, 2, pp, j) && j < |levels[k + 1][pp].items|
    requires j + 1 < |levels[k + 1][pp].kids|
    requires c == JoinInner(levels[k][p], levels[k + 1][pp].items[j], levels[k][p + 1])
    requires levels' == JoinLevels(levels, k, p, pp, j, c)
    requires levels[k][p].node in snap && levels[k][p + 1].node in snap && levels[k + 1][pp].node in snap
    requires snap' == JoinSnap(snap, c, levels[k][p + 1], WithoutSeparator(levels[k + 1][pp], j),
                               snap[levels[k][p].node].next)
    requires Core(levels, snap)
    ensures Stepped(levels, levels', snap') && snap'.Keys == snap.Keys && levels'[0] == levels[0]
  {
    assert LevelOK(levels[k], k, snap) && LevelOK(levels[k + 1], k + 1, snap);
    assert CellOK(levels[k][p], k, snap) && CellOK(levels[k][p + 1], k, snap);
    JoinHeap(levels, snap, k, p, pp, j, c, WithoutSeparator(levels[k + 1][pp], j), snap[levels[k][p].node].next, snap');
    JoinInnerStep(levels, levels', snap, k, p, pp, j, c, snap');
  }
}
