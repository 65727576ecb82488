/** The B+ tree index: the source's mutable tree, kept in step with its level-by-level description. */
module BTreeIndexes {
  import opened Basics
  import opened Items
  import opened SortedSeqs
  import opened BTreeShape
  import opened BTreeSteps
  import opened BTreeLeaves

  ghost predicate Mirrors(n: BTreeNode, f: Fields)
    reads n
  {
    n.items == f.items && n.children == f.children && n.parent == f.parent && n.next == f.next
  }

  /** Position of a child among its parent's children. */
  method FindChildIndex(parent: BTreeNode, child: BTreeNode, ghost j: nat) returns (i: nat)
    requires j < |parent.children| && parent.children[j] == child
    requires Distinct(parent.children)
    ensures i == j
  {
    i := 0;
    while i < |parent.children|
      invariant i <= j
    {
      if parent.children[i] == child {
        break;
      }
      i := i + 1;
    }
  }

  /** Every node of `snap` holds in the heap what `snap` says. */
  ghost predicate Mirrored(snap: Snap)
    reads snap.Keys
  {
    forall n :: n in snap ==> Mirrors(n, snap[n])
  }

  /** The invariant of a tree of the given degree, with one node, `exc`, excused from the bounds on sizes. */
  ghost predicate Shape(levels: seq<seq<Cell>>, snap: Snap, degree: int, exc: BTreeNode?) {
    degree >= 3 && Sizes(levels, (degree - 1) / 2, degree - 1, exc) && Core(levels, snap)
  }

  /** An internal root separates at least two children. */
  ghost predicate RootOK(levels: seq<seq<Cell>>) {
    |levels| > 0 && |levels[|levels| - 1]| == 1 && (|levels| > 1 ==> |Top(levels).items| >= 1)
  }

  // ---- splits ------------------------------------------------------------------

  /** Gives a parent the new child `right`, after `node`, with the separator x between them. */
  method InsertChild(parent: BTreeNode, node: BTreeNode, x: Item, right: BTreeNode, ghost snap: Snap, ghost d: Cell,
                     ghost j: nat)
    requires Mirrored(snap) && parent in snap && snap[parent].items == d.items && snap[parent].children == d.kids
    requires d.node == parent && j < |d.kids| == |d.items| + 1 && d.kids[j] == node
    requires Distinct(d.kids)
    modifies parent
    ensures Mirrored(Store(snap, WithSeparator(d, j, x, right)))
  {
    var childIndex := FindChildIndex(parent, node, j);
    parent.items := parent.items[..childIndex] + [x] + parent.items[childIndex..];
    parent.children := parent.children[..childIndex + 1] + [right] + parent.children[childIndex + 1..];
  }

  /** The node writes of a leaf split: the right half moves to a new leaf, announced to the parent. */
  method WriteSplitLeaf(node: BTreeNode, ghost snap: Snap, ghost c: Cell, ghost d: Cell,
                        ghost j: nat) returns (parent: BTreeNode, right: BTreeNode)
    requires Mirrored(snap) && CellOK(c, 0, snap) && CellOK(d, 1, snap)
    requires c.node == node && |c.items| >= 2 && j < |d.kids| && d.kids[j] == node
    requires Distinct(d.kids)
    modifies node, d.node
    ensures parent == d.node && fresh(right) && right.isLeaf && right.height == 0
    ensures Mirrored(SplitLeafSnap(snap, c, d, j, |c.items| / 2, right))
  {
    var m := |node.items| / 2;
    parent := node.parent;
    right := new BTreeNode(true, 0, parent, node.next, node.items[m..], []);
    node.items := node.items[..m];
    node.next := right;
    ghost var left := snap[node].(items := c.items[..m], next := right);
    ghost var snap' := snap[node := left][right := Fields(c.items[m..], [], parent, snap[node].next)];
    InsertChild(parent, node, right.items[0], right, snap', d, j);
  }

  /** The first half of splitting a leaf: cut it and announce the new leaf to the parent. */
  method CutLeaf(node: BTreeNode, degree: int, ghost levels: seq<seq<Cell>>, ghost snap: Snap, ghost p: nat)
    returns (parent: BTreeNode, ghost pp: nat, ghost levels': seq<seq<Cell>>, ghost snap': Snap)
    requires Shape(levels, snap, degree, node) && Mirrored(snap)
    requires p < |levels[0]| && levels[0][p].node == node && |levels[0][p].items| == degree
    requires |levels| >= 2 && (|levels| == 2 || RootOK(levels))
    modifies snap.Keys
    ensures snap.Keys <= snap'.Keys && fresh(snap'.Keys - snap.Keys) && Mirrored(snap')
    ensures Shape(levels', snap', degree, parent) && RootOK(levels') && |levels'| == |levels|
    ensures Top(levels').node == Top(levels).node
    ensures pp < |levels'[1]| == |levels[1]| && levels'[1][pp].node == parent
    ensures |levels'[1][pp].items| == |levels[1][pp].items| + 1
    ensures Kept(levels, levels') && View(levels'[0]) == SplitView(View(levels[0]), p, degree / 2)
  {
    hide Flat, Tokens, Ordered, Linked, CellsOK, View, Sizes;
    ghost var j;
    pp, j := ParentCell(levels, snap, 0, p);
    KidsDistinct(levels, snap, 1, pp);
    ghost var right;
    parent, right := WriteSplitLeaf(node, snap, levels[0][p], levels[1][pp], j);
    levels' := SplitLeafLevels(levels, p, pp, j, degree / 2, right);
    snap' := SplitLeafSnap(snap, levels[0][p], levels[1][pp], j, degree / 2, right);
    SplitFacts(levels, levels', 0, p, [LeafLeft(levels[0][p], degree / 2), LeafRight(levels[0][p], degree / 2, right)],
               pp, j, levels[0][p].items[degree / 2], right);
    assert snap'.Keys == snap.Keys + {right};
    SplitLeafDone(levels, snap, degree, p, pp, j, degree / 2, right, levels', snap');
  }

  /** The upper half of an internal node moves to a new node. */
  method CutNode(node: BTreeNode, ghost snap: Snap, ghost k: nat, ghost c: Cell)
    returns (right: BTreeNode, promoted: Item)
    requires Mirrored(snap) && c.node == node && node in snap && |c.items| >= 2 && |c.kids| == |c.items| + 1
    requires snap[node].items == c.items && snap[node].children == c.kids && snap[node].parent != null
    modifies node
    ensures fresh(right) && !right.isLeaf && right.height == k && promoted == c.items[|c.items| / 2]
    ensures right.children == InnerRight(c, |c.items| / 2, right).kids
    ensures var r := InnerRight(c, |c.items| / 2, right);
            Mirrored(Store(snap[right := Fields(r.items, r.kids, snap[node].parent, null)],
                           InnerLeft(c, |c.items| / 2)))
  {
    var m := |node.items| / 2;
    promoted := node.items[m];
    right := new BTreeNode(false, k, node.parent, null, node.items[m + 1..], node.children[m + 1..]);
    node.items := node.items[..m];
    node.children := node.children[..m + 1];
  }

  /** The node writes of an internal split: the upper children move to a new node and are told so. */
  method WriteSplitInternal(node: BTreeNode, ghost snap: Snap, ghost k: nat, ghost c: Cell, ghost d: Cell, ghost j: nat)
    returns (parent: BTreeNode, right: BTreeNode)
    requires Mirrored(snap) && 0 < k && CellOK(c, k, snap) && CellOK(d, k + 1, snap)
    requires c.node == node && |c.items| >= 2 && j < |d.kids| && d.kids[j] == node
    requires Distinct(d.kids)
    modifies node, d.node, c.kids
    ensures parent == d.node && fresh(right) && !right.isLeaf && right.height == k
    ensures Mirrored(SplitInnerSnap(snap, c, |c.items| / 2, right, WithSeparator(d, j, c.items[|c.items| / 2], right)))
  {
    parent := node.parent;
    var promoted;
    right, promoted := CutNode(node, snap, k, c);
    ghost var r := InnerRight(c, |c.items| / 2, right);
    ghost var snap1 := Store(snap[right := Fields(r.items, r.kids, parent, null)], InnerLeft(c, |c.items| / 2));
    InsertChild(parent, node, promoted, right, snap1, d, j);
    ghost var snap2 := Store(snap1, WithSeparator(d, j, promoted, right));
    assert forall i :: 0 <= i < |r.kids| ==> r.kids[i] in c.kids;
    assert right.children == r.kids;
    Adopt(right.children, right, snap2);
  }

  /** Points every child at its new parent. */
  method Adopt(kids: seq<BTreeNode>, par: BTreeNode, ghost snap: Snap)
    requires Mirrored(snap) && forall i :: 0 <= i < |kids| ==> kids[i] in snap
    modifies kids
    ensures Mirrored(Reparent(snap, Members(kids), par))
  {
    ghost var done := {};
    var i := 0;
    while i < |kids|
      invariant 0 <= i <= |kids| && done == Members(kids[..i]) && Mirrored(Reparent(snap, done, par))
    {
      assert kids[..i + 1] == kids[..i] + [kids[i]];
      kids[i].parent := par;
      done := done + {kids[i]};
      i := i + 1;
    }
    assert kids[..i] == kids;
  }

  /** The first half of splitting an internal node: cut it and announce the new node to the parent. */
  method CutInternal(node: BTreeNode, degree: int, ghost levels: seq<seq<Cell>>, ghost snap: Snap, ghost k: nat,
                     ghost p: nat)
    returns (parent: BTreeNode, ghost pp: nat, ghost levels': seq<seq<Cell>>, ghost snap': Snap)
    requires Shape(levels, snap, degree, node) && Mirrored(snap)
    requires 0 < k && k + 1 < |levels| && p < |levels[k]| && levels[k][p].node == node && |levels[k][p].items| == degree
    requires |levels| == k + 2 || RootOK(levels)
    modifies snap.Keys
    ensures snap.Keys <= snap'.Keys && fresh(snap'.Keys - snap.Keys) && Mirrored(snap')
    ensures Shape(levels', snap', degree, parent) && RootOK(levels') && |levels'| == |levels|
    ensures pp < |levels'[k + 1]| == |levels[k + 1]| && levels'[k + 1][pp].node == parent == levels[k + 1][pp].node
    ensures |levels'[k + 1][pp].items| == |levels[k + 1][pp].items| + 1
    ensures Kept(levels, levels') && levels'[0] == levels[0] && Top(levels').node == Top(levels).node
  {
    hide Flat, Tokens, Ordered, Chained, Linked, Stepped, CellsOK, View, Sizes;
    ghost var j;
    pp, j := ParentCell(levels, snap, k, p);
    KidsDistinct(levels, snap, k + 1, pp);
    ghost var m, right := degree / 2, null;
    parent, right := WriteSplitInternal(node, snap, k, levels[k][p], levels[k + 1][pp], j);
    levels' := SplitInnerLevels(levels, k, p, pp, j, m, right);
    snap' := SplitInnerSnap(snap, levels[k][p], m, right,
                            WithSeparator(levels[k + 1][pp], j, levels[k][p].items[m], right));
    SplitFacts(levels, levels', k, p, [InnerLeft(levels[k][p], m), InnerRight(levels[k][p], m, right)],
               pp, j, levels[k][p].items[m], right);
    assert snap'.Keys == snap.Keys + {right};
    SplitInnerDone(levels, snap, degree, k, p, pp, j, m, right, levels', snap');
  }

  // ---- borrowing ---------------------------------------------------------------

  /** The last item of the left leaf moves to the front of the right one. */
  method WriteBorrowLeftLeaf(node: BTreeNode, left: BTreeNode, sep: nat, ghost snap: Snap,
                             ghost a: Cell, ghost b: Cell, ghost d: Cell, ghost c: Cell, ghost m: nat)
    requires Mirrored(snap) && CellOK(a, 0, snap) && CellOK(b, 0, snap) && CellOK(d, 1, snap)
    requires a.node == left && b.node == node && left != node && snap[node].parent == d.node && sep < |d.items|
    requires |a.items| >= 2 && c == JoinLeaves(a, b) && m == |a.items| - 1
    modifies node, left, d.node
    ensures Mirrored(ShareSnap(snap, LeafLeft(c, m), LeafRight(c, m, node), WithNewSeparator(d, sep, c.items[m]), {},
                               node))
  {
    var parent := node.parent;
    var borrowed := left.items[|left.items| - 1];
    left.items := left.items[..|left.items| - 1];
    node.items := [borrowed] + node.items;
    parent.items := parent.items[sep := node.items[0]];
    assert c.items[..m] == left.items && c.items[m..] == node.items;
  }

  /** The first item of the right leaf moves to the end of the left one. */
  method WriteBorrowRightLeaf(node: BTreeNode, right: BTreeNode, sep: nat, ghost snap: Snap, ghost a: Cell,
                              ghost b: Cell, ghost d: Cell, ghost c: Cell)
    requires Mirrored(snap) && CellOK(a, 0, snap) && CellOK(b, 0, snap) && CellOK(d, 1, snap)
    requires a.node == node && b.node == right && right != node && snap[node].parent == d.node && sep < |d.items|
    requires |b.items| >= 2 && c == JoinLeaves(a, b)
    modifies node, right, d.node
    ensures var m := |a.items| + 1;
            Mirrored(ShareSnap(snap, LeafLeft(c, m), LeafRight(c, m, right), WithNewSeparator(d, sep, c.items[m]), {},
                               right))
  {
    var parent := node.parent;
    var borrowed := right.items[0];
    right.items := right.items[1..];
    node.items := node.items + [borrowed];
    if |right.items| > 0 {
      parent.items := parent.items[sep := right.items[0]];
    }
    assert c.items[..|a.items| + 1] == node.items && c.items[|a.items| + 1..] == right.items;
  }

  /** The separator moves down to the right node, the last item of the left node moves up, its last child across. */
  method WriteBorrowLeftInternal(node: BTreeNode, left: BTreeNode, sep: nat, ghost k: nat, ghost snap: Snap,
                                 ghost a: Cell, ghost b: Cell, ghost d: Cell, ghost c: Cell, ghost m: nat)
    requires Mirrored(snap) && 0 < k && CellOK(a, k, snap) && CellOK(b, k, snap) && CellOK(d, k + 1, snap)
    requires a.node == left && b.node == node && left != node && snap[node].parent == d.node && sep < |d.items|
    requires |a.items| >= 1 && c == JoinInner(a, d.items[sep], b) && m == |a.items| - 1
    modifies node, left, d.node, a.kids
    ensures Mirrored(ShareSnap(snap, InnerLeft(c, m), InnerRight(c, m, node), WithNewSeparator(d, sep, c.items[m]),
                               {a.kids[m + 1]}, node))
  {
    BorrowLeftCells(a, d.items[sep], b, c, m);
    hide JoinInner;
    var parent := node.parent;
    var separator := parent.items[sep];
    var borrowed, child := left.items[|left.items| - 1], left.children[|left.children| - 1];
    assert child in a.kids && parent != node && parent != left;
    ghost var a', b', d' := InnerLeft(c, m), InnerRight(c, m, node), WithNewSeparator(d, sep, borrowed);
    StoreCell(left, left.items[..|left.items| - 1], left.children[..|left.children| - 1], snap, a');
    StoreCell(node, [separator] + node.items, [child] + node.children, Store(snap, a'), b');
    StoreCell(parent, parent.items[sep := borrowed], parent.children, Store(Store(snap, a'), b'), d');
    SetParent(child, node, Store(Store(Store(snap, a'), b'), d'));
  }

  /** Writes the items and the children of a node. */
  method StoreCell(node: BTreeNode, items: seq<Item>, children: seq<BTreeNode>, ghost snap: Snap, ghost c: Cell)
    requires Mirrored(snap) && node in snap && c.node == node && c.items == items && c.kids == children
    modifies node
    ensures Mirrored(Store(snap, c)) && node.items == items && node.children == children
    ensures node.parent == old(node.parent)
  {
    node.items := items;
    node.children := children;
  }

  method SetParent(kid: BTreeNode, par: BTreeNode, ghost snap: Snap)
    requires Mirrored(snap) && kid in snap
    modifies kid
    ensures Mirrored(Reparent(snap, {kid}, par))
  {
    kid.parent := par;
  }

  lemma BorrowLeftCells(a: Cell, x: Item, b: Cell, c: Cell, m: nat)
    requires |a.items| >= 1 && |a.kids| == |a.items| + 1 && c == JoinInner(a, x, b) && m == |a.items| - 1
    ensures && c.items[m] == a.items[m] && c.items[..m] == a.items[..m] && c.items[m + 1..] == [x] + b.items
            && c.kids[..m + 1] == a.kids[..m + 1] && c.kids[m + 1..] == [a.kids[m + 1]] + b.kids
  {
  }

  /** The separator moves down to the left node, the first item of the right node moves up, its first child across. */
  method WriteBorrowRightInternal(node: BTreeNode, right: BTreeNode, sep: nat, ghost k: nat, ghost snap: Snap,
                                  ghost a: Cell, ghost b: Cell, ghost d: Cell, ghost c: Cell)
    requires Mirrored(snap) && 0 < k && CellOK(a, k, snap) && CellOK(b, k, snap) && CellOK(d, k + 1, snap)
    requires a.node == node && b.node == right && right != node && snap[node].parent == d.node && sep < |d.items|
    requires |b.items| >= 1 && c == JoinInner(a, d.items[sep], b)
    modifies node, right, d.node, b.kids
    ensures var m := |a.items| + 1;
            Mirrored(ShareSnap(snap, InnerLeft(c, m), InnerRight(c, m, right), WithNewSeparator(d, sep, c.items[m]),
                               {b.kids[0]}, node))
  {
    BorrowRightCells(a, d.items[sep], b, c);
    hide JoinInner;
    var parent := node.parent;
    var separator := parent.items[sep];
    var borrowed, child := right.items[0], right.children[0];
    assert child in b.kids && parent != node && parent != right;
    ghost var m := |a.items| + 1;
    ghost var a', b', d' := InnerLeft(c, m), InnerRight(c, m, right), WithNewSeparator(d, sep, borrowed);
    StoreCell(node, node.items + [separator], node.children + [child], snap, a');
    StoreCell(right, right.items[1..], right.children[1..], Store(snap, a'), b');
    StoreCell(parent, parent.items[sep := borrowed], parent.children, Store(Store(snap, a'), b'), d');
    SetParent(child, node, Store(Store(Store(snap, a'), b'), d'));
  }

  lemma BorrowRightCells(a: Cell, x: Item, b: Cell, c: Cell)
    requires |b.items| >= 1 && |a.kids| == |a.items| + 1 && |b.kids| == |b.items| + 1 && c == JoinInner(a, x, b)
    ensures var m := |a.items| + 1;
            && c.items[m] == b.items[0] && c.items[..m] == a.items + [x] && c.items[m + 1..] == b.items[1..]
            && c.kids[..m + 1] == a.kids + [b.kids[0]] && c.kids[m + 1..] == b.kids[1..]
  {
  }

  // ---- merging -------------------------------------------------------------------

  /** The left leaf takes over the items of the right one and its place in the chain. */
  method WriteMergeLeaves(left: BTreeNode, right: BTreeNode, parent: BTreeNode, sep: nat, ghost snap: Snap,
                          ghost a: Cell, ghost b: Cell, ghost d: Cell)
    requires Mirrored(snap) && CellOK(a, 0, snap) && CellOK(b, 0, snap) && CellOK(d, 1, snap)
    requires a.node == left && b.node == right && left != right && d.node == parent && sep < |d.items|
    modifies left, parent
    ensures Mirrored(JoinSnap(snap, JoinLeaves(a, b), b, WithoutSeparator(d, sep), snap[right].next))
  {
    left.items := left.items + right.items;
    left.next := right.next;
    parent.items := parent.items[..sep] + parent.items[sep + 1..];
    parent.children := parent.children[..sep + 1] + parent.children[sep + 2..];
  }

  /** The left node takes over the separator and everything of the right node. */
  method WriteMergeInternal(left: BTreeNode, right: BTreeNode, parent: BTreeNode, sep: nat, ghost k: nat,
                            ghost snap: Snap,
                            ghost a: Cell, ghost b: Cell, ghost d: Cell)
    requires Mirrored(snap) && 0 < k && CellOK(a, k, snap) && CellOK(b, k, snap) && CellOK(d, k + 1, snap)
    requires a.node == left && b.node == right && left != right && d.node == parent && sep < |d.items|
    modifies left, parent, b.kids
    ensures Mirrored(JoinSnap(snap, JoinInner(a, d.items[sep], b), b, WithoutSeparator(d, sep), snap[left].next))
  {
    left.items := left.items + [parent.items[sep]];
    left.items := left.items + right.items;
    left.children := left.children + right.children;
    parent.items := parent.items[..sep] + parent.items[sep + 1..];
    parent.children := parent.children[..sep + 1] + parent.children[sep + 2..];
    ghost var c, d' := JoinInner(a, d.items[sep], b), WithoutSeparator(d, sep);
    Adopt(right.children, left, Store(Store(snap[left := snap[left].(next := snap[left].next)], c), d'));
  }

  /** Two neighbouring children of one parent, at positions p and p + 1 of level k. */
  ghost predicate Siblings(levels: seq<seq<Cell>>, snap: Snap, k: nat, p: nat, pp: nat, j: nat) {
    && ParentOf(levels, k, p, 2, pp, j) && j < |levels[k + 1][pp].items|
    && CellOK(levels[k][p], k, snap) && CellOK(levels[k][p + 1], k, snap) && CellOK(levels[k + 1][pp], k + 1, snap)
    && levels[k][p].node != levels[k][p + 1].node
    && snap[levels[k][p].node].parent == levels[k + 1][pp].node
    && snap[levels[k][p + 1].node].parent == levels[k + 1][pp].node
  }

  /** The tree after two sibling leaves shared out their items anew. */
  lemma ShareLeavesTree(levels: seq<seq<Cell>>, snap: Snap, degree: int, e: nat, p: nat, pp: nat, sep: nat, m: nat,
                        c: Cell)
    returns (levels': seq<seq<Cell>>, snap': Snap)
    requires Siblings(levels, snap, 0, p, pp, sep) && c == JoinLeaves(levels[0][p], levels[0][p + 1]) && p <= e < p + 2
    requires degree >= 3 && (degree - 1) / 2 <= m < degree && (degree - 1) / 2 <= |c.items| - m < degree
    requires RootOK(levels) && Shape(levels, snap, degree, levels[0][e].node)
    ensures snap' == ShareSnap(snap, LeafLeft(c, m), LeafRight(c, m, levels[0][p + 1].node),
                               WithNewSeparator(levels[1][pp], sep, c.items[m]), {}, levels[0][p + 1].node)
    ensures snap'.Keys == snap.Keys && RootOK(levels') && Top(levels').node == Top(levels).node
    ensures Shape(levels', snap', degree, null) && Kept(levels, levels')
  {
    var b, d := levels[0][p + 1], levels[1][pp];
    levels' := ShareLevels(levels, 0, p, pp, sep, LeafLeft(c, m), LeafRight(c, m, b.node), c.items[m]);
    snap' := ShareSnap(snap, LeafLeft(c, m), LeafRight(c, m, b.node), WithNewSeparator(d, sep, c.items[m]), {}, b.node);
    ShareLeavesDone(levels, snap, (degree - 1) / 2, degree - 1, e, p, pp, sep, m, c, LeafLeft(c, m),
                    LeafRight(c, m, b.node), levels', snap');
  }

  /** The tree after two sibling internal nodes shared out their items and children anew. */
  lemma ShareInnerTree(levels: seq<seq<Cell>>, snap: Snap, degree: int, e: nat, k: nat, p: nat, pp: nat, sep: nat,
                       m: nat, c: Cell,
                       moved: set<BTreeNode>, par: BTreeNode)
    returns (levels': seq<seq<Cell>>, snap': Snap)
    requires 0 < k && Siblings(levels, snap, k, p, pp, sep) && p <= e < p + 2
    requires c == JoinInner(levels[k][p], levels[k + 1][pp].items[sep], levels[k][p + 1])
    requires degree >= 3 && (degree - 1) / 2 <= m < degree && (degree - 1) / 2 <= |c.items| - m - 1 < degree
    requires Shares(InnerLeft(c, m), levels[k][p], moved, par)
    requires Shares(InnerRight(c, m, levels[k][p + 1].node), levels[k][p + 1], moved, par)
    requires forall x :: x in moved ==> x in levels[k][p].kids || x in levels[k][p + 1].kids
    requires RootOK(levels) && Shape(levels, snap, degree, levels[k][e].node)
    ensures snap' == ShareSnap(snap, InnerLeft(c, m), InnerRight(c, m, levels[k][p + 1].node),
                               WithNewSeparator(levels[k + 1][pp], sep, c.items[m]), moved, par)
    ensures snap'.Keys == snap.Keys && RootOK(levels') && Top(levels').node == Top(levels).node
    ensures Shape(levels', snap', degree, null) && Kept(levels, levels')
  {
    var b, d := levels[k][p + 1], levels[k + 1][pp];
    levels' := ShareLevels(levels, k, p, pp, sep, InnerLeft(c, m), InnerRight(c, m, b.node), c.items[m]);
    snap' := ShareSnap(snap, InnerLeft(c, m), InnerRight(c, m, b.node), WithNewSeparator(d, sep, c.items[m]), moved,
                       par);
    ShareInnerDone(levels, snap, (degree - 1) / 2, degree - 1, e, k, p, pp, sep, m, c, InnerLeft(c, m),
                   InnerRight(c, m, b.node),
                   moved, par, levels', snap');
  }

  method BorrowFromLeftSibling(node: BTreeNode, left: BTreeNode, sep: nat, degree: int,
                               ghost levels: seq<seq<Cell>>, ghost snap: Snap, ghost k: nat, ghost p: nat,
                               ghost pp: nat)
    returns (ghost levels': seq<seq<Cell>>, ghost snap': Snap)
    requires Siblings(levels, snap, k, p, pp, sep) && levels[k][p].node == left && levels[k][p + 1].node == node
    requires Mirrored(snap)
    requires degree >= 3 && (degree - 1) / 2 < |levels[k][p].items| < degree
    requires |levels[k][p + 1].items| + 1 == (degree - 1) / 2
    requires RootOK(levels) && Shape(levels, snap, degree, node)
    modifies snap.Keys
    ensures Mirrored(snap') && snap'.Keys == snap.Keys && RootOK(levels') && Top(levels').node == Top(levels).node
    ensures Shape(levels', snap', degree, null) && Kept(levels, levels')
  {
    ghost var a, b, d := levels[k][p], levels[k][p + 1], levels[k + 1][pp];
    ghost var m: nat := |a.items| - 1;
    if node.isLeaf {
      ghost var c := JoinLeaves(a, b);
      WriteBorrowLeftLeaf(node, left, sep, snap, a, b, d, c, m);
      levels', snap' := ShareLeavesTree(levels, snap, degree, p + 1, p, pp, sep, m, c);
    } else {
      ghost var c := JoinInner(a, d.items[sep], b);
      WriteBorrowLeftInternal(node, left, sep, k, snap, a, b, d, c, m);
      BorrowLeftShares(levels, snap, k, p, d.items[sep], c, m);
      levels', snap' := ShareInnerTree(levels, snap, degree, p + 1, k, p, pp, sep, m, c, {a.kids[m + 1]}, node);
    }
  }

  lemma BorrowLeftShares(levels: seq<seq<Cell>>, snap: Snap, k: nat, p: nat, x: Item, c: Cell, m: nat)
    requires 0 < k < |levels| && p + 1 < |levels[k]| && |levels[k][p].items| >= 1 && m == |levels[k][p].items| - 1
    requires CellOK(levels[k][p], k, snap) && CellOK(levels[k][p + 1], k, snap)
    requires levels[k][p].node != levels[k][p + 1].node
    requires c == JoinInner(levels[k][p], x, levels[k][p + 1])
    requires Linked(levels) && CellsOK(levels, snap)
    ensures var a, b := levels[k][p], levels[k][p + 1];
            var moved := {a.kids[m + 1]};
            && Shares(InnerLeft(c, m), a, moved, b.node) && Shares(InnerRight(c, m, b.node), b, moved, b.node)
            && forall y :: y in moved ==> y in a.kids || y in b.kids
  {
    var a, b := levels[k][p], levels[k][p + 1];
    KidsDistinct(levels, snap, k, p);
    BorrowLeftCells(a, x, b, c, m);
    forall i | 0 <= i < |b.kids| ensures b.kids[i] != a.kids[m + 1] {
      assert snap[b.kids[i]].parent == b.node && snap[a.kids[m + 1]].parent == a.node;
    }
  }

  method BorrowFromRightSibling(node: BTreeNode, right: BTreeNode, sep: nat, degree: int,
                                ghost levels: seq<seq<Cell>>, ghost snap: Snap, ghost k: nat, ghost p: nat,
                                ghost pp: nat)
    returns (ghost levels': seq<seq<Cell>>, ghost snap': Snap)
    requires Siblings(levels, snap, k, p, pp, sep) && levels[k][p].node == node && levels[k][p + 1].node == right
    requires Mirrored(snap)
    requires degree >= 3 && (degree - 1) / 2 < |levels[k][p + 1].items| < degree
    requires |levels[k][p].items| + 1 == (degree - 1) / 2
    requires RootOK(levels) && Shape(levels, snap, degree, node)
    modifies snap.Keys
    ensures Mirrored(snap') && snap'.Keys == snap.Keys && RootOK(levels') && Top(levels').node == Top(levels).node
    ensures Shape(levels', snap', degree, null) && Kept(levels, levels')
  {
    ghost var a, b, d := levels[k][p], levels[k][p + 1], levels[k + 1][pp];
    if node.isLeaf {
      ghost var c := JoinLeaves(a, b);
      WriteBorrowRightLeaf(node, right, sep, snap, a, b, d, c);
      levels', snap' := ShareLeavesTree(levels, snap, degree, p, p, pp, sep, |a.items| + 1, c);
    } else {
      ghost var c := JoinInner(a, d.items[sep], b);
      WriteBorrowRightInternal(node, right, sep, k, snap, a, b, d, c);
      BorrowRightShares(levels, snap, k, p, d.items[sep], c);
      levels', snap' := ShareInnerTree(levels, snap, degree, p, k, p, pp, sep, |a.items| + 1, c, {b.kids[0]}, node);
    }
  }

  lemma BorrowRightShares(levels: seq<seq<Cell>>, snap: Snap, k: nat, p: nat, x: Item, c: Cell)
    requires 0 < k < |levels| && p + 1 < |levels[k]| && |levels[k][p + 1].items| >= 1
    requires CellOK(levels[k][p], k, snap) && CellOK(levels[k][p + 1], k, snap)
    requires levels[k][p].node != levels[k][p + 1].node
    requires c == JoinInner(levels[k][p], x, levels[k][p + 1])
    requires Linked(levels) && CellsOK(levels, snap)
    ensures var a, b := levels[k][p], levels[k][p + 1];
            var m, moved := |a.items| + 1, {b.kids[0]};
            && Shares(InnerLeft(c, m), a, moved, a.node) && Shares(InnerRight(c, m, b.node), b, moved, a.node)
            && forall y :: y in moved ==> y in a.kids || y in b.kids
  {
    var a, b := levels[k][p], levels[k][p + 1];
    KidsDistinct(levels, snap, k, p + 1);
    BorrowRightCells(a, x, b, c);
    forall i | 0 <= i < |a.kids| ensures a.kids[i] != b.kids[0] {
      assert snap[a.kids[i]].parent == a.node && snap[b.kids[0]].parent == b.node;
    }
  }

  lemma MergeLeavesTree(levels: seq<seq<Cell>>, snap: Snap, degree: int, e: nat, p: nat, pp: nat, sep: nat, c: Cell)
    returns (levels': seq<seq<Cell>>, snap': Snap)
    requires Siblings(levels, snap, 0, p, pp, sep) && p <= e < p + 2
    requires c == JoinLeaves(levels[0][p], levels[0][p + 1]) && degree >= 3 && (degree - 1) / 2 <= |c.items| < degree
    requires RootOK(levels) && Shape(levels, snap, degree, levels[0][e].node)
    ensures snap' == JoinSnap(snap, c, levels[0][p + 1], WithoutSeparator(levels[1][pp], sep),
                              snap[levels[0][p + 1].node].next)
    ensures Merged(levels, snap, levels', snap', degree, 0, pp)
  {
    hide Flat, Tokens, Ordered, Chained, Linked, CellsOK;
    levels' := JoinLevels(levels, 0, p, pp, sep, c);
    snap' := JoinSnap(snap, c, levels[0][p + 1], WithoutSeparator(levels[1][pp], sep),
                      snap[levels[0][p + 1].node].next);
    JoinLeavesDone(levels, snap, p, pp, sep, c, levels', snap');
    JoinSizes(levels, levels', snap, (degree - 1) / 2, degree - 1, e, 0, p, pp, sep, c);
  }

  lemma MergeInnerTree(levels: seq<seq<Cell>>, snap: Snap, degree: int, e: nat, k: nat, p: nat, pp: nat, sep: nat,
                       c: Cell)
    returns (levels': seq<seq<Cell>>, snap': Snap)
    requires 0 < k && Siblings(levels, snap, k, p, pp, sep) && p <= e < p + 2
    requires c == JoinInner(levels[k][p], levels[k + 1][pp].items[sep], levels[k][p + 1]) && degree >= 3
    requires (degree - 1) / 2 <= |c.items| < degree
    requires RootOK(levels) && Shape(levels, snap, degree, levels[k][e].node)
    ensures snap' == JoinSnap(snap, c, levels[k][p + 1], WithoutSeparator(levels[k + 1][pp], sep),
                              snap[levels[k][p].node].next)
    ensures Merged(levels, snap, levels', snap', degree, k, pp)
  {
    levels' := JoinLevels(levels, k, p, pp, sep, c);
    snap' := JoinSnap(snap, c, levels[k][p + 1], WithoutSeparator(levels[k + 1][pp], sep),
                      snap[levels[k][p].node].next);
    JoinInnerDone(levels, snap, k, p, pp, sep, c, levels', snap');
    JoinSizes(levels, levels', snap, (degree - 1) / 2, degree - 1, e, k, p, pp, sep, c);
  }

  /** After a merge on level k: the parent at (k+1, pp) lost a child and may lack items, all else is as it must be. */
  ghost predicate Merged(levels: seq<seq<Cell>>, snap: Snap, levels': seq<seq<Cell>>, snap': Snap, degree: int, k: nat,
                         pp: nat) {
    && RootOK(levels) && |levels'| == |levels| && |levels'[|levels| - 1]| == 1 && snap'.Keys == snap.Keys
    && k + 1 < |levels| && pp < |levels[k + 1]| && pp < |levels'[k + 1]|
    && levels'[k + 1][pp].node == levels[k + 1][pp].node
    && Top(levels').node == Top(levels).node && Kept(levels, levels')
    && Short(levels', snap', degree, k + 1, pp)
  }

  /** The node at (k, p) may have one item too few, or none at all at the root; all else is as it must be. */
  ghost predicate Short(levels: seq<seq<Cell>>, snap: Snap, degree: int, k: nat, p: nat) {
    && k < |levels| && p < |levels[k]| && |levels[|levels| - 1]| == 1
    && degree >= 3 && |levels[k][p].items| < degree
    && (k + 1 < |levels| ==> (degree - 1) / 2 <= |levels[k][p].items| + 1 && RootOK(levels))
    && Shape(levels, snap, degree, levels[k][p].node)
  }

  method MergeSiblings(left: BTreeNode, right: BTreeNode, parent: BTreeNode, sep: nat, degree: int,
                       ghost levels: seq<seq<Cell>>, ghost snap: Snap, ghost k: nat, ghost p: nat, ghost pp: nat,
                       ghost e: nat)
    returns (ghost levels': seq<seq<Cell>>, ghost snap': Snap)
    requires Siblings(levels, snap, k, p, pp, sep) && p <= e < p + 2 && Mirrored(snap)
    requires levels[k][p].node == left && levels[k][p + 1].node == right && levels[k + 1][pp].node == parent
    requires degree >= 3 && |levels[k][p].items| + |levels[k][p + 1].items| + 1 == (degree - 1) / 2 * 2
    requires RootOK(levels) && Shape(levels, snap, degree, levels[k][e].node)
    modifies snap.Keys
    ensures Merged(levels, snap, levels', snap', degree, k, pp) && Mirrored(snap')
  {
    ghost var a, b, d := levels[k][p], levels[k][p + 1], levels[k + 1][pp];
    if left.isLeaf {
      WriteMergeLeaves(left, right, parent, sep, snap, a, b, d);
      levels', snap' := MergeLeavesTree(levels, snap, degree, e, p, pp, sep, JoinLeaves(a, b));
    } else {
      WriteMergeInternal(left, right, parent, sep, k, snap, a, b, d);
      levels', snap' := MergeInnerTree(levels, snap, degree, e, k, p, pp, sep, JoinInner(a, d.items[sep], b));
    }
  }

  class BTreeIndex {
    var root: BTreeNode
    const degree: int
    ghost var levels: seq<seq<Cell>>
    ghost var snap: Snap

    /** Uniform depth, links, parents, chain, order and sizes, all at once. */
    ghost predicate Valid()
      reads this, snap.Keys
    {
      Shape(levels, snap, degree, null) && RootOK(levels) && root == Top(levels).node && Mirrored(snap)
    }

    /** All stored pairs, in leaf order. */
    ghost function Contents(): seq<Item>
      requires |levels| > 0
      reads this
    {
      Flat(levels[0])
    }

    /** No two stored pairs tie, and no stored pair ties a separator it must stay below. */
    ghost predicate NoTies()
      requires |levels| > 0
      reads this
    {
      Ordered(true, Tokens(levels[0]))
    }

    constructor (degree: int)
      requires degree >= 3
      ensures Valid() && fresh(snap.Keys) && this.degree == degree
      ensures View(levels[0]) == [([], Inf)] && Contents() == [] && NoTies()
    {
      this.degree := degree;
      var leaf := new BTreeNode(true, 0, null, null, [], []);
      root := leaf;
      levels := [[Cell(leaf, [], [], Inf)]];
      snap := map[leaf := Fields([], [], null, null)];
      new;
      FlatOne(levels[0][0]);
      assert levels[0] == [levels[0][0]];
      assert Tokens(levels[0]) == [Token(Inf, false)];
    }

    /** The descent of Add and RemoveByScore: by score only, right of every separator not above it. */
    method FindLeaf(score: real, ghost levels: seq<seq<Cell>>, ghost snap: Snap) returns (node: BTreeNode, ghost p: nat)
      requires Core(levels, snap) && Mirrored(snap) && root == Top(levels).node
      ensures Routes(levels[0], p, score) && levels[0][p].node == node && CellOK(levels[0][p], 0, snap)
    {
      node := root;
      ghost var k := |levels| - 1;
      p := 0;
      assert CellOK(levels[k][p], k, snap) by { assert LevelOK(levels[k], k, snap); }
      while !node.isLeaf
        invariant k < |levels| && Routes(levels[k], p, score) && levels[k][p].node == node
        invariant CellOK(levels[k][p], k, snap)
        decreases k
      {
        var i := 0;
        while i < |node.items| && score >= node.items[i].score
          invariant i <= |node.items| && (i > 0 ==> node.items[i - 1].score <= score)
        {
          i := i + 1;
        }
        p := RouteDown(levels, snap, k, p, i, score);
        k := k - 1;
        assert CellOK(levels[k][p], k, snap) by { assert LevelOK(levels[k], k, snap); }
        node := node.children[i];
      }
    }

    /** Adds a pair whose member is not found in the leaf its score leads to; an empty member is refused. */
    method Add(score: real, member: string) returns (r: int)
      requires Valid() && (member != "" ==> !HomeHolds(levels[0], score, member))
      modifies this, snap.Keys
      ensures Valid() && old(snap.Keys) <= snap.Keys && fresh(snap.Keys - old(snap.Keys))
      ensures r == if member == "" then 0 else 1
      ensures r == 0 ==> levels == old(levels)
      ensures r == 1 ==> Added(old(levels), levels, Item(score, member), degree)
    {
      if |member| == 0 {
        return 0;
      }
      ghost var levels', snap' := AddPair(Item(score, member), levels, snap);
      levels, snap := levels', snap';
      return 1;
    }

    /** Find the leaf, insert, split upwards as long as a node is over capacity. */
    method AddPair(x: Item, ghost levels: seq<seq<Cell>>, ghost snap: Snap)
      returns (ghost levels': seq<seq<Cell>>, ghost snap': Snap)
      requires RootOK(levels) && root == Top(levels).node && Mirrored(snap) && Shape(levels, snap, degree, null)
      requires !HomeHolds(levels[0], x.score, x.member)
      modifies `root, snap.Keys
      ensures snap.Keys <= snap'.Keys && fresh(snap'.Keys - snap.Keys) && Mirrored(snap')
      ensures RootOK(levels') && root == Top(levels').node && Shape(levels', snap', degree, null)
      ensures Added(levels, levels', x, degree)
    {
      hide OrderIff;
      var node;
      ghost var p, mid;
      node, p, mid, snap' := Place(x, levels, snap);
      levels' := mid;
      if |node.items| > degree - 1 {
        levels', snap' := SplitNode(node, mid, snap', 0, p);
      }
      AddedIs(levels, mid, levels', p, x, degree);
    }

    method Place(x: Item, ghost levels: seq<seq<Cell>>, ghost snap: Snap)
      returns (node: BTreeNode, ghost p: nat, ghost levels': seq<seq<Cell>>, ghost snap': Snap)
      requires RootOK(levels) && root == Top(levels).node && Mirrored(snap) && Shape(levels, snap, degree, null)
      requires !HomeHolds(levels[0], x.score, x.member)
      modifies snap.Keys
      ensures snap'.Keys == snap.Keys && Mirrored(snap') && node in snap'
      ensures RootOK(levels') && root == Top(levels').node
      ensures p < |levels[0]| == |levels'[0]| && levels'[0][p].node == node && node.items == levels'[0][p].items
      ensures |node.items| <= degree
      ensures Shape(levels', snap', degree, if |node.items| < degree then null else node)
      ensures Placed(levels, levels', p, x)
    {
      hide OrderIff;
      node, p := FindLeaf(x.score, levels, snap);
      RoutesHome(levels[0], p, x.score);
      var known := LeafHolds(node, x.member);
      if known {
        assert false;
      }
      WriteInsert(node, x, snap);
      levels' := LeafLevels(levels, p, Inserted(levels[0][p].items, x));
      snap' := LeafSnap(snap, node, Inserted(levels[0][p].items, x));
      AddDone(levels, snap, degree, p, x, levels', snap');
      assert Mirrors(node, snap'[node]);
    }

    /** Removes the pair if its score leads to it, and rebalances. */
    method RemoveByScore(score: real, member: string) returns (r: int)
      requires Valid()
      modifies this, snap.Keys
      ensures Valid() && snap.Keys == old(snap.Keys)
      ensures r == if Findable(old(levels[0]), Item(score, member)) then 1 else 0
      ensures r == 0 ==> levels == old(levels)
      ensures r == 1 ==> RemovedFrom(old(Contents()), Contents(), Item(score, member))
      ensures old(NoTies()) ==> NoTies() && (r == 1 <==> Item(score, member) in old(Contents()))
    {
      var x := Item(score, member);
      ghost var levels', snap';
      r, levels', snap' := RemovePair(x, levels, snap);
      if Ordered(true, Tokens(levels[0])) {
        StrictFindable(levels[0], x);
      }
      levels, snap := levels', snap';
    }

    /** Find the leaf, take the pair out, rebalance upwards as long as a node is short. */
    method RemovePair(x: Item, ghost levels: seq<seq<Cell>>, ghost snap: Snap)
      returns (r: int, ghost levels': seq<seq<Cell>>, ghost snap': Snap)
      requires RootOK(levels) && root == Top(levels).node && Mirrored(snap) && Shape(levels, snap, degree, null)
      modifies `root, snap.Keys
      ensures snap'.Keys == snap.Keys && Mirrored(snap')
      ensures RootOK(levels') && root == Top(levels').node && Shape(levels', snap', degree, null)
      ensures r == if Findable(levels[0], x) then 1 else 0
      ensures r == 0 ==> levels' == levels
      ensures r == 1 ==> RemovedFrom(Flat(levels[0]), Flat(levels'[0]), x)
      ensures Ordered(true, Tokens(levels[0])) ==> Ordered(true, Tokens(levels'[0]))
    {
      levels', snap' := levels, snap;
      var node;
      ghost var p;
      node, p := FindLeaf(x.score, levels, snap);
      FindableIff(levels[0], p, x);
      var i := 0;
      while i < |node.items|
        invariant 0 <= i <= |node.items| && x !in node.items[..i]
      {
        if node.items[i].member == x.member && node.items[i].score == x.score {
          assert node.items[i] == x;
          levels', snap' := TakeOut(node, i, levels, snap, p);
          return 1, levels', snap';
        }
        i := i + 1;
      }
      r := 0;
    }

    method TakeOut(node: BTreeNode, i: nat, ghost levels: seq<seq<Cell>>, ghost snap: Snap, ghost p: nat)
      returns (ghost levels': seq<seq<Cell>>, ghost snap': Snap)
      requires RootOK(levels) && root == Top(levels).node && Mirrored(snap) && Shape(levels, snap, degree, null)
      requires p < |levels[0]| && levels[0][p].node == node && i < |levels[0][p].items| && CellOK(levels[0][p], 0, snap)
      modifies `root, snap.Keys
      ensures snap'.Keys == snap.Keys && Mirrored(snap')
      ensures RootOK(levels') && root == Top(levels').node && Shape(levels', snap', degree, null)
      ensures RemovedFrom(Flat(levels[0]), Flat(levels'[0]), levels[0][p].items[i])
      ensures Ordered(true, Tokens(levels[0])) ==> Ordered(true, Tokens(levels'[0]))
    {
      hide Sizes, Ordered;
      node.items := node.items[..i] + node.items[i + 1..];
      ghost var mid := LeafLevels(levels, p, RemoveAt(levels[0][p].items, i));
      ghost var snapMid := LeafSnap(snap, node, RemoveAt(levels[0][p].items, i));
      TakeOutDone(levels, snap, degree, p, i, mid, snapMid);
      hide Core, Tokens, Flat;
      ParentIff(mid, snapMid, 0, p);
      assert Mirrors(node, snapMid[node]);
      if |node.items| < (degree - 1) / 2 && node.parent != null {
        levels', snap' := HandleUnderflow(node, mid, snapMid, 0, p);
      } else {
        levels', snap' := mid, snapMid;
        SizesClosed(mid, snapMid, (degree - 1) / 2, degree - 1, 0, p);
      }
    }

    /** After a merge: the parent may lack items in turn, or be a root with a single child. */
    method AfterMerge(parent: BTreeNode, ghost levels: seq<seq<Cell>>, ghost snap: Snap, ghost k: nat, ghost p: nat)
      returns (ghost levels': seq<seq<Cell>>, ghost snap': Snap)
      requires 0 < k && Short(levels, snap, degree, k, p) && levels[k][p].node == parent && Mirrored(snap)
      requires root == Top(levels).node
      modifies `root, snap.Keys
      ensures Mirrored(snap') && snap'.Keys == snap.Keys
      ensures RootOK(levels') && root == Top(levels').node && Shape(levels', snap', degree, null)
      ensures Kept(levels, levels')
      decreases |levels| - k, 2
    {
      RootIff(levels, snap, k, p);
      if parent != root {
        levels', snap' := HandleUnderflow(parent, levels, snap, k, p);
      } else {
        SizesClosed(levels, snap, (degree - 1) / 2, degree - 1, k, p);
        levels', snap' := CollapseRoot(levels, snap);
      }
    }

    /** A root with no item and one child hands over to the child. */
    method CollapseRoot(ghost levels: seq<seq<Cell>>, ghost snap: Snap)
      returns (ghost levels': seq<seq<Cell>>, ghost snap': Snap)
      requires |levels| > 1 && |levels[|levels| - 1]| == 1 && root == Top(levels).node && Mirrored(snap)
      requires Shape(levels, snap, degree, null)
      modifies `root, snap.Keys
      ensures Mirrored(snap') && snap'.Keys == snap.Keys
      ensures RootOK(levels') && root == Top(levels').node && Shape(levels', snap', degree, null)
      ensures Kept(levels, levels')
    {
      levels', snap' := levels, snap;
      ghost var t := |levels| - 1;
      assert CellOK(levels[t][0], t, snap) by { assert LevelOK(levels[t], t, snap); }
      if |root.items| == 0 && |root.children| == 1 {
        var kid := root.children[0];
        root := kid;
        kid.parent := null;
        levels' := levels[..t];
        snap' := snap[kid := snap[kid].(parent := null)];
        CollapseStep(levels, snap, levels', snap', kid);
        assert |levels'| > 1 ==> |Top(levels').items| >= 1;
      }
    }

    method HandleUnderflow(node: BTreeNode, ghost levels: seq<seq<Cell>>, ghost snap: Snap, ghost k: nat, ghost p: nat)
      returns (ghost levels': seq<seq<Cell>>, ghost snap': Snap)
      requires Short(levels, snap, degree, k, p) && levels[k][p].node == node && Mirrored(snap)
      requires root == Top(levels).node && RootOK(levels)
      modifies `root, snap.Keys
      ensures Mirrored(snap') && snap'.Keys == snap.Keys
      ensures RootOK(levels') && root == Top(levels').node && Shape(levels', snap', degree, null)
      ensures Kept(levels, levels')
      decreases |levels| - k, 1
    {
      levels', snap' := levels, snap;
      ParentIff(levels, snap, k, p);
      var minItems := (degree - 1) / 2;
      if node.parent == null || |node.items| >= minItems {
        SizesClosed(levels, snap, (degree - 1) / 2, degree - 1, k, p);
        return;
      }
      levels', snap' := Rebalance(node, levels, snap, k, p);
    }

    /** Borrow from the left sibling, or from the right one, or else merge with the left one, or with the right one. */
    method Rebalance(node: BTreeNode, ghost levels: seq<seq<Cell>>, ghost snap: Snap, ghost k: nat, ghost p: nat)
      returns (ghost levels': seq<seq<Cell>>, ghost snap': Snap)
      requires k + 1 < |levels| && p < |levels[k]| && levels[k][p].node == node && degree >= 3
      requires |levels[k][p].items| + 1 == (degree - 1) / 2
      requires Mirrored(snap) && RootOK(levels) && root == Top(levels).node && Shape(levels, snap, degree, node)
      modifies `root, snap.Keys
      ensures Mirrored(snap') && snap'.Keys == snap.Keys
      ensures RootOK(levels') && root == Top(levels').node && Shape(levels', snap', degree, null)
      ensures Kept(levels, levels')
      decreases |levels| - k, 0
    {
      hide Flat, Tokens, Ordered, Chained, Linked, CellsOK, Core, Sizes;
      var minItems := (degree - 1) / 2;
      ghost var pp, j := SiblingsOf(levels, snap, k, p);
      SiblingSizes(levels, snap, degree, k, p, pp, j);
      var parent := node.parent;
      var nodeIndex := FindChildIndex(parent, node, j);
      if nodeIndex > 0 {
        var leftSibling := parent.children[nodeIndex - 1];
        if |leftSibling.items| > minItems {
          levels', snap' := BorrowFromLeftSibling(node, leftSibling, nodeIndex - 1, degree, levels, snap, k, p - 1, pp);
          return;
        }
      }
      if nodeIndex < |parent.children| - 1 {
        var rightSibling := parent.children[nodeIndex + 1];
        if |rightSibling.items| > minItems {
          levels', snap' := BorrowFromRightSibling(node, rightSibling, nodeIndex, degree, levels, snap, k, p, pp);
          return;
        }
      }
      levels', snap' := MergeWithSibling(node, parent, nodeIndex, levels, snap, k, p, pp);
    }

    /** Neither sibling can spare an item: merge with the left one, if there is one, or else with the right one. */
    method MergeWithSibling(node: BTreeNode, parent: BTreeNode, nodeIndex: nat,
                            ghost levels: seq<seq<Cell>>, ghost snap: Snap, ghost k: nat, ghost p: nat, ghost pp: nat)
      returns (ghost levels': seq<seq<Cell>>, ghost snap': Snap)
      requires ParentOf(levels, k, p, 1, pp, nodeIndex) && CellOK(levels[k + 1][pp], k + 1, snap) && Mirrored(snap)
      requires levels[k][p].node == node && levels[k + 1][pp].node == parent
      requires degree >= 3 && |levels[k][p].items| + 1 == (degree - 1) / 2 && |levels[k + 1][pp].kids| >= 2
      requires nodeIndex > 0 ==>
        && p > 0 && Siblings(levels, snap, k, p - 1, pp, nodeIndex - 1)
        && levels[k + 1][pp].kids[nodeIndex - 1] == levels[k][p - 1].node
        && |levels[k][p - 1].items| == (degree - 1) / 2
      requires nodeIndex == 0 ==>
        && p + 1 < |levels[k]| && Siblings(levels, snap, k, p, pp, nodeIndex)
        && levels[k + 1][pp].kids[nodeIndex + 1] == levels[k][p + 1].node
        && |levels[k][p + 1].items| == (degree - 1) / 2
      requires RootOK(levels) && root == Top(levels).node && Shape(levels, snap, degree, node)
      modifies `root, snap.Keys
      ensures Mirrored(snap') && snap'.Keys == snap.Keys
      ensures RootOK(levels') && root == Top(levels').node && Shape(levels', snap', degree, null)
      ensures Kept(levels, levels')
      decreases |levels| - k - 1, 3
    {
      ghost var mid, snapMid;
      if nodeIndex > 0 {
        mid, snapMid := MergeSiblings(parent.children[nodeIndex - 1], node, parent, nodeIndex - 1, degree, levels, snap,
                                      k, p - 1, pp, p);
      } else {
        mid, snapMid := MergeSiblings(node, parent.children[nodeIndex + 1], parent, nodeIndex, degree, levels, snap, k,
                                      p, pp, p);
      }
      levels', snap' := AfterMerge(parent, mid, snapMid, k + 1, pp);
      KeptTransitive(levels, mid, levels');
    }

    // ---- queries over the leaf chain ---------------------------------------------------

    method FirstLeaf() returns (node: BTreeNode)
      requires Valid()
      ensures |levels[0]| > 0 && node == levels[0][0].node
    {
      node := root;
      ghost var k: nat := |levels| - 1;
      assert CellOK(levels[k][0], k, snap) by { assert LevelOK(levels[k], k, snap); }
      while !node.isLeaf
        invariant k < |levels| && |levels[k]| > 0 && levels[k][0].node == node && CellOK(levels[k][0], k, snap)
        decreases k
      {
        FirstChild(levels, snap, k);
        node := node.children[0];
        k := k - 1;
      }
    }

    /** The rank of a member: the position of its first pair, or -1. */
    method GetRank(member: string) returns (rank: int)
      requires Valid()
      ensures rank == -1 ==> forall i :: 0 <= i < |Contents()| ==> Contents()[i].member != member
      ensures rank != -1 ==> 0 <= rank < |Contents()| && Contents()[rank].member == member
      ensures rank != -1 ==> forall i :: 0 <= i < rank ==> Contents()[i].member != member
      ensures Valid()
    {
      hide Core, Sizes, Flat, Offset;
      rank := 0;
      var node: BTreeNode? := FirstLeaf();
      ghost var q, s := 0, Contents();
      OffsetEnd(levels[0]);
      while node != null
        invariant q <= |levels[0]| && node == NodeAt(levels[0], q) && rank == Offset(levels[0], q) <= |s|
        invariant forall j :: 0 <= j < rank ==> s[j].member != member
        decreases |levels[0]| - q
      {
        AtLeaf(levels, snap, q);
        var i := 0;
        while i < |node.items|
          invariant i <= |node.items| && rank == Offset(levels[0], q) + i <= |s|
          invariant forall j :: 0 <= j < rank ==> s[j].member != member
        {
          assert s[rank] == levels[0][q].items[i];
          if node.items[i].member == member {
            return;
          }
          rank := rank + 1;
          i := i + 1;
        }
        node := node.next;
        q := q + 1;
      }
      rank := -1;
    }

    /** The pair at a rank. */
    method GetByRank(rank: int) returns (r: Option<Item>)
      requires Valid()
      ensures r == if 0 <= rank < |Contents()| then Some(Contents()[rank]) else None
    {
      hide Core, Sizes, Flat, Offset;
      if rank < 0 {
        return None;
      }
      var currentRank := 0;
      var node: BTreeNode? := FirstLeaf();
      ghost var q, s := 0, Contents();
      OffsetEnd(levels[0]);
      while node != null
        invariant q <= |levels[0]| && node == NodeAt(levels[0], q) && currentRank == Offset(levels[0], q) <= |s|
        invariant currentRank <= rank
        decreases |levels[0]| - q
      {
        AtLeaf(levels, snap, q);
        var i := 0;
        while i < |node.items|
          invariant i <= |node.items| && currentRank == Offset(levels[0], q) + i <= |s| && currentRank <= rank
        {
          assert s[currentRank] == levels[0][q].items[i];
          if currentRank == rank {
            return Some(node.items[i]);
          }
          currentRank := currentRank + 1;
          i := i + 1;
        }
        node := node.next;
        q := q + 1;
      }
      r := None;
    }

    /** GetRank undoes GetByRank when no member is stored twice. */
    method RankThereAndBack(rank: int) returns (back: int)
      requires Valid() && 0 <= rank < |Contents()|
      requires forall i, j :: 0 <= i < j < |Contents()| ==> Contents()[i].member != Contents()[j].member
      ensures back == rank
    {
      hide Core, Sizes, Flat;
      var item := GetByRank(rank);
      ghost var s := Contents();
      assert s[rank].member == item.value.member;
      back := GetRank(item.value.member);
      assert Contents() == s && Contents()[rank].member == item.value.member;
    }

    /** The pairs with a score between min and max: leaving early at the first larger score misses none. */
    method GetRange(min: real, max: real) returns (result: seq<Item>)
      requires Valid()
      ensures result == InRange(Contents(), min, max)
    {
      hide Core, Sizes, Flat, Offset, RangeSoFar, InRange;
      result := [];
      var node: BTreeNode? := FirstLeaf();
      ghost var q, s, n := 0, Contents(), 0;
      RangeStart(s, min, max);
      OffsetEnd(levels[0]);
      while node != null
        invariant q <= |levels[0]| && node == NodeAt(levels[0], q) && n == Offset(levels[0], q) <= |s|
        invariant RangeSoFar(s, n, min, max, result)
        decreases |levels[0]| - q
      {
        AtLeaf(levels, snap, q);
        var i := 0;
        while i < |node.items|
          invariant i <= |node.items| && n == Offset(levels[0], q) + i <= |s| && RangeSoFar(s, n, min, max, result)
        {
          assert s[n] == levels[0][q].items[i];
          RangeStep(s, n, min, max, result);
          if node.items[i].score >= min && node.items[i].score <= max {
            result := result + [node.items[i]];
          }
          n := n + 1;
          if node.items[i].score > max {
            NothingAbove(levels, snap, n - 1, max);
            RangeDone(s, n, min, max, result);
            return;
          }
          i := i + 1;
        }
        node := node.next;
        q := q + 1;
      }
      RangeDone(s, n, min, max, result);
    }

    /** The pairs with a rank between start and end, as far as there are any. */
    method GetRangeByRank(start: int, end: int) returns (result: seq<Item>)
      requires Valid()
      ensures result == RankSlice(Contents(), start, end)
    {
      hide Core, Sizes, Flat, Offset, RanksSoFar;
      result := [];
      if start < 0 || end < start {
        return;
      }
      hide RankSlice;
      var currentRank := 0;
      var node: BTreeNode? := FirstLeaf();
      ghost var q, s := 0, Contents();
      RanksStart(s, start, end);
      OffsetEnd(levels[0]);
      while node != null
        invariant q <= |levels[0]| && node == NodeAt(levels[0], q) && currentRank == Offset(levels[0], q) <= |s|
        invariant RanksSoFar(s, currentRank, start, end, result)
        decreases |levels[0]| - q
      {
        AtLeaf(levels, snap, q);
        var i := 0;
        while i < |node.items|
          invariant i <= |node.items| && currentRank == Offset(levels[0], q) + i <= |s|
          invariant RanksSoFar(s, currentRank, start, end, result)
        {
          assert s[currentRank] == levels[0][q].items[i];
          if currentRank > end {
            RanksDone(s, currentRank, start, end, result);
          }
          RanksStep(s, currentRank, start, end, result);
          if currentRank >= start && currentRank <= end {
            result := result + [node.items[i]];
          }
          if currentRank > end {
            return;
          }
          currentRank := currentRank + 1;
          i := i + 1;
        }
        node := node.next;
        q := q + 1;
      }
      RanksDone(s, currentRank, start, end, result);
    }

    method Count() returns (count: nat)
      requires Valid()
      ensures count == |Contents()|
    {
      hide Core, Sizes, Flat, Offset;
      count := 0;
      var node: BTreeNode? := FirstLeaf();
      ghost var q := 0;
      OffsetEnd(levels[0]);
      while node != null
        invariant q <= |levels[0]| && node == NodeAt(levels[0], q) && count == Offset(levels[0], q)
        decreases |levels[0]| - q
      {
        AtLeaf(levels, snap, q);
        count := count + |node.items|;
        node := node.next;
        q := q + 1;
      }
    }

    method SplitLeaf(node: BTreeNode, ghost levels: seq<seq<Cell>>, ghost snap: Snap, ghost p: nat)
      returns (ghost levels': seq<seq<Cell>>, ghost snap': Snap)
      requires Shape(levels, snap, degree, node) && Mirrored(snap) && root == Top(levels).node
      requires p < |levels[0]| && levels[0][p].node == node && |levels[0][p].items| == degree
      requires |levels| >= 2 && (|levels| == 2 || RootOK(levels))
      modifies `root, snap.Keys
      ensures snap.Keys <= snap'.Keys && fresh(snap'.Keys - snap.Keys) && Mirrored(snap')
      ensures Shape(levels', snap', degree, null) && RootOK(levels') && root == Top(levels').node
      ensures Kept(levels, levels') && View(levels'[0]) == SplitView(View(levels[0]), p, degree / 2)
      decreases if Top(levels).items == [] then 0 else |levels| - 1, 0
    {
      var parent;
      ghost var pp;
      parent, pp, levels', snap' := CutLeaf(node, degree, levels, snap, p);
      ParentSize(levels', snap', degree, 1, pp);
      if |parent.items| > degree - 1 {
        ghost var mid := levels';
        levels', snap' := SplitNode(parent, levels', snap', 1, pp);
        KeptTransitive(levels, mid, levels');
      } else {
        SizesClosed(levels', snap', (degree - 1) / 2, degree - 1, 1, pp);
      }
    }

    method SplitInternal(node: BTreeNode, ghost levels: seq<seq<Cell>>, ghost snap: Snap, ghost k: nat, ghost p: nat)
      returns (ghost levels': seq<seq<Cell>>, ghost snap': Snap)
      requires Shape(levels, snap, degree, node) && Mirrored(snap) && root == Top(levels).node
      requires 0 < k && k + 1 < |levels| && p < |levels[k]| && levels[k][p].node == node
      requires |levels[k][p].items| == degree
      requires |levels| == k + 2 || RootOK(levels)
      modifies `root, snap.Keys
      ensures snap.Keys <= snap'.Keys && fresh(snap'.Keys - snap.Keys) && Mirrored(snap')
      ensures Shape(levels', snap', degree, null) && RootOK(levels') && root == Top(levels').node
      ensures Kept(levels, levels') && levels'[0] == levels[0]
      decreases if Top(levels).items == [] then 0 else |levels| - 1 - k, 0
    {
      var parent;
      ghost var pp;
      parent, pp, levels', snap' := CutInternal(node, degree, levels, snap, k, p);
      ParentSize(levels', snap', degree, k + 1, pp);
      if |parent.items| > degree - 1 {
        ghost var mid := levels';
        levels', snap' := SplitNode(parent, levels', snap', k + 1, pp);
        KeptTransitive(levels, mid, levels');
      } else {
        SizesClosed(levels', snap', (degree - 1) / 2, degree - 1, k + 1, pp);
      }
    }

    method SplitRoot(ghost levels: seq<seq<Cell>>, ghost snap: Snap)
      returns (ghost levels': seq<seq<Cell>>, ghost snap': Snap)
      requires Shape(levels, snap, degree, root) && Mirrored(snap) && root == Top(levels).node
      requires |Top(levels).items| == degree
      modifies `root, snap.Keys
      ensures snap.Keys <= snap'.Keys && fresh(snap'.Keys - snap.Keys) && Mirrored(snap')
      ensures Shape(levels', snap', degree, null) && RootOK(levels') && root == Top(levels').node
      ensures Kept(levels, levels')
      ensures if |levels| > 1 then levels'[0] == levels[0]
              else View(levels'[0]) == SplitView(View(levels[0]), 0, degree / 2)
      decreases 0, 1
    {
      var oldRoot := root;
      levels', snap' := GrowRoot(levels, snap);
      if oldRoot.isLeaf {
        levels', snap' := SplitLeaf(oldRoot, levels', snap', 0);
      } else {
        levels', snap' := SplitInternal(oldRoot, levels', snap', |levels| - 1, 0);
      }
    }

    /** A new, empty root above the old one. */
    method GrowRoot(ghost levels: seq<seq<Cell>>, ghost snap: Snap)
      returns (ghost levels': seq<seq<Cell>>, ghost snap': Snap)
      requires Shape(levels, snap, degree, root) && Mirrored(snap) && root == Top(levels).node
      modifies `root, root
      ensures snap.Keys <= snap'.Keys && fresh(snap'.Keys - snap.Keys) && Mirrored(snap')
      ensures Shape(levels', snap', degree, old(root)) && root == Top(levels').node
      ensures levels' == GrowLevels(levels, root)
    {
      hide Flat, Tokens;
      NodePosition(levels, snap, |levels| - 1, 0);
      var newRoot := WriteRoot(root, |levels|, snap);
      levels' := GrowLevels(levels, newRoot);
      snap' := GrowSnap(snap, root, newRoot);
      GrowStep(levels, snap, newRoot, levels', snap');
      root := newRoot;
    }

    method SplitNode(node: BTreeNode, ghost levels: seq<seq<Cell>>, ghost snap: Snap, ghost k: nat, ghost p: nat)
      returns (ghost levels': seq<seq<Cell>>, ghost snap': Snap)
      requires Shape(levels, snap, degree, node) && Mirrored(snap) && root == Top(levels).node
      requires k < |levels| && p < |levels[k]| && levels[k][p].node == node && |levels[k][p].items| == degree
      requires RootOK(levels)
      modifies `root, snap.Keys
      ensures snap.Keys <= snap'.Keys && fresh(snap'.Keys - snap.Keys) && Mirrored(snap')
      ensures Shape(levels', snap', degree, null) && RootOK(levels') && root == Top(levels').node
      ensures Kept(levels, levels')
      ensures if k > 0 then levels'[0] == levels[0] else View(levels'[0]) == SplitView(View(levels[0]), p, degree / 2)
      decreases |levels| - 1 - k, 2
    {
      ParentIff(levels, snap, k, p);
      if node.parent == null {
        levels', snap' := SplitRoot(levels, snap);
      } else if node.isLeaf {
        levels', snap' := SplitLeaf(node, levels, snap, p);
      } else {
        levels', snap' := SplitInternal(node, levels, snap, k, p);
      }
    }
  }

  /** A node is the root exactly on the top level. */
  lemma RootIff(levels: seq<seq<Cell>>, snap: Snap, k: nat, p: nat)
    requires Core(levels, snap) && k < |levels| && p < |levels[k]|
    ensures levels[k][p].node == Top(levels).node <==> k == |levels| - 1
  {
    assert LevelOK(levels[k], k, snap) && LevelOK(levels[|levels| - 1], |levels| - 1, snap);
    assert CellOK(levels[k][p], k, snap) && CellOK(Top(levels), |levels| - 1, snap);
  }

  /** A node below the root has siblings on at least one side, and the heap agrees with the links about them. */
  lemma SiblingsOf(levels: seq<seq<Cell>>, snap: Snap, k: nat, p: nat) returns (pp: nat, j: nat)
    requires k + 1 < |levels| && p < |levels[k]|
    requires Core(levels, snap)
    ensures ParentOf(levels, k, p, 1, pp, j) && CellOK(levels[k][p], k, snap) && CellOK(levels[k + 1][pp], k + 1, snap)
    ensures levels[k + 1][pp].kids[j] == levels[k][p].node && snap[levels[k][p].node].parent == levels[k + 1][pp].node
    ensures Distinct(levels[k + 1][pp].kids)
    ensures j > 0 ==> p > 0 && Siblings(levels, snap, k, p - 1, pp, j - 1)
    ensures j > 0 ==> levels[k + 1][pp].kids[j - 1] == levels[k][p - 1].node
    ensures j + 1 < |levels[k + 1][pp].kids| ==>
      && p + 1 < |levels[k]| && Siblings(levels, snap, k, p, pp, j)
      && levels[k + 1][pp].kids[j + 1] == levels[k][p + 1].node
  {
    pp, j := ParentCell(levels, snap, k, p);
    KidsDistinct(levels, snap, k + 1, pp);
    if j > 0 {
      PairOf(levels, snap, k, p - 1, pp, j - 1);
    }
    if j + 1 < |levels[k + 1][pp].kids| {
      PairOf(levels, snap, k, p, pp, j);
    }
  }

  /** The siblings are within bounds, and the parent has a second child. */
  lemma SiblingSizes(levels: seq<seq<Cell>>, snap: Snap, degree: int, k: nat, p: nat, pp: nat, j: nat)
    requires ParentOf(levels, k, p, 1, pp, j) && degree >= 3 && CellOK(levels[k + 1][pp], k + 1, snap)
    requires RootOK(levels) && Shape(levels, snap, degree, levels[k][p].node)
    ensures p > 0 ==> (degree - 1) / 2 <= |levels[k][p - 1].items| < degree
    ensures p + 1 < |levels[k]| ==> (degree - 1) / 2 <= |levels[k][p + 1].items| < degree
    ensures |levels[k + 1][pp].kids| >= 2
  {
    NodePosition(levels, snap, k, p);
  }

  lemma PairOf(levels: seq<seq<Cell>>, snap: Snap, k: nat, p: nat, pp: nat, j: nat)
    requires k + 1 < |levels| && pp < |levels[k + 1]| && |DownAll(levels[k + 1][..pp])| + j == p
    requires j + 1 < |levels[k + 1][pp].kids|
    requires Linked(levels) && CellsOK(levels, snap)
    ensures Siblings(levels, snap, k, p, pp, j)
    ensures levels[k + 1][pp].kids[j] == levels[k][p].node && levels[k + 1][pp].kids[j + 1] == levels[k][p + 1].node
  {
    var up := levels[k + 1];
    assert LinkedAt(levels, k + 1);
    DownAllAround(up, pp, up[pp]);
    assert LevelOK(levels[k], k, snap) && LevelOK(up, k + 1, snap) && CellOK(up[pp], k + 1, snap);
    ParentLink(levels, k, p, pp, j);
    ParentLink(levels, k, p + 1, pp, j + 1);
    assert CellOK(levels[k][p], k, snap) && CellOK(levels[k][p + 1], k, snap);
  }

  /** A new root above the old one. */
  method WriteRoot(oldRoot: BTreeNode, ghost height: nat, ghost snap: Snap) returns (newRoot: BTreeNode)
    requires Mirrored(snap) && oldRoot in snap
    modifies oldRoot
    ensures fresh(newRoot) && newRoot !in snap && !newRoot.isLeaf && newRoot.height == height
    ensures Mirrored(GrowSnap(snap, oldRoot, newRoot))
  {
    newRoot := new BTreeNode(false, height, null, null, [], []);
    oldRoot.parent := newRoot;
    newRoot.children := newRoot.children + [oldRoot];
  }

  /** Looks for the member in one leaf. */
  method LeafHolds(node: BTreeNode, member: string) returns (r: bool)
    ensures r == Mentions(node.items, member)
  {
    for i := 0 to |node.items|
      invariant forall j :: 0 <= j < i ==> node.items[j].member != member
    {
      if node.items[i].member == member {
        return true;
      }
    }
    r := false;
  }

  /** The item goes before the first one not smaller. */
  method WriteInsert(node: BTreeNode, x: Item, ghost snap: Snap)
    requires Mirrored(snap) && node in snap
    modifies node
    ensures Mirrored(LeafSnap(snap, node, Inserted(snap[node].items, x)))
  {
    var i := 0;
    while i < |node.items| && CompareTo(x, node.items[i]) > 0
      invariant i <= |node.items| && forall q :: 0 <= q < i ==> CompareTo(x, node.items[q]) > 0
    {
      i := i + 1;
    }
    assert i == LocalPosition(node.items, x);
    node.items := node.items[..i] + [x] + node.items[i..];
  }

  /** What adding a pair does: it goes to its home leaf and nothing else moves in the contents. This is the insert into
      the sorted sequence exactly if no larger pair is left of the home leaf, and so in particular without ties. */
  ghost predicate Added(levels: seq<seq<Cell>>, levels': seq<seq<Cell>>, x: Item, degree: int) {
    && |levels| > 0 && |levels'| > 0 && degree >= 3
    && Home(View(levels[0]), x.score) < |levels[0]|
    && View(levels'[0]) == AddView(View(levels[0]), x, degree)
    && InsertedInto(Flat(levels[0]), Flat(levels'[0]), x)
    && OrderIff(levels[0], Home(View(levels[0]), x.score), x, Flat(levels'[0]))
    && (Ordered(true, Tokens(levels[0])) && NoTie(Flat(levels[0]), x.score) ==>
      Ordered(true, Tokens(levels'[0])) && Flat(levels'[0]) == SortedInsert(Flat(levels[0]), x))
  }

  ghost predicate InsertedInto(s: seq<Item>, s': seq<Item>, x: Item) {
    exists i :: 0 <= i <= |s| && s' == InsertAt(s, i, x)
  }

  /** The pair was put into leaf p, its home; the leaf was not split yet. */
  ghost predicate Placed(levels: seq<seq<Cell>>, levels': seq<seq<Cell>>, p: nat, x: Item) {
    && |levels| > 0 && |levels'| > 0 && p < |levels[0]| && Home(View(levels[0]), x.score) == p
    && View(levels'[0]) == View(levels[0])[p := (Inserted(levels[0][p].items, x), levels[0][p].fence)]
    && InsertedInto(Flat(levels[0]), Flat(levels'[0]), x)
    && OrderIff(levels[0], Home(View(levels[0]), x.score), x, Flat(levels'[0]))
    && (Ordered(true, Tokens(levels[0])) && NoTie(Flat(levels[0]), x.score) ==>
      Ordered(true, Tokens(levels'[0])) && Flat(levels'[0]) == SortedInsert(Flat(levels[0]), x))
  }

  lemma TakeOutDone(levels: seq<seq<Cell>>, snap: Snap, degree: int, p: nat, i: nat, levels': seq<seq<Cell>>,
                    snap': Snap)
    requires |levels| > 0 && p < |levels[0]| && levels[0][p].node in snap && i < |levels[0][p].items|
    requires levels' == LeafLevels(levels, p, RemoveAt(levels[0][p].items, i))
    requires snap' == LeafSnap(snap, levels[0][p].node, RemoveAt(levels[0][p].items, i))
    requires RootOK(levels) && Shape(levels, snap, degree, null)
    ensures RootOK(levels') && Top(levels').node == Top(levels).node && snap'.Keys == snap.Keys
    ensures Short(levels', snap', degree, 0, p) && levels'[0][p].node == levels[0][p].node
    ensures levels'[0][p].items == RemoveAt(levels[0][p].items, i)
    ensures RemovedFrom(Flat(levels[0]), Flat(levels'[0]), levels[0][p].items[i])
    ensures Ordered(true, Tokens(levels[0])) ==> Ordered(true, Tokens(levels'[0]))
  {
    hide Flat, Tokens, Ordered, Core;
    RemoveDone(levels, snap, p, i, levels', snap');
    LeafSizes(levels, levels', (degree - 1) / 2, degree - 1, p, RemoveAt(levels[0][p].items, i));
  }

  lemma AddedIs(levels: seq<seq<Cell>>, mid: seq<seq<Cell>>, levels': seq<seq<Cell>>, p: nat, x: Item, degree: int)
    requires |levels| > 0 && |mid| > 0 && |levels'| > 0 && degree >= 3 && p < |levels[0]|
    requires Placed(levels, mid, p, x)
    requires if |Inserted(levels[0][p].items, x)| > degree - 1
             then View(levels'[0]) == SplitView(View(mid[0]), p, degree / 2)
             else levels' == mid
    requires Kept(mid, levels')
    ensures Added(levels, levels', x, degree)
  {
    hide OrderIff, Tokens, Flat, Ordered;
  }

  /** The tree after the insert: as it must be, but for the leaf that may have to be split. */
  lemma AddDone(levels: seq<seq<Cell>>, snap: Snap, degree: int, p: nat, x: Item, levels': seq<seq<Cell>>, snap': Snap)
    requires |levels| > 0 && p < |levels[0]| && levels[0][p].node in snap && Routes(levels[0], p, x.score)
    requires levels' == LeafLevels(levels, p, Inserted(levels[0][p].items, x))
    requires snap' == LeafSnap(snap, levels[0][p].node, Inserted(levels[0][p].items, x))
    requires RootOK(levels) && Shape(levels, snap, degree, null)
    ensures RootOK(levels') && Top(levels').node == Top(levels).node
    ensures levels'[0][p].node == levels[0][p].node && levels'[0][p].items == Inserted(levels[0][p].items, x)
    ensures Shape(levels', snap', degree, if |levels'[0][p].items| < degree then null else levels'[0][p].node)
    ensures |levels'[0][p].items| <= degree
    ensures AddPosition(levels[0], p, x) <= |Flat(levels[0])|
    ensures Flat(levels'[0]) == InsertAt(Flat(levels[0]), AddPosition(levels[0], p, x), x)
    ensures Ordered(true, Tokens(levels[0])) && NoTie(Flat(levels[0]), x.score) ==>
      Ordered(true, Tokens(levels'[0])) && Flat(levels'[0]) == SortedInsert(Flat(levels[0]), x)
    ensures Home(View(levels[0]), x.score) == p
    ensures View(levels'[0]) == View(levels[0])[p := (Inserted(levels[0][p].items, x), levels[0][p].fence)]
    ensures OrderIff(levels[0], p, x, Flat(levels'[0]))
  {
    hide Tokens, Flat, Ordered, View;
    InsertDone(levels, snap, p, x, levels', snap');
    LeafSizes(levels, levels', (degree - 1) / 2, degree - 1, p, Inserted(levels[0][p].items, x));
    RoutesHome(levels[0], p, x.score);
    AddSortedIff(levels[0], p, x);
    hide OrderIff;
    if Ordered(true, Tokens(levels[0])) && NoTie(Flat(levels[0]), x.score) {
      LeafNoTie(levels[0], p, x.score);
      ContentsInOrder(true, levels'[0]);
      StrictInsert(Flat(levels[0]), AddPosition(levels[0], p, x), x);
    }
  }

  ghost function NodeAt(cells: seq<Cell>, q: nat): BTreeNode? {
    if q < |cells| then cells[q].node else null
  }

  lemma FirstChild(levels: seq<seq<Cell>>, snap: Snap, k: nat)
    requires Core(levels, snap) && 0 < k < |levels| && |levels[k]| > 0
    ensures CellOK(levels[k][0], k, snap) && |levels[k - 1]| > 0
    ensures CellOK(levels[k - 1][0], k - 1, snap) && levels[k][0].kids[0] == levels[k - 1][0].node
  {
    assert LevelOK(levels[k], k, snap) && LevelOK(levels[k - 1], k - 1, snap) && LinkedAt(levels, k);
    assert Links(levels[k - 1])[0] == Down(levels[k][0])[0];
  }

  lemma NothingAbove(levels: seq<seq<Cell>>, snap: Snap, n: nat, max: real)
    requires Core(levels, snap) && n < |Flat(levels[0])| && Flat(levels[0])[n].score > max
    ensures forall i :: n <= i < |Flat(levels[0])| ==> Flat(levels[0])[i].score > max
  {
    ContentsInOrder(false, levels[0]);
  }

  /** How many items the leaves before leaf q hold. */
  ghost function Offset(cells: seq<Cell>, q: nat): nat
    requires q <= |cells|
  {
    if q == 0 then 0 else Offset(cells, q - 1) + |cells[q - 1].items|
  }

  lemma {:induction false} OffsetFlat(cells: seq<Cell>, q: nat)
    requires q <= |cells|
    ensures Offset(cells, q) == |Flat(cells[..q])|
  {
    if q > 0 {
      OffsetFlat(cells, q - 1);
      var l, c := cells[..q - 1], cells[q - 1];
      assert cells[..q] == l + [c];
      FlatConcat(l, [c]);
      FlatOne(c);
    }
  }

  lemma OffsetEnd(cells: seq<Cell>)
    ensures Offset(cells, |cells|) == |Flat(cells)| && Offset(cells, 0) == 0
  {
    OffsetFlat(cells, |cells|);
    assert cells[..|cells|] == cells;
  }

  lemma OffsetItems(cells: seq<Cell>, q: nat)
    requires q < |cells|
    ensures Offset(cells, q + 1) <= |Flat(cells)|
    ensures forall i :: 0 <= i < |cells[q].items| ==> Flat(cells)[Offset(cells, q) + i] == cells[q].items[i]
  {
    OffsetFlat(cells, q);
    var l, c, r := cells[..q], cells[q], cells[q + 1..];
    assert cells == l + [c] + r;
    FlatAround(l, c, r);
  }

  /** Standing at leaf q of the chain: its items follow those of the leaves before, and `next` leads to leaf q + 1. */
  lemma AtLeaf(levels: seq<seq<Cell>>, snap: Snap, q: nat)
    requires Core(levels, snap) && q < |levels[0]|
    ensures CellOK(levels[0][q], 0, snap) && snap[levels[0][q].node].next == NodeAt(levels[0], q + 1)
    ensures Offset(levels[0], q + 1) == Offset(levels[0], q) + |levels[0][q].items| <= |Flat(levels[0])|
    ensures forall i :: 0 <= i < |levels[0][q].items| ==>
      Flat(levels[0])[Offset(levels[0], q) + i] == levels[0][q].items[i]
  {
    assert LevelOK(levels[0], 0, snap) && ChainedAt(levels[0], q, snap);
    OffsetItems(levels[0], q);
  }

  lemma ParentSize(levels: seq<seq<Cell>>, snap: Snap, degree: int, k: nat, p: nat)
    requires k < |levels| && p < |levels[k]| && Shape(levels, snap, degree, levels[k][p].node)
    ensures CellOK(levels[k][p], k, snap)
  {
    assert LevelOK(levels[k], k, snap);
  }

  /** A node has a parent exactly below the top level. */
  lemma ParentIff(levels: seq<seq<Cell>>, snap: Snap, k: nat, p: nat)
    requires Core(levels, snap) && k < |levels| && p < |levels[k]|
    ensures CellOK(levels[k][p], k, snap)
    ensures snap[levels[k][p].node].parent == null <==> k == |levels| - 1
  {
    assert LevelOK(levels[k], k, snap);
    if k + 1 < |levels| {
      var pp, j := ParentCell(levels, snap, k, p);
    }
  }

  // ---- what a valid tree looks like ------------------------------------------------

  /** Node by node: leaves at the bottom level only, bounds on the items, one more child than items, parents. */
  lemma TreeNode(t: BTreeIndex, k: nat, p: nat)
    requires t.Valid() && k < |t.levels| && p < |t.levels[k]|
    ensures var n := t.levels[k][p].node;
            && (n.isLeaf <==> k == 0) && n.items == t.levels[k][p].items
            && (n == t.root <==> k + 1 == |t.levels|) && (n.parent == null <==> n == t.root)
            && |n.items| <= t.degree - 1 && (n != t.root ==> |n.items| >= (t.degree - 1) / 2)
            && (n == t.root && !n.isLeaf ==> |n.items| >= 1)
            && |n.children| == (if n.isLeaf then 0 else |n.items| + 1)
            && forall j :: 0 <= j < |n.children| ==> n.children[j].parent == n
  {
    hide Flat, Tokens, Ordered, Chained, Linked;
    ParentIff(t.levels, t.snap, k, p);
    RootIff(t.levels, t.snap, k, p);
    assert LevelOK(t.levels[k], k, t.snap) && CellOK(t.levels[k][p], k, t.snap);
    assert Mirrors(t.levels[k][p].node, t.snap[t.levels[k][p].node]);
    var n := t.levels[k][p].node;
    forall j | 0 <= j < |n.children| ensures n.children[j].parent == n {
      assert Mirrors(n.children[j], t.snap[n.children[j]]);
    }
  }

  /** Level by level: the children of a level, one node after the other, are the nodes of the level below. */
  lemma TreeLevel(t: BTreeIndex, k: nat, p: nat) returns (q: nat)
    requires t.Valid() && 0 < k < |t.levels| && p < |t.levels[k]|
    ensures var n := t.levels[k][p].node;
            && q + |n.children| <= |t.levels[k - 1]|
            && (forall j :: 0 <= j < |n.children| ==> t.levels[k - 1][q + j].node == n.children[j])
            && (p == 0 ==> q == 0) && (p + 1 == |t.levels[k]| ==> q + |n.children| == |t.levels[k - 1]|)
  {
    hide Flat, Tokens, Ordered, Chained, DownAll;
    var cells, c := t.levels[k], t.levels[k][p];
    assert LevelOK(cells, k, t.snap) && CellOK(c, k, t.snap) && LinkedAt(t.levels, k);
    assert Mirrors(c.node, t.snap[c.node]);
    DownAllAround(cells, p, c);
    EmptyDown(cells, p);
    q := |DownAll(cells[..p])|;
    forall j | 0 <= j < |c.kids| ensures t.levels[k - 1][q + j].node == c.kids[j] {
      assert Links(t.levels[k - 1])[q + j] == Down(c)[j];
    }
  }

  lemma EmptyDown(cells: seq<Cell>, p: nat)
    requires p < |cells|
    ensures p == 0 ==> DownAll(cells[..p]) == []
    ensures p + 1 == |cells| ==> DownAll(cells[p + 1..]) == []
  {
  }

  /** Leaf by leaf: the chain leads from each leaf to the one on its right, and the contents are the items along it. */
  lemma TreeChain(t: BTreeIndex, p: nat)
    requires t.Valid() && p < |t.levels[0]|
    ensures var n := t.levels[0][p].node;
            && n.next == (if p + 1 < |t.levels[0]| then t.levels[0][p + 1].node else null)
            && Offset(t.levels[0], p + 1) == Offset(t.levels[0], p) + |n.items| <= |t.Contents()|
            && forall i :: 0 <= i < |n.items| ==> t.Contents()[Offset(t.levels[0], p) + i] == n.items[i]
  {
    hide Core, Sizes, Flat, Offset;
    AtLeaf(t.levels, t.snap, p);
    assert Mirrors(t.levels[0][p].node, t.snap[t.levels[0][p].node]);
  }

  // ---- ties, in a tree -----------------------------------------------------------

  lemma ViewTwo(cells: seq<Cell>, a: seq<Item>, f: Bound, b: seq<Item>, g: Bound)
    requires View(cells) == [(a, f), (b, g)]
    ensures Flat(cells) == a + b
  {
    assert View(cells)[0] == (cells[0].items, cells[0].fence) && View(cells)[1] == (cells[1].items, cells[1].fence);
    assert cells == [cells[0], cells[1]];
    FlatTwo(cells[0], cells[1]);
  }

  lemma ViewThree(cells: seq<Cell>, a: seq<Item>, f: Bound, b: seq<Item>, g: Bound, c: seq<Item>, h: Bound)
    requires View(cells) == [(a, f), (b, g), (c, h)]
    ensures Flat(cells) == a + b + c
  {
    assert View(cells)[2] == (cells[2].items, cells[2].fence);
    assert View(cells[..2]) == View(cells)[..2] == [(a, f), (b, g)];
    ViewTwo(cells[..2], a, f, b, g);
    assert cells == cells[..2] + [cells[2]];
    FlatConcat(cells[..2], [cells[2]]);
    FlatOne(cells[2]);
  }

  /** One addition, seen on the leaf level alone. */
  method AddSeen(tree: BTreeIndex, score: real, member: string, ghost v: seq<(seq<Item>, Bound)>, ghost p: nat)
    returns (r: int)
    requires tree.Valid() && View(tree.levels[0]) == v && Home(v, score) == p < |v|
    requires member != "" && !Mentions(v[p].0, member)
    modifies tree, tree.snap.Keys
    ensures tree.Valid() && fresh(tree.snap.Keys - old(tree.snap.Keys)) && r == 1
    ensures View(tree.levels[0]) == AddView(v, Item(score, member), tree.degree)
  {
    hide Core, Sizes, Flat, Tokens, AddView, OrderIff, Home;
    assert v[p] == (tree.levels[0][p].items, tree.levels[0][p].fence);
    r := tree.Add(score, member);
  }

  /** Three tied pairs, added to a new tree of degree 3. */
  method TiedTree() returns (tree: BTreeIndex)
    ensures tree.Valid() && fresh(tree) && fresh(tree.snap.Keys) && tree.degree == 3
    ensures View(tree.levels[0]) == [([Item(5.0, "a")], Fin(5.0)), ([Item(5.0, "b"), Item(5.0, "c")], Inf)]
  {
    hide Core, Sizes, Flat, Tokens, AddView, View, Home, Mirrored, Less;
    ghost var a, b, c, o := Item(5.0, "a"), Item(5.0, "b"), Item(5.0, "c"), Item(5.0, "A");
    TiesMislead(a, b, c, o);
    tree := new BTreeIndex(3);
    var r := AddSeen(tree, 5.0, "a", [([], Inf)], 0);
    r := AddSeen(tree, 5.0, "b", [([a], Inf)], 0);
    r := AddSeen(tree, 5.0, "c", [([a, b], Inf)], 0);
  }

  /** A stored pair that cannot be removed, and then an addition that leaves the pairs out of order. */
  method TiesInTree() returns (tree: BTreeIndex, r: int)
    ensures tree.Valid() && r == 0 && Item(5.0, "a") in tree.Contents() && !WeaklySorted(tree.Contents())
  {
    hide Core, Sizes, Flat, Tokens, AddView, View, Home;
    ghost var a, b, c, o := Item(5.0, "a"), Item(5.0, "b"), Item(5.0, "c"), Item(5.0, "A");
    tree := TiedTree();
    TiesMislead(a, b, c, o);
    TiedPairMissed(tree.levels[0], a, b, c);
    r := tree.RemoveByScore(5.0, "a");
    var added := AddSeen(tree, 5.0, "A", [([a], Fin(5.0)), ([b, c], Inf)], 1);
    ViewThree(tree.levels[0], [a], Fin(5.0), [o], Fin(5.0), [b, c], Inf);
    assert tree.Contents()[0] == a && tree.Contents()[1] == o;
  }
}
