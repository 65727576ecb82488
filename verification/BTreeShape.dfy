/** Heap nodes of the B+ tree, and a flat, level-by-level description of a tree.
    A tree is a sequence of levels, leaves first; every level is a sequence of cells in key order.
    A cell mirrors one node and adds its fence: the separator to its right, wherever up the tree it is kept. */
module BTreeShape {
  import opened Items

  class BTreeNode {
    const isLeaf: bool
    ghost const height: nat
    var items: seq<Item>
    var children: seq<BTreeNode>
    var parent: BTreeNode?
    var next: BTreeNode?

    constructor (isLeaf: bool, ghost height: nat, parent: BTreeNode?, next: BTreeNode?,
                 items: seq<Item>, children: seq<BTreeNode>)
      ensures this.isLeaf == isLeaf && this.height == height
      ensures this.parent == parent && this.next == next
      ensures this.items == items && this.children == children
    {
      this.isLeaf, this.height := isLeaf, height;
      this.parent, this.next, this.items, this.children := parent, next, items, children;
    }
  }

  ghost predicate Distinct(s: seq<BTreeNode>) {
    forall i, j :: 0 <= i < j < |s| ==> s[i] != s[j]
  }

  datatype Bound = Fin(score: real) | Inf

  predicate Leq(a: Bound, b: Bound) {
    b.Inf? || (a.Fin? && a.score <= b.score)
  }

  predicate Lt(a: Bound, b: Bound) {
    a.Fin? && (b.Inf? || a.score < b.score)
  }

  datatype Cell = Cell(node: BTreeNode, items: seq<Item>, kids: seq<BTreeNode>, fence: Bound)

  /** A child pointer together with the separator to the child's right. */
  datatype Link = Link(node: BTreeNode, fence: Bound)

  function LinkAt(c: Cell, j: nat): Link
    requires j < |c.kids|
  {
    Link(c.kids[j], if j < |c.items| then Fin(c.items[j].score) else c.fence)
  }

  /** The links a cell hands down to the level below. */
  function Down(c: Cell): (r: seq<Link>)
    ensures |r| == |c.kids|
  {
    seq(|c.kids|, j requires 0 <= j < |c.kids| => LinkAt(c, j))
  }

  function DownAll(cells: seq<Cell>): seq<Link> {
    if cells == [] then [] else Down(cells[0]) + DownAll(cells[1..])
  }

  function Links(cells: seq<Cell>): (r: seq<Link>)
    ensures |r| == |cells|
  {
    seq(|cells|, p requires 0 <= p < |cells| => Link(cells[p].node, cells[p].fence))
  }

  lemma {:induction false} DownAllConcat(a: seq<Cell>, b: seq<Cell>)
    ensures DownAll(a + b) == DownAll(a) + DownAll(b)
  {
    if a == [] {
      assert a + b == b;
    } else {
      assert (a + b)[1..] == a[1..] + b;
      DownAllConcat(a[1..], b);
    }
  }

  lemma DownAllOne(c: Cell)
    ensures DownAll([c]) == Down(c)
  {
    assert [c][1..] == [];
  }

  lemma DownAllTwo(a: Cell, b: Cell)
    ensures DownAll([a, b]) == Down(a) + Down(b)
  {
    assert [a, b] == [a] + [b];
    DownAllConcat([a], [b]);
    DownAllOne(a);
    DownAllOne(b);
  }

  /** `DownAll` of a level, taken apart around the cell at position pp. */
  lemma DownAllAround(cells: seq<Cell>, pp: nat, c: Cell)
    requires pp < |cells|
    ensures DownAll(cells) == DownAll(cells[..pp]) + Down(cells[pp]) + DownAll(cells[pp + 1..])
    ensures DownAll(cells[pp := c]) == DownAll(cells[..pp]) + Down(c) + DownAll(cells[pp + 1..])
  {
    assert cells == cells[..pp] + [cells[pp]] + cells[pp + 1..];
    assert cells[pp := c] == cells[..pp] + [c] + cells[pp + 1..];
    DownAllConcat(cells[..pp] + [cells[pp]], cells[pp + 1..]);
    DownAllConcat(cells[..pp], [cells[pp]]);
    DownAllConcat(cells[..pp] + [c], cells[pp + 1..]);
    DownAllConcat(cells[..pp], [c]);
    DownAllOne(c);
    DownAllOne(cells[pp]);
  }

  // ---- the tree as a whole -------------------------------------------------

  /** Each level is exactly what the level above hands down. */
  ghost predicate Linked(levels: seq<seq<Cell>>) {
    forall k :: 0 < k < |levels| ==> LinkedAt(levels, k)
  }

  ghost predicate LinkedAt(levels: seq<seq<Cell>>, k: nat)
    requires 0 < k < |levels|
  {
    DownAll(levels[k]) == Links(levels[k - 1])
  }

  /** `n` cells of level k from position p on become `cells`; the parent at position pp of level k+1 becomes `d`. */
  function Rewrite(levels: seq<seq<Cell>>, k: nat, p: nat, n: nat, cells: seq<Cell>, pp: nat, d: Cell): seq<seq<Cell>>
    requires k + 1 < |levels| && p + n <= |levels[k]| && pp < |levels[k + 1]|
  {
    levels[k := levels[k][..p] + cells + levels[k][p + n..]][k + 1 := levels[k + 1][pp := d]]
  }

  /** The parent cell d, at (k+1, pp), has children j .. j+n-1 at positions p .. p+n-1 of level k. */
  ghost predicate ParentOf(levels: seq<seq<Cell>>, k: nat, p: nat, n: nat, pp: nat, j: nat) {
    && k + 1 < |levels| && p + n <= |levels[k]| && pp < |levels[k + 1]|
    && |DownAll(levels[k + 1][..pp])| + j == p
    && j + n <= |levels[k + 1][pp].kids|
  }

  lemma LinksSplice(cells: seq<Cell>, p: nat, n: nat, r: seq<Cell>)
    requires p + n <= |cells|
    ensures Links(cells[..p] + r + cells[p + n..]) == Links(cells)[..p] + Links(r) + Links(cells)[p + n..]
  {
  }

  lemma RewriteUpper(levels: seq<seq<Cell>>, k: nat, p: nat, n: nat, cells: seq<Cell>, pp: nat, j: nat, d: Cell)
    requires Linked(levels) && ParentOf(levels, k, p, n, pp, j)
    requires Down(d) == Down(levels[k + 1][pp])[..j] + Links(cells) + Down(levels[k + 1][pp])[j + n..]
    ensures DownAll(levels[k + 1][pp := d]) == Links(levels[k][..p] + cells + levels[k][p + n..])
  {
    hide DownAll, LinkAt;
    var up := levels[k + 1];
    var a, b, c := DownAll(up[..pp]), Down(up[pp]), DownAll(up[pp + 1..]);
    DownAllAround(up, pp, d);
    LinksSplice(levels[k], p, n, cells);
    assert LinkedAt(levels, k + 1);
    assert Links(levels[k])[..p] == a + b[..j];
    assert Links(levels[k])[p + n..] == b[j + n..] + c;
  }

  lemma RewriteLower(levels: seq<seq<Cell>>, k: nat, p: nat, n: nat, cells: seq<Cell>)
    requires k < |levels| && p + n <= |levels[k]|
    requires DownAll(cells) == DownAll(levels[k][p..p + n])
    ensures DownAll(levels[k][..p] + cells + levels[k][p + n..]) == DownAll(levels[k])
  {
    var l := levels[k];
    assert l == l[..p] + l[p..p + n] + l[p + n..];
    DownAllConcat(l[..p] + l[p..p + n], l[p + n..]);
    DownAllConcat(l[..p], l[p..p + n]);
    DownAllConcat(l[..p] + cells, l[p + n..]);
    DownAllConcat(l[..p], cells);
  }

  lemma RewriteLinked(levels: seq<seq<Cell>>, k: nat, p: nat, n: nat, cells: seq<Cell>, pp: nat, j: nat, d: Cell)
    requires Linked(levels) && ParentOf(levels, k, p, n, pp, j)
    requires Down(d) == Down(levels[k + 1][pp])[..j] + Links(cells) + Down(levels[k + 1][pp])[j + n..]
    requires d.node == levels[k + 1][pp].node && d.fence == levels[k + 1][pp].fence
    requires k > 0 ==> DownAll(cells) == DownAll(levels[k][p..p + n])
    ensures Linked(Rewrite(levels, k, p, n, cells, pp, d))
  {
    var levels' := Rewrite(levels, k, p, n, cells, pp, d);
    RewriteUpper(levels, k, p, n, cells, pp, j, d);
    if k > 0 {
      RewriteLower(levels, k, p, n, cells);
    }
    assert Links(levels'[k + 1]) == Links(levels[k + 1]);
    forall i | 0 < i < |levels'|
      ensures LinkedAt(levels', i)
    {
      assert LinkedAt(levels, i);
      if i == k + 1 {
      } else if i == k {
      } else if i == k + 2 {
      } else {
      }
    }
  }

  /** Every node below the root level sits under a parent. */
  lemma {:induction false} Locate(cells: seq<Cell>, p: nat) returns (pp: nat, j: nat)
    requires p < |DownAll(cells)|
    ensures pp < |cells| && j < |cells[pp].kids|
    ensures |DownAll(cells[..pp])| + j == p
    ensures DownAll(cells)[p] == LinkAt(cells[pp], j)
  {
    if p < |cells[0].kids| {
      pp, j := 0, p;
    } else {
      pp, j := Locate(cells[1..], p - |cells[0].kids|);
      assert cells[..pp + 1] == [cells[0]] + cells[1..][..pp];
      DownAllConcat([cells[0]], cells[1..][..pp]);
      DownAllOne(cells[0]);
      pp := pp + 1;
    }
  }

  // ---- the heap behind the cells -------------------------------------------

  /** The mutable fields of one node. */
  datatype Fields = Fields(items: seq<Item>, children: seq<BTreeNode>, parent: BTreeNode?, next: BTreeNode?)

  type Snap = map<BTreeNode, Fields>

  ghost predicate CellOK(c: Cell, k: nat, snap: Snap) {
    && c.node in snap && c.node.height == k && c.node.isLeaf == (k == 0)
    && snap[c.node].items == c.items && snap[c.node].children == c.kids
    && |c.kids| == (if k == 0 then 0 else |c.items| + 1)
    && forall j :: 0 <= j < |c.kids| ==> c.kids[j] in snap && snap[c.kids[j]].parent == c.node
  }

  ghost predicate LevelOK(cells: seq<Cell>, k: nat, snap: Snap) {
    && (forall p :: 0 <= p < |cells| ==> CellOK(cells[p], k, snap))
    && (forall p, q :: 0 <= p < q < |cells| ==> cells[p].node != cells[q].node)
  }

  ghost predicate CellsOK(levels: seq<seq<Cell>>, snap: Snap) {
    forall k :: 0 <= k < |levels| ==> LevelOK(levels[k], k, snap)
  }

  /** Only `touched` nodes change their items and children, and only their children change parent. */
  ghost predicate Frame(snap: Snap, snap': Snap, touched: set<BTreeNode>) {
    && snap.Keys <= snap'.Keys
    && forall n :: n in snap ==>
      && (n !in touched ==> snap'[n].items == snap[n].items && snap'[n].children == snap[n].children)
      && (snap[n].parent != null && snap[n].parent !in touched ==> snap'[n].parent == snap[n].parent)
  }

  ghost function NodesOf(cells: seq<Cell>): set<BTreeNode> {
    set p | 0 <= p < |cells| :: cells[p].node
  }

  lemma CellFrame(c: Cell, k: nat, snap: Snap, snap': Snap, touched: set<BTreeNode>)
    requires CellOK(c, k, snap) && Frame(snap, snap', touched) && c.node !in touched
    ensures CellOK(c, k, snap')
  {
    forall j | 0 <= j < |c.kids|
      ensures c.kids[j] in snap' && snap'[c.kids[j]].parent == c.node
    {
      assert c.kids[j] in snap && snap[c.kids[j]].parent == c.node;
    }
  }

  lemma LevelFrame(cells: seq<Cell>, k: nat, snap: Snap, snap': Snap, touched: set<BTreeNode>)
    requires LevelOK(cells, k, snap) && Frame(snap, snap', touched)
    requires forall n :: n in touched ==> n.height != k
    ensures LevelOK(cells, k, snap')
  {
    forall p | 0 <= p < |cells|
      ensures CellOK(cells[p], k, snap')
    {
      CellFrame(cells[p], k, snap, snap', touched);
    }
  }

  /** A stretch of one level is replaced: nodes of the stretch may be reused, others must be new. */
  lemma LevelSplice(cells: seq<Cell>, k: nat, p: nat, n: nat, r: seq<Cell>, snap: Snap, snap': Snap,
                    touched: set<BTreeNode>)
    requires LevelOK(cells, k, snap) && Frame(snap, snap', touched) && LevelOK(r, k, snap')
    requires p + n <= |cells|
    requires forall t :: t in touched && t.height == k ==> t in NodesOf(cells[p..p + n])
    requires forall i :: 0 <= i < |r| ==> r[i].node !in snap || r[i].node in NodesOf(cells[p..p + n])
    ensures LevelOK(cells[..p] + r + cells[p + n..], k, snap')
  {
    var s := cells[..p] + r + cells[p + n..];
    forall i | 0 <= i < |cells| && (i < p || i >= p + n)
      ensures CellOK(cells[i], k, snap')
      ensures forall q :: 0 <= q < |r| ==> r[q].node != cells[i].node
    {
      assert cells[i].node !in NodesOf(cells[p..p + n]);
      assert CellOK(cells[i], k, snap);
      CellFrame(cells[i], k, snap, snap', touched);
    }
    forall i | 0 <= i < |s|
      ensures CellOK(s[i], k, snap')
    {
      if p <= i < p + |r| {
        assert s[i] == r[i - p];
      } else if i >= p + |r| {
        assert s[i] == cells[i - |r| + n];
      }
    }
    forall i, i' | 0 <= i < i' < |s|
      ensures s[i].node != s[i'].node
    {
      var a := if i < p then i else i - |r| + n;
      var b := if i' < p then i' else i' - |r| + n;
      if p <= i < p + |r| {
        assert s[i] == r[i - p];
      } else {
        assert s[i] == cells[a];
      }
      if p <= i' < p + |r| {
        assert s[i'] == r[i' - p];
      } else {
        assert s[i'] == cells[b];
      }
    }
  }

  lemma RewriteCells(levels: seq<seq<Cell>>, k: nat, p: nat, n: nat, cells: seq<Cell>, pp: nat, d: Cell, snap: Snap,
                     snap': Snap)
    requires k + 1 < |levels| && p + n <= |levels[k]| && pp < |levels[k + 1]|
    requires CellsOK(levels, snap)
    requires Frame(snap, snap', NodesOf(levels[k][p..p + n]) + {levels[k + 1][pp].node})
    requires LevelOK(cells, k, snap') && CellOK(d, k + 1, snap') && d.node == levels[k + 1][pp].node
    requires forall i :: 0 <= i < |cells| ==> cells[i].node !in snap || cells[i].node in NodesOf(levels[k][p..p + n])
    ensures CellsOK(Rewrite(levels, k, p, n, cells, pp, d), snap')
  {
    var levels' := Rewrite(levels, k, p, n, cells, pp, d);
    var low := NodesOf(levels[k][p..p + n]);
    var touched := low + {d.node};
    assert LevelOK(levels[k], k, snap) && LevelOK(levels[k + 1], k + 1, snap);
    forall t | t in low ensures t.height == k {
      var i :| 0 <= i < n && levels[k][p..p + n][i].node == t;
      assert CellOK(levels[k][p + i], k, snap);
    }
    assert CellOK(levels[k + 1][pp], k + 1, snap);
    forall i | 0 <= i < |levels'|
      ensures LevelOK(levels'[i], i, snap')
    {
      assert LevelOK(levels[i], i, snap);
      if i == k {
        LevelSplice(levels[k], k, p, n, cells, snap, snap', touched);
      } else if i == k + 1 {
        var up := levels[k + 1];
        assert up[pp..pp + 1] == [up[pp]];
        assert NodesOf(up[pp..pp + 1]) == {d.node} by {
          assert up[pp..pp + 1][0].node in NodesOf(up[pp..pp + 1]);
        }
        LevelSplice(up, k + 1, pp, 1, [d], snap, snap', touched);
        assert up[pp := d] == up[..pp] + [d] + up[pp + 1..];
      } else {
        LevelFrame(levels[i], i, snap, snap', touched);
      }
    }
  }

  // ---- the leaf chain --------------------------------------------------------

  ghost function Successor(cells: seq<Cell>, p: nat): BTreeNode? {
    if p + 1 < |cells| then cells[p + 1].node else null
  }

  ghost predicate Chained(cells: seq<Cell>, snap: Snap) {
    forall p :: 0 <= p < |cells| ==> ChainedAt(cells, p, snap)
  }

  ghost predicate ChainedAt(cells: seq<Cell>, p: nat, snap: Snap)
    requires p < |cells|
  {
    cells[p].node in snap && snap[cells[p].node].next == Successor(cells, p)
  }

  /** Where the chain changes: the replaced stretch keeps its first node and leads on to where it led before. */
  ghost predicate ChainStep(cells: seq<Cell>, p: nat, n: nat, r: seq<Cell>, snap: Snap, snap': Snap)
    requires p + n <= |cells| && n > 0 && 1 <= |r| <= 2
  {
    && snap.Keys <= snap'.Keys
    && (forall i :: 0 <= i < |cells| ==> cells[i].node in snap)
    && (forall i :: 0 <= i < |r| ==> r[i].node in snap')
    && r[0].node == cells[p].node
    && (forall i :: 0 <= i < |cells| && !(p <= i < p + n) ==> snap'[cells[i].node].next == snap[cells[i].node].next)
    && (|r| == 2 ==> snap'[r[0].node].next == r[1].node)
    && snap'[r[|r| - 1].node].next == snap[cells[p + n - 1].node].next
  }

  lemma ChainSplice(cells: seq<Cell>, p: nat, n: nat, r: seq<Cell>, snap: Snap, snap': Snap)
    requires Chained(cells, snap) && p + n <= |cells| && n > 0 && 1 <= |r| <= 2
    requires ChainStep(cells, p, n, r, snap, snap')
    ensures Chained(cells[..p] + r + cells[p + n..], snap')
  {
    var s := cells[..p] + r + cells[p + n..];
    forall i | 0 <= i < |s|
      ensures ChainedAt(s, i, snap')
    {
      if i < p {
        assert ChainedAt(cells, i, snap);
        assert s[i] == cells[i];
        assert s[i + 1] == if i + 1 < p then cells[i + 1] else r[0];
      } else if i < p + |r| - 1 {
        assert s[i] == r[0] && s[i + 1] == r[1];
      } else if i == p + |r| - 1 {
        assert s[i] == r[|r| - 1] && ChainedAt(cells, p + n - 1, snap);
        assert i + 1 < |s| ==> s[i + 1] == cells[p + n];
      } else {
        var i' := i - |r| + n;
        assert s[i] == cells[i'] && ChainedAt(cells, i', snap);
        assert i + 1 < |s| ==> s[i + 1] == cells[i' + 1];
      }
    }
  }

  // ---- order -----------------------------------------------------------------

  /** An item or a fence, as met when reading the leaf level from left to right. */
  datatype Token = Token(bound: Bound, isItem: bool)

  /** Order of a token a and a later token b; `strict` asks that no two items tie and no item ties its fence. */
  predicate Before(strict: bool, a: Token, b: Token) {
    if strict && a.isItem then Lt(a.bound, b.bound) else Leq(a.bound, b.bound)
  }

  ghost predicate Ordered(strict: bool, ts: seq<Token>) {
    forall i, j :: 0 <= i < j < |ts| ==> Before(strict, ts[i], ts[j])
  }

  function ItemTokens(items: seq<Item>): (r: seq<Token>)
    ensures |r| == |items|
  {
    seq(|items|, i requires 0 <= i < |items| => Token(Fin(items[i].score), true))
  }

  function LeafTokens(c: Cell): seq<Token> {
    ItemTokens(c.items) + [Token(c.fence, false)]
  }

  function Tokens(cells: seq<Cell>): seq<Token> {
    if cells == [] then [] else LeafTokens(cells[0]) + Tokens(cells[1..])
  }

  /** All items below, in leaf order. */
  function Flat(cells: seq<Cell>): seq<Item> {
    if cells == [] then [] else cells[0].items + Flat(cells[1..])
  }

  lemma {:induction false} FlatConcat(a: seq<Cell>, b: seq<Cell>)
    ensures Flat(a + b) == Flat(a) + Flat(b)
    ensures Tokens(a + b) == Tokens(a) + Tokens(b)
  {
    if a == [] {
      assert a + b == b;
    } else {
      assert (a + b)[1..] == a[1..] + b;
      FlatConcat(a[1..], b);
    }
  }

  lemma FlatOne(c: Cell)
    ensures Flat([c]) == c.items && Tokens([c]) == LeafTokens(c)
  {
    assert [c][1..] == [];
  }

  lemma FlatTwo(a: Cell, b: Cell)
    ensures Flat([a, b]) == a.items + b.items && Tokens([a, b]) == LeafTokens(a) + LeafTokens(b)
  {
    assert [a, b] == [a] + [b];
    FlatConcat([a], [b]);
    FlatOne(a);
    FlatOne(b);
  }

  lemma FlatSplice(cells: seq<Cell>, p: nat, n: nat, r: seq<Cell>)
    requires p + n <= |cells|
    ensures Flat(cells) == Flat(cells[..p]) + Flat(cells[p..p + n]) + Flat(cells[p + n..])
    ensures Flat(cells[..p] + r + cells[p + n..]) == Flat(cells[..p]) + Flat(r) + Flat(cells[p + n..])
    ensures Tokens(cells) == Tokens(cells[..p]) + Tokens(cells[p..p + n]) + Tokens(cells[p + n..])
    ensures Tokens(cells[..p] + r + cells[p + n..]) == Tokens(cells[..p]) + Tokens(r) + Tokens(cells[p + n..])
  {
    assert cells == cells[..p] + cells[p..p + n] + cells[p + n..];
    FlatConcat(cells[..p] + cells[p..p + n], cells[p + n..]);
    FlatConcat(cells[..p], cells[p..p + n]);
    FlatConcat(cells[..p] + r, cells[p + n..]);
    FlatConcat(cells[..p], r);
  }

  ghost predicate AllBefore(strict: bool, a: seq<Token>, b: seq<Token>) {
    forall i, j :: 0 <= i < |a| && 0 <= j < |b| ==> Before(strict, a[i], b[j])
  }

  lemma OrderedConcat(strict: bool, a: seq<Token>, b: seq<Token>)
    ensures Ordered(strict, a + b) <==> Ordered(strict, a) && Ordered(strict, b) && AllBefore(strict, a, b)
  {
    var s := a + b;
    if Ordered(strict, s) {
      forall i, j | 0 <= i < j < |b| ensures Before(strict, b[i], b[j]) {
        assert s[|a| + i] == b[i] && s[|a| + j] == b[j];
      }
      forall i, j | 0 <= i < |a| && 0 <= j < |b| ensures Before(strict, a[i], b[j]) {
        assert s[i] == a[i] && s[|a| + j] == b[j];
      }
      forall i, j | 0 <= i < j < |a| ensures Before(strict, a[i], a[j]) {
        assert s[i] == a[i] && s[j] == a[j];
      }
    }
  }

  /** A fence may be set just before an item, at that item's score. */
  lemma AddFence(strict: bool, u: seq<Token>, v: seq<Token>)
    requires Ordered(strict, u + v) && |v| > 0 && v[0].isItem
    ensures Ordered(strict, u + [Token(v[0].bound, false)] + v)
  {
    var f := [Token(v[0].bound, false)];
    OrderedConcat(strict, u, v);
    assert AllBefore(strict, u, f);
    OrderedConcat(strict, u, f);
    assert AllBefore(strict, u + f, v) by {
      forall i, j | 0 <= i < |u + f| && 0 <= j < |v| ensures Before(strict, (u + f)[i], v[j]) {
        if i == |u| && j > 0 {
          assert Before(strict, v[0], v[j]);
        }
      }
    }
    OrderedConcat(strict, u + f, v);
  }

  lemma DropToken(strict: bool, u: seq<Token>, t: Token, v: seq<Token>)
    requires Ordered(strict, u + [t] + v)
    ensures Ordered(strict, u + v)
  {
    OrderedConcat(strict, u + [t], v);
    OrderedConcat(strict, u, [t]);
    assert AllBefore(strict, u, v) by {
      forall i, j | 0 <= i < |u| && 0 <= j < |v| ensures Before(strict, u[i], v[j]) {
        assert (u + [t])[i] == u[i];
      }
    }
    OrderedConcat(strict, u, v);
  }

  lemma ItemTokensConcat(a: seq<Item>, b: seq<Item>)
    ensures ItemTokens(a + b) == ItemTokens(a) + ItemTokens(b)
  {
  }

  // ---- the invariant -----------------------------------------------------------

  /** Everything that holds of a tree at all times, sizes apart. */
  ghost predicate Core(levels: seq<seq<Cell>>, snap: Snap) {
    && |levels| > 0 && |levels[|levels| - 1]| == 1 && levels[|levels| - 1][0].fence == Inf
    && CellsOK(levels, snap)
    && levels[|levels| - 1][0].node in snap && snap[levels[|levels| - 1][0].node].parent == null
    && Linked(levels)
    && Chained(levels[0], snap)
    && Ordered(false, Tokens(levels[0]))
  }

  ghost function Top(levels: seq<seq<Cell>>): Cell
    requires |levels| > 0 && |levels[|levels| - 1]| == 1
  {
    levels[|levels| - 1][0]
  }

  /** What a rebalancing step does to the heap: the replaced cells, the parent and their children, nothing else. */
  ghost predicate HeapStep(levels: seq<seq<Cell>>, k: nat, p: nat, n: nat, r: seq<Cell>, pp: nat, d: Cell, snap: Snap,
                           snap': Snap)
    requires k + 1 < |levels| && p + n <= |levels[k]| && pp < |levels[k + 1]|
  {
    && Frame(snap, snap', NodesOf(levels[k][p..p + n]) + {levels[k + 1][pp].node})
    && (forall x :: x in snap && snap[x].parent == null ==> snap'[x].parent == null)
    && LevelOK(r, k, snap') && CellOK(d, k + 1, snap')
    && d.node == levels[k + 1][pp].node && d.fence == levels[k + 1][pp].fence
    && forall i :: 0 <= i < |r| ==> r[i].node !in snap || r[i].node in NodesOf(levels[k][p..p + n])
  }

  /** What the leaves see of a step: the same chain of the same items, and no new disorder. */
  ghost predicate LeafStep(levels: seq<seq<Cell>>, levels': seq<seq<Cell>>, snap': Snap)
    requires |levels| > 0 && |levels'| > 0
  {
    && Chained(levels'[0], snap')
    && Flat(levels'[0]) == Flat(levels[0])
    && forall strict :: Ordered(strict, Tokens(levels[0])) ==> Ordered(strict, Tokens(levels'[0]))
  }

  lemma LeavesUntouched(levels: seq<seq<Cell>>, levels': seq<seq<Cell>>, snap: Snap, snap': Snap)
    requires |levels| > 0 && |levels'| > 0 && levels'[0] == levels[0]
    requires Chained(levels[0], snap) && snap.Keys <= snap'.Keys
    requires forall x :: x in snap ==> snap'[x].next == snap[x].next
    ensures LeafStep(levels, levels', snap')
  {
    forall i | 0 <= i < |levels[0]| ensures ChainedAt(levels[0], i, snap') {
      assert ChainedAt(levels[0], i, snap);
    }
  }

  lemma StepTop(levels: seq<seq<Cell>>, k: nat, p: nat, n: nat, r: seq<Cell>, pp: nat, d: Cell)
    requires |levels| > 0 && |levels[|levels| - 1]| == 1
    requires k + 1 < |levels| && p + n <= |levels[k]| && pp < |levels[k + 1]|
    requires d.node == levels[k + 1][pp].node && d.fence == levels[k + 1][pp].fence
    ensures |Rewrite(levels, k, p, n, r, pp, d)| == |levels| && |Rewrite(levels, k, p, n, r, pp, d)[|levels| - 1]| == 1
    ensures Top(Rewrite(levels, k, p, n, r, pp, d)).node == Top(levels).node
    ensures Top(Rewrite(levels, k, p, n, r, pp, d)).fence == Top(levels).fence
  {
  }

  /** A rebalancing step below a parent keeps the invariant. */
  lemma StepCore(levels: seq<seq<Cell>>, levels': seq<seq<Cell>>, k: nat, p: nat, n: nat, r: seq<Cell>, pp: nat, j: nat,
                 d: Cell,
                 snap: Snap, snap': Snap)
    requires Core(levels, snap) && ParentOf(levels, k, p, n, pp, j)
    requires levels' == Rewrite(levels, k, p, n, r, pp, d)
    requires HeapStep(levels, k, p, n, r, pp, d, snap, snap')
    requires Down(d) == Down(levels[k + 1][pp])[..j] + Links(r) + Down(levels[k + 1][pp])[j + n..]
    requires k > 0 ==> DownAll(r) == DownAll(levels[k][p..p + n])
    requires LeafStep(levels, levels', snap')
    ensures Core(levels', snap')
    ensures Top(levels').node == Top(levels).node
  {
    hide Linked, CellsOK;
    StepTop(levels, k, p, n, r, pp, d);
    hide Tokens, Flat, Ordered, Chained;
    assert CellsOK(levels', snap') by {
      RewriteCells(levels, k, p, n, r, pp, d, snap, snap');
    }
    assert Linked(levels') by {
      RewriteLinked(levels, k, p, n, r, pp, j, d);
    }
  }
}
