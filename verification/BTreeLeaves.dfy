/** Routing by score to a leaf, and what inserting or removing an item there does to the whole tree. */
module BTreeLeaves {
  import opened Items
  import opened SortedSeqs
  import opened BTreeShape
  import opened BTreeSteps

  // ---- routing -----------------------------------------------------------------

  /** The score belongs between the fences left and right of position p. */
  ghost predicate Routes(cells: seq<Cell>, p: nat, score: real) {
    && p < |cells|
    && Lt(Fin(score), cells[p].fence)
    && (p > 0 ==> Leq(cells[p - 1].fence, Fin(score)))
  }

  lemma LastDown(cells: seq<Cell>, p: nat)
    requires 0 < p <= |cells| && |cells[p - 1].kids| == |cells[p - 1].items| + 1
    ensures |DownAll(cells[..p])| > 0 && DownAll(cells[..p])[|DownAll(cells[..p])| - 1].fence == cells[p - 1].fence
  {
    assert cells[..p] == cells[..p - 1] + [cells[p - 1]];
    DownAllConcat(cells[..p - 1], [cells[p - 1]]);
    DownAllOne(cells[p - 1]);
  }

  /** One step of the descent: child i of the cell at (k, p) is where the score belongs on the level below. */
  lemma RouteDown(levels: seq<seq<Cell>>, snap: Snap, k: nat, p: nat, i: nat, score: real) returns (p': nat)
    requires Linked(levels) && CellsOK(levels, snap) && 0 < k < |levels| && Routes(levels[k], p, score)
    requires i <= |levels[k][p].items| && (i < |levels[k][p].items| ==> score < levels[k][p].items[i].score)
    requires i > 0 ==> levels[k][p].items[i - 1].score <= score
    ensures Routes(levels[k - 1], p', score)
    ensures i < |levels[k][p].kids| && levels[k - 1][p'].node == levels[k][p].kids[i]
  {
    var cells, c := levels[k], levels[k][p];
    assert LevelOK(cells, k, snap) && CellOK(c, k, snap) && LinkedAt(levels, k);
    assert p > 0 ==> CellOK(cells[p - 1], k, snap);
    assert |c.kids| == |c.items| + 1 && (p > 0 ==> |cells[p - 1].kids| == |cells[p - 1].items| + 1);
    hide CellsOK, Linked, DownAll, Down, LinkAt, CellOK, LevelOK;
    DownAllAround(cells, p, c);
    if p > 0 {
      LastDown(cells, p);
    }
    p' := |DownAll(cells[..p])| + i;
    RouteLinks(Links(levels[k - 1]), DownAll(cells[..p]), c, DownAll(cells[p + 1..]), i, score);
    assert Links(levels[k - 1])[p'] == Link(levels[k - 1][p'].node, levels[k - 1][p'].fence);
  }

  /** The link the score leads to, among the links of the cell and those before and after them. */
  lemma RouteLinks(links: seq<Link>, a: seq<Link>, c: Cell, b: seq<Link>, i: nat, score: real)
    requires links == a + Down(c) + b && |c.kids| == |c.items| + 1 && i <= |c.items|
    requires Lt(Fin(score), c.fence) && (i < |c.items| ==> score < c.items[i].score)
    requires i > 0 ==> c.items[i - 1].score <= score
    requires a != [] ==> Leq(a[|a| - 1].fence, Fin(score))
    ensures |a| + i < |links| && links[|a| + i].node == c.kids[i] && Lt(Fin(score), links[|a| + i].fence)
    ensures |a| + i > 0 ==> Leq(links[|a| + i - 1].fence, Fin(score))
  {
    assert links[|a| + i] == Down(c)[i] == LinkAt(c, i);
    if i > 0 {
      assert links[|a| + i - 1] == Down(c)[i - 1];
    } else if a != [] {
      assert links[|a| - 1] == a[|a| - 1];
    }
  }

  // ---- changing the items of one leaf ----------------------------------------------

  ghost function LeafLevels(levels: seq<seq<Cell>>, p: nat, items: seq<Item>): seq<seq<Cell>>
    requires |levels| > 0 && p < |levels[0]|
  {
    levels[0 := levels[0][p := levels[0][p].(items := items)]]
  }

  ghost function LeafSnap(snap: Snap, node: BTreeNode, items: seq<Item>): Snap
    requires node in snap
  {
    snap[node := snap[node].(items := items)]
  }

  lemma LeafUpdate(levels: seq<seq<Cell>>, snap: Snap, p: nat, items: seq<Item>, levels': seq<seq<Cell>>, snap': Snap)
    requires |levels| > 0 && p < |levels[0]| && levels[0][p].node in snap
    requires levels' == LeafLevels(levels, p, items) && snap' == LeafSnap(snap, levels[0][p].node, items)
    requires Ordered(false, Tokens(levels'[0]))
    requires Core(levels, snap)
    ensures Core(levels', snap') && Top(levels').node == Top(levels).node
  {
    var c := levels[0][p];
    assert LevelOK(levels[0], 0, snap) && CellOK(c, 0, snap);
    assert Frame(snap, snap', {c.node});
    forall k | 0 <= k < |levels'|
      ensures LevelOK(levels'[k], k, snap')
    {
      assert LevelOK(levels[k], k, snap);
      if k == 0 {
        LeafCells(levels[0], p, items, snap, snap');
      } else {
        LevelFrame(levels[k], k, snap, snap', {c.node});
      }
    }
    assert Links(levels'[0]) == Links(levels[0]);
    forall k | 0 < k < |levels'|
      ensures LinkedAt(levels', k)
    {
      assert LinkedAt(levels, k);
    }
    forall i | 0 <= i < |levels'[0]|
      ensures ChainedAt(levels'[0], i, snap')
    {
      assert ChainedAt(levels[0], i, snap);
    }
  }

  lemma LeafCells(cells: seq<Cell>, p: nat, items: seq<Item>, snap: Snap, snap': Snap)
    requires LevelOK(cells, 0, snap) && p < |cells| && cells[p].node in snap
    requires snap' == LeafSnap(snap, cells[p].node, items)
    ensures LevelOK(cells[p := cells[p].(items := items)], 0, snap')
  {
    var cells' := cells[p := cells[p].(items := items)];
    forall i | 0 <= i < |cells'|
      ensures CellOK(cells'[i], 0, snap')
    {
      assert CellOK(cells[i], 0, snap);
    }
  }

  lemma Regroup<T>(u: seq<T>, a: seq<T>, b: seq<T>, f: seq<T>, v: seq<T>)
    ensures u + ((a + b) + f) + v == (u + a) + (b + f + v)
    ensures u + (a + b) + v == (u + a) + (b + v)
  {
  }

  lemma FlatAround(l: seq<Cell>, c: Cell, r: seq<Cell>)
    ensures Tokens(l + [c] + r) == Tokens(l) + LeafTokens(c) + Tokens(r)
    ensures Flat(l + [c] + r) == Flat(l) + c.items + Flat(r)
  {
    FlatConcat(l + [c], r);
    FlatConcat(l, [c]);
    FlatOne(c);
  }

  /** The tokens and items of a level, read around a leaf whose items are a + b. */
  lemma ReadAround(l: seq<Cell>, c: Cell, r: seq<Cell>, a: seq<Item>, b: seq<Item>)
    requires c.items == a + b
    ensures Tokens(l + [c] + r) == (Tokens(l) + ItemTokens(a)) + (ItemTokens(b) + [Token(c.fence, false)] + Tokens(r))
    ensures Flat(l + [c] + r) == (Flat(l) + a) + (b + Flat(r))
  {
    FlatAround(l, c, r);
    ItemTokensConcat(a, b);
    Regroup(Tokens(l), ItemTokens(a), ItemTokens(b), [Token(c.fence, false)], Tokens(r));
    Regroup(Flat(l), a, b, [], Flat(r));
  }

  lemma OrderedInsert(strict: bool, x: seq<Token>, t: Token, y: seq<Token>)
    requires Ordered(strict, x + y) && AllBefore(strict, x, [t]) && AllBefore(strict, [t], y)
    ensures Ordered(strict, x + [t] + y)
  {
    OrderedConcat(strict, x, y);
    OrderedConcat(strict, x, [t]);
    assert AllBefore(strict, x + [t], y) by {
      forall i, j | 0 <= i < |x + [t]| && 0 <= j < |y| ensures Before(strict, (x + [t])[i], y[j]) {
        if i == |x| {
          assert (x + [t])[i] == [t][0];
        }
      }
    }
    OrderedConcat(strict, x + [t], y);
  }

  // ---- inserting ----------------------------------------------------------------------

  /** Where Add puts an item among the items of its leaf: before the first one not smaller. */
  function LocalPosition(items: seq<Item>, x: Item): (i: nat)
    ensures i <= |items|
    ensures forall q :: 0 <= q < i ==> CompareTo(x, items[q]) > 0
    ensures i < |items| ==> CompareTo(x, items[i]) <= 0
  {
    if items != [] && CompareTo(x, items[0]) > 0 then 1 + LocalPosition(items[1..], x) else 0
  }

  function Inserted(items: seq<Item>, x: Item): seq<Item> {
    items[..LocalPosition(items, x)] + [x] + items[LocalPosition(items, x)..]
  }

  /** No item of the leaf has the score. */
  predicate NoTie(items: seq<Item>, score: real) {
    forall i :: 0 <= i < |items| ==> items[i].score != score
  }

  /** The tokens on both sides of the new item, in their order with it. */
  lemma InsertSides(strict: bool, u: seq<Token>, a: seq<Item>, b: seq<Item>, f: Token, v: seq<Token>, x: Item)
    requires Ordered(strict, (u + ItemTokens(a)) + (ItemTokens(b) + [f] + v))
    requires !f.isItem && Lt(Fin(x.score), f.bound)
    requires u != [] ==> !u[|u| - 1].isItem && Leq(u[|u| - 1].bound, Fin(x.score))
    requires forall q :: 0 <= q < |a| ==> CompareTo(x, a[q]) > 0
    requires b != [] ==> CompareTo(x, b[0]) <= 0
    requires strict ==> NoTie(a, x.score) && NoTie(b, x.score)
    ensures AllBefore(strict, u + ItemTokens(a), [Token(Fin(x.score), true)])
    ensures AllBefore(strict, [Token(Fin(x.score), true)], ItemTokens(b) + [f] + v)
  {
    var l, r, t := u + ItemTokens(a), ItemTokens(b) + [f] + v, Token(Fin(x.score), true);
    OrderedConcat(strict, l, r);
    OrderedConcat(strict, u, ItemTokens(a));
    forall i | 0 <= i < |l| ensures Before(strict, l[i], t) {
      if i < |u| - 1 {
        assert l[i] == u[i] && Before(strict, u[i], u[|u| - 1]);
      } else if i < |u| {
        assert l[i] == u[i];
      } else {
        assert l[i] == ItemTokens(a)[i - |u|];
      }
    }
    forall i | 0 <= i < |r| ensures Before(strict, t, r[i]) {
      if i < |b| {
        assert r[i] == ItemTokens(b)[i];
        assert i > 0 ==> Before(strict, r[0], r[i]);
      } else if i == |b| {
        assert r[i] == f;
      } else {
        assert r[|b|] == f && Before(strict, r[|b|], r[i]);
      }
    }
  }

  lemma LastToken(l: seq<Cell>)
    requires l != []
    ensures Tokens(l) != [] && Tokens(l)[|Tokens(l)| - 1] == Token(l[|l| - 1].fence, false)
  {
    var a, c := l[..|l| - 1], l[|l| - 1];
    assert l == a + [c];
    FlatConcat(a, [c]);
    FlatOne(c);
  }

  /** Adding an item to the leaf its score routes to keeps the leaf level in order. */
  lemma InsertOrder(strict: bool, l: seq<Cell>, c: Cell, r: seq<Cell>, x: Item)
    requires Ordered(strict, Tokens(l + [c] + r)) && Routes(l + [c] + r, |l|, x.score)
    requires strict ==> NoTie(c.items, x.score)
    ensures Ordered(strict, Tokens(l + [c.(items := Inserted(c.items, x))] + r))
  {
    var i := LocalPosition(c.items, x);
    var a, b, c' := c.items[..i], c.items[i..], c.(items := Inserted(c.items, x));
    assert c.items == a + b && c'.items == a + ([x] + b);
    ReadAround(l, c, r, a, b);
    ReadAround(l, c', r, a, [x] + b);
    if l != [] {
      LastToken(l);
      assert (l + [c] + r)[|l| - 1] == l[|l| - 1];
    }
    assert (l + [c] + r)[|l|] == c;
    InsertTokens(strict, Tokens(l), a, b, Token(c.fence, false), Tokens(r), x);
  }

  lemma InsertTokens(strict: bool, u: seq<Token>, a: seq<Item>, b: seq<Item>, f: Token, v: seq<Token>, x: Item)
    requires Ordered(strict, (u + ItemTokens(a)) + (ItemTokens(b) + [f] + v))
    requires !f.isItem && Lt(Fin(x.score), f.bound)
    requires u != [] ==> !u[|u| - 1].isItem && Leq(u[|u| - 1].bound, Fin(x.score))
    requires forall q :: 0 <= q < |a| ==> CompareTo(x, a[q]) > 0
    requires b != [] ==> CompareTo(x, b[0]) <= 0
    requires strict ==> NoTie(a, x.score) && NoTie(b, x.score)
    ensures Ordered(strict, (u + ItemTokens(a)) + (ItemTokens([x] + b) + [f] + v))
  {
    var y, z, t := u + ItemTokens(a), ItemTokens(b) + [f] + v, Token(Fin(x.score), true);
    InsertSides(strict, u, a, b, f, v, x);
    OrderedInsert(strict, y, t, z);
    ItemTokensConcat([x], b);
    assert ItemTokens([x]) == [t];
    assert y + [t] + z == y + (ItemTokens([x] + b) + [f] + v);
  }

  /** Removing an item keeps the leaf level in order, ties or not. */
  lemma RemoveOrder(strict: bool, l: seq<Cell>, c: Cell, r: seq<Cell>, i: nat)
    requires i < |c.items| && Ordered(strict, Tokens(l + [c] + r))
    ensures Ordered(strict, Tokens(l + [c.(items := RemoveAt(c.items, i))] + r))
  {
    hide Tokens, Flat, Ordered;
    var a, b, x, c' := c.items[..i], c.items[i + 1..], c.items[i], c.(items := RemoveAt(c.items, i));
    assert c.items == a + ([x] + b);
    ReadAround(l, c, r, a, [x] + b);
    ReadAround(l, c', r, a, b);
    ItemTokensConcat([x], b);
    var t := Token(Fin(x.score), true);
    assert ItemTokens([x]) == [t];
    DropItem(strict, Tokens(l) + ItemTokens(a), t, ItemTokens(b), [Token(c.fence, false)], Tokens(r));
  }

  lemma DropItem(strict: bool, y: seq<Token>, t: Token, b: seq<Token>, f: seq<Token>, v: seq<Token>)
    requires Ordered(strict, y + (([t] + b) + f + v))
    ensures Ordered(strict, y + (b + f + v))
  {
    assert y + (([t] + b) + f + v) == y + [t] + (b + f + v);
    DropToken(strict, y, t, b + f + v);
  }

  lemma InsertMiddle(y: seq<Item>, x: Item, b: seq<Item>, v: seq<Item>)
    ensures InsertAt(y + (b + v), |y|, x) == y + (([x] + b) + v)
    ensures RemoveAt(y + (([x] + b) + v), |y|) == y + (b + v) && (y + (([x] + b) + v))[|y|] == x
  {
    assert (y + (b + v))[..|y|] == y && (y + (b + v))[|y|..] == b + v;
  }

  lemma InsertContents(l: seq<Cell>, c: Cell, r: seq<Cell>, x: Item)
    ensures |Flat(l)| + LocalPosition(c.items, x) <= |Flat(l + [c] + r)|
    ensures Flat(l + [c.(items := Inserted(c.items, x))] + r)
         == InsertAt(Flat(l + [c] + r), |Flat(l)| + LocalPosition(c.items, x), x)
  {
    hide Tokens, Flat, ItemTokens;
    var i := LocalPosition(c.items, x);
    var a, b, c' := c.items[..i], c.items[i..], c.(items := Inserted(c.items, x));
    assert c.items == a + b && c'.items == a + ([x] + b);
    ReadAround(l, c, r, a, b);
    ReadAround(l, c', r, a, [x] + b);
    InsertMiddle(Flat(l) + a, x, b, Flat(r));
  }

  lemma RemoveContents(l: seq<Cell>, c: Cell, r: seq<Cell>, i: nat)
    requires i < |c.items|
    ensures |Flat(l + [c] + r)| > |Flat(l)| + i && Flat(l + [c] + r)[|Flat(l)| + i] == c.items[i]
    ensures Flat(l + [c.(items := RemoveAt(c.items, i))] + r) == RemoveAt(Flat(l + [c] + r), |Flat(l)| + i)
  {
    hide Tokens, Flat, ItemTokens;
    var a, b, x, c' := c.items[..i], c.items[i + 1..], c.items[i], c.(items := RemoveAt(c.items, i));
    assert c.items == a + ([x] + b);
    ReadAround(l, c, r, a, [x] + b);
    ReadAround(l, c', r, a, b);
    InsertMiddle(Flat(l) + a, x, b, Flat(r));
  }

  // ---- what the order of the leaf level says about the contents --------------------------------

  lemma {:induction false} FlatInTokens(cells: seq<Cell>, i: nat)
    requires i < |Flat(cells)|
    ensures Token(Fin(Flat(cells)[i].score), true) in Tokens(cells)
  {
    var c := cells[0];
    if i < |c.items| {
      assert LeafTokens(c)[i] in Tokens(cells);
    } else {
      FlatInTokens(cells[1..], i - |c.items|);
    }
  }

  /** The contents are in score order, strictly so when nothing ties. */
  lemma {:induction false} ContentsInOrder(strict: bool, cells: seq<Cell>)
    requires Ordered(strict, Tokens(cells))
    ensures forall i, j :: 0 <= i < j < |Flat(cells)| ==>
      if strict then Flat(cells)[i].score < Flat(cells)[j].score else Flat(cells)[i].score <= Flat(cells)[j].score
  {
    if cells != [] {
      var c, s, a, b := cells[0], Flat(cells), LeafTokens(cells[0]), Tokens(cells[1..]);
      OrderedConcat(strict, a, b);
      ContentsInOrder(strict, cells[1..]);
      forall i, j | 0 <= i < j < |s|
        ensures Before(strict, Token(Fin(s[i].score), true), Token(Fin(s[j].score), true))
      {
        if j < |c.items| {
          assert Before(strict, a[i], a[j]);
        } else if i < |c.items| {
          FlatInTokens(cells[1..], j - |c.items|);
          var q :| 0 <= q < |b| && b[q] == Token(Fin(s[j].score), true);
          assert Before(strict, a[i], b[q]);
        } else {
          assert s[i] == Flat(cells[1..])[i - |c.items|] && s[j] == Flat(cells[1..])[j - |c.items|];
        }
      }
    }
  }

  // ---- where a score belongs, as a function ------------------------------------------------------

  lemma {:induction false} FenceInTokens(cells: seq<Cell>, p: nat)
    requires p < |cells|
    ensures Token(cells[p].fence, false) in Tokens(cells)
  {
    if p == 0 {
      assert LeafTokens(cells[0])[|cells[0].items|] in Tokens(cells);
    } else {
      FenceInTokens(cells[1..], p - 1);
    }
  }

  lemma {:induction false} FencesInOrder(cells: seq<Cell>)
    requires Ordered(false, Tokens(cells))
    ensures forall p, q :: 0 <= p < q < |cells| ==> Leq(cells[p].fence, cells[q].fence)
  {
    if cells != [] {
      var a, b := LeafTokens(cells[0]), Tokens(cells[1..]);
      OrderedConcat(false, a, b);
      FencesInOrder(cells[1..]);
      forall p, q | 0 <= p < q < |cells|
        ensures Leq(cells[p].fence, cells[q].fence)
      {
        if p == 0 {
          FenceInTokens(cells[1..], q - 1);
          var i :| 0 <= i < |b| && b[i] == Token(cells[q].fence, false);
          assert Before(false, a[|a| - 1], b[i]);
        } else {
          assert cells[p] == cells[1..][p - 1] && cells[q] == cells[1..][q - 1];
        }
      }
    }
  }

  /** The first leaf whose fence lies above the score. */
  ghost function Home(v: seq<(seq<Item>, Bound)>, score: real): nat {
    if v == [] || Lt(Fin(score), v[0].1) then 0 else 1 + Home(v[1..], score)
  }

  lemma {:induction false} HomeIs(v: seq<(seq<Item>, Bound)>, p: nat, score: real)
    requires p < |v| && Lt(Fin(score), v[p].1)
    requires forall q :: 0 <= q < p ==> !Lt(Fin(score), v[q].1)
    ensures Home(v, score) == p
  {
    if p > 0 {
      HomeIs(v[1..], p - 1, score);
    }
  }

  lemma RoutesHome(cells: seq<Cell>, p: nat, score: real)
    requires Routes(cells, p, score) && Ordered(false, Tokens(cells))
    ensures p == Home(View(cells), score)
  {
    FencesInOrder(cells);
    HomeIs(View(cells), p, score);
  }

  /** A stored item in a leaf whose fence lies above its score is where its score routes to. */
  lemma StoredRoutes(cells: seq<Cell>, p: nat, i: nat)
    requires Ordered(false, Tokens(cells)) && p < |cells| && i < |cells[p].items|
    requires Lt(Fin(cells[p].items[i].score), cells[p].fence)
    ensures Routes(cells, p, cells[p].items[i].score)
  {
    if p > 0 {
      var l, r := cells[..p], cells[p..];
      assert cells == l + r;
      FlatConcat(l, r);
      OrderedConcat(false, Tokens(l), Tokens(r));
      LastToken(l);
      assert r[0] == cells[p] && LeafTokens(r[0])[i] == Tokens(r)[i];
      assert Before(false, Tokens(l)[|Tokens(l)| - 1], Tokens(r)[i]);
    }
  }

  /** With nothing tied, every stored item lies strictly below its leaf's fence. */
  lemma StrictFence(cells: seq<Cell>, p: nat, i: nat)
    requires Ordered(true, Tokens(cells)) && p < |cells| && i < |cells[p].items|
    ensures Lt(Fin(cells[p].items[i].score), cells[p].fence)
  {
    var l, c, r := cells[..p], cells[p], cells[p + 1..];
    assert cells == l + [c] + r;
    FlatAround(l, c, r);
    OrderedConcat(true, Tokens(l) + LeafTokens(c), Tokens(r));
    OrderedConcat(true, Tokens(l), LeafTokens(c));
    assert Before(true, LeafTokens(c)[i], LeafTokens(c)[|c.items|]);
  }

  // ---- Add, on the leaf level -----------------------------------------------------------------------

  /** What Add makes of the leaf level: the item goes to its home leaf, which is split when it gets too large. */
  ghost function AddView(v: seq<(seq<Item>, Bound)>, x: Item, degree: int): seq<(seq<Item>, Bound)>
    requires degree >= 3 && Home(v, x.score) < |v|
  {
    var p := Home(v, x.score);
    var w := v[p := (Inserted(v[p].0, x), v[p].1)];
    if |w[p].0| > degree - 1 then SplitView(w, p, degree / 2) else w
  }

  /** The leaf that the score leads to holds the member already: the one leaf in which Add looks for it. */
  ghost predicate HomeHolds(cells: seq<Cell>, score: real, member: string) {
    var p := Home(View(cells), score);
    p < |cells| && Mentions(cells[p].items, member)
  }

  predicate Mentions(items: seq<Item>, member: string) {
    exists i :: 0 <= i < |items| && items[i].member == member
  }

  /** The position in the contents where Add puts an item. */
  ghost function AddPosition(cells: seq<Cell>, p: nat, x: Item): nat
    requires p < |cells|
  {
    |Flat(cells[..p])| + LocalPosition(cells[p].items, x)
  }

  lemma LeafSizes(levels: seq<seq<Cell>>, levels': seq<seq<Cell>>, lo: nat, hi: nat, p: nat, items: seq<Item>)
    requires |levels| > 0 && p < |levels[0]| && levels' == LeafLevels(levels, p, items) && Sizes(levels, lo, hi, null)
    ensures Sizes(levels', lo, hi, levels[0][p].node)
    ensures lo <= |items| <= hi ==> Sizes(levels', lo, hi, null)
  {
    forall k, q | 0 <= k < |levels'| && 0 <= q < |levels'[k]| && (k > 0 || q != p)
      ensures levels'[k][q] == levels[k][q]
    {
    }
  }

  /** The item is in, the leaf possibly too large. */
  lemma InsertDone(levels: seq<seq<Cell>>, snap: Snap, p: nat, x: Item, levels': seq<seq<Cell>>, snap': Snap)
    requires |levels| > 0 && p < |levels[0]| && levels[0][p].node in snap && Routes(levels[0], p, x.score)
    requires levels' == LeafLevels(levels, p, Inserted(levels[0][p].items, x))
    requires snap' == LeafSnap(snap, levels[0][p].node, Inserted(levels[0][p].items, x))
    requires Core(levels, snap)
    ensures Core(levels', snap') && Top(levels').node == Top(levels).node
    ensures AddPosition(levels[0], p, x) <= |Flat(levels[0])|
    ensures Flat(levels'[0]) == InsertAt(Flat(levels[0]), AddPosition(levels[0], p, x), x)
    ensures Ordered(true, Tokens(levels[0])) && NoTie(levels[0][p].items, x.score) ==> Ordered(true, Tokens(levels'[0]))
    ensures View(levels'[0]) == View(levels[0])[p := (Inserted(levels[0][p].items, x), levels[0][p].fence)]
  {
    hide Tokens, Flat, CellsOK, Linked, Chained, Ordered;
    var l, c, r := levels[0][..p], levels[0][p], levels[0][p + 1..];
    var c' := c.(items := Inserted(c.items, x));
    assert levels[0] == l + [c] + r && levels'[0] == l + [c'] + r;
    assert Ordered(false, Tokens(levels'[0])) by { InsertOrder(false, l, c, r, x); }
    if Ordered(true, Tokens(levels[0])) && NoTie(c.items, x.score) {
      InsertOrder(true, l, c, r, x);
    }
    InsertContents(l, c, r, x);
    LeafUpdate(levels, snap, p, c'.items, levels', snap');
  }

  /** Where nothing ties, an insert that keeps the scores in order is the sorted insert. */
  lemma StrictInsert(s: seq<Item>, i: nat, x: Item)
    requires i <= |s|
    requires forall a, b :: 0 <= a < b < |InsertAt(s, i, x)| ==> InsertAt(s, i, x)[a].score < InsertAt(s, i, x)[b].score
    ensures InsertAt(s, i, x) == SortedInsert(s, x)
  {
    var t := InsertAt(s, i, x);
    forall q | 0 <= q < i ensures Less(s[q], x) {
      assert t[q] == s[q] && t[i] == x;
    }
    forall q | i <= q < |s| ensures !Less(s[q], x) {
      assert t[q + 1] == s[q] && t[i] == x;
    }
    PrefixBelow(s, x, i);
  }

  // ---- when Add keeps the order of pairs --------------------------------------------------------------

  /** Some pair of u is larger than x. */
  ghost predicate Exceeds(u: seq<Item>, x: Item) {
    exists y :: y in u && Less(x, y)
  }

  /** A larger pair is stored in a leaf left of leaf p. */
  ghost predicate Overtaken(cells: seq<Cell>, p: nat, x: Item)
    requires p <= |cells|
  {
    Exceeds(Flat(cells[..p]), x)
  }

  /** Adding x to s gave t: x is in its place, and the pairs in order, exactly if nothing in u is larger. */
  ghost predicate PlacedIff(s: seq<Item>, t: seq<Item>, x: Item, u: seq<Item>) {
    (t == SortedInsert(s, x) <==> !Exceeds(u, x)) && (WeaklySorted(t) <==> !Exceeds(u, x))
  }

  /** What the contents after an addition say: the pair is in its place, and the pairs in order, exactly if no larger
      pair was left of the leaf. */
  ghost predicate OrderIff(cells: seq<Cell>, p: nat, x: Item, contents: seq<Item>)
    requires p <= |cells|
  {
    Sorted(Flat(cells)) && x !in Flat(cells) ==> PlacedIff(Flat(cells), contents, x, Flat(cells[..p]))
  }

  lemma RightAbove(l: seq<Cell>, c: Cell, r: seq<Cell>, x: Item)
    requires Ordered(false, Tokens(l + [c] + r)) && Lt(Fin(x.score), c.fence)
    ensures forall j :: 0 <= j < |Flat(r)| ==> Less(x, Flat(r)[j])
  {
    FlatAround(l, c, r);
    var y, f := Tokens(l) + LeafTokens(c), Token(c.fence, false);
    OrderedConcat(false, y, Tokens(r));
    assert y[|y| - 1] == f;
    forall j | 0 <= j < |Flat(r)| ensures Less(x, Flat(r)[j]) {
      FlatInTokens(r, j);
      var q :| 0 <= q < |Tokens(r)| && Tokens(r)[q] == Token(Fin(Flat(r)[j].score), true);
      assert Before(false, y[|y| - 1], Tokens(r)[q]);
    }
  }

  /** The local position splits a sorted leaf into smaller and larger items. */
  lemma LocalSplit(items: seq<Item>, x: Item)
    requires Sorted(items) && x !in items
    ensures forall q :: 0 <= q < LocalPosition(items, x) ==> Less(items[q], x)
    ensures forall q :: LocalPosition(items, x) <= q < |items| ==> Less(x, items[q])
  {
    var i := LocalPosition(items, x);
    forall q | 0 <= q < i ensures Less(items[q], x) {
      CompareToTotalOrder(x, items[q], x);
    }
    forall q | i <= q < |items| ensures Less(x, items[q]) {
      CompareToTotalOrder(x, items[i], x);
      if q > i {
        LessTransitive(x, items[i], items[q]);
      }
    }
  }

  /** In u + a + b + v with a smaller and b and v larger than x, the place between a and b is the sorted one exactly if
      nothing in u is larger. */
  lemma PlaceIff(u: seq<Item>, a: seq<Item>, b: seq<Item>, v: seq<Item>, x: Item, s: seq<Item>)
    requires s == (u + a) + (b + v) && Sorted(s) && x !in s
    requires forall q :: 0 <= q < |a| ==> Less(a[q], x)
    requires (forall q :: 0 <= q < |b| ==> Less(x, b[q])) && forall q :: 0 <= q < |v| ==> Less(x, v[q])
    ensures PlacedIff(s, InsertAt(s, |u| + |a|, x), x, u)
  {
    var i := |u| + |a|;
    var t := InsertAt(s, i, x);
    assert WeaklySorted(s) by {
      forall p, q | 0 <= p < q < |s| ensures !Less(s[q], s[p]) { LessTrichotomy(s[p], s[q]); }
    }
    SortedInsertSorted(s, x);
    if y :| y in u && Less(x, y) {
      var q :| 0 <= q < |u| && u[q] == y;
      assert t[q] == y && t[i] == x;
    } else {
      forall q | 0 <= q < i ensures Less(s[q], x) {
        LessTrichotomy(s[q], x);
        if q < |u| {
          assert s[q] in u;
        } else {
          assert s[q] == a[q - |u|];
        }
      }
      forall q | i <= q < |s| ensures !Less(s[q], x) {
        LessTrichotomy(s[q], x);
        assert s[q] == if q - i < |b| then b[q - i] else v[q - i - |b|];
      }
      PrefixBelow(s, x, i);
    }
  }

  lemma SortedParts(u: seq<Item>, m: seq<Item>, v: seq<Item>)
    requires Sorted(u + m + v)
    ensures Sorted(m) && forall y :: y in m ==> y in u + m + v
  {
    forall i, j | 0 <= i < j < |m| ensures Less(m[i], m[j]) {
      assert (u + m + v)[|u| + i] == m[i] && (u + m + v)[|u| + j] == m[j];
    }
  }

  lemma PlaceAround(u: seq<Item>, m: seq<Item>, v: seq<Item>, x: Item, s: seq<Item>)
    requires s == u + m + v && Sorted(s) && x !in s && forall q :: 0 <= q < |v| ==> Less(x, v[q])
    ensures PlacedIff(s, InsertAt(s, |u| + LocalPosition(m, x), x), x, u)
  {
    hide PlacedIff, InsertAt, Sorted, LocalPosition;
    var i := LocalPosition(m, x);
    SortedParts(u, m, v);
    LocalSplit(m, x);
    assert m == m[..i] + m[i..];
    PlaceSplit(u, m[..i], m[i..], v, x, m, s);
  }

  lemma PlaceSplit(u: seq<Item>, a: seq<Item>, b: seq<Item>, v: seq<Item>, x: Item, m: seq<Item>, s: seq<Item>)
    requires s == u + m + v && m == a + b && Sorted(s) && x !in s
    requires (forall q :: 0 <= q < |a| ==> Less(a[q], x)) && (forall q :: 0 <= q < |b| ==> Less(x, b[q]))
    requires forall q :: 0 <= q < |v| ==> Less(x, v[q])
    ensures PlacedIff(s, InsertAt(s, |u| + |a|, x), x, u)
  {
    hide PlacedIff, InsertAt;
    Regroup(u, a, b, [], v);
    PlaceIff(u, a, b, v, x, s);
  }

  lemma AddSortedAround(l: seq<Cell>, c: Cell, r: seq<Cell>, x: Item)
    requires Lt(Fin(x.score), c.fence) && Ordered(false, Tokens(l + [c] + r))
    requires Sorted(Flat(l + [c] + r)) && x !in Flat(l + [c] + r)
    requires |Flat(l)| + LocalPosition(c.items, x) <= |Flat(l + [c] + r)|
    ensures PlacedIff(Flat(l + [c] + r), InsertAt(Flat(l + [c] + r), |Flat(l)| + LocalPosition(c.items, x), x), x,
                      Flat(l))
  {
    RightAbove(l, c, r, x);
    hide Tokens, Flat, PlacedIff, InsertAt;
    FlatAround(l, c, r);
    PlaceAround(Flat(l), c.items, Flat(r), x, Flat(l + [c] + r));
  }

  /** Add puts a new pair where it belongs and keeps the order of pairs exactly if no larger one is left of its leaf. */
  lemma AddSortedIff(cells: seq<Cell>, p: nat, x: Item)
    requires Ordered(false, Tokens(cells)) && Routes(cells, p, x.score) && AddPosition(cells, p, x) <= |Flat(cells)|
    ensures OrderIff(cells, p, x, InsertAt(Flat(cells), AddPosition(cells, p, x), x))
  {
    hide Tokens, Flat, PlacedIff, InsertAt, Ordered, Sorted;
    if Sorted(Flat(cells)) && x !in Flat(cells) {
      var l, c, r := cells[..p], cells[p], cells[p + 1..];
      assert cells == l + [c] + r;
      AddSortedAround(l, c, r, x);
    }
  }

  lemma {:induction false} LeftBelow(l: seq<Cell>, r: seq<Cell>, x: Item, j: nat)
    requires Ordered(false, Tokens(l + r)) && j < |Flat(l)| && Leq(l[|l| - 1].fence, Fin(x.score))
    ensures Flat(l)[j].score <= x.score
  {
    FlatConcat(l, r);
    OrderedConcat(false, Tokens(l), Tokens(r));
    LastToken(l);
    FlatInTokens(l, j);
    var q :| 0 <= q < |Tokens(l)| && Tokens(l)[q] == Token(Fin(Flat(l)[j].score), true);
    assert q < |Tokens(l)| - 1;
    assert Before(false, Tokens(l)[q], Tokens(l)[|Tokens(l)| - 1]);
  }

  /** Only a tie with the score can put a larger pair left of the leaf. */
  lemma {:induction false} OvertakenByTies(cells: seq<Cell>, p: nat, x: Item)
    requires Ordered(false, Tokens(cells)) && Routes(cells, p, x.score) && Overtaken(cells, p, x)
    ensures !NoTie(Flat(cells), x.score)
  {
    var l, r := cells[..p], cells[p..];
    assert cells == l + r;
    var y :| y in Flat(l) && Less(x, y);
    var j :| 0 <= j < |Flat(l)| && Flat(l)[j] == y;
    LeftBelow(l, r, x, j);
    FlatConcat(l, r);
    assert Flat(cells)[j] == y;
  }

  // ---- RemoveByScore, on the leaf level ---------------------------------------------------------------

  /** The item lies in a leaf whose fence is above its score: the only place where its score leads. */
  ghost predicate Findable(cells: seq<Cell>, x: Item) {
    exists p :: 0 <= p < |cells| && x in cells[p].items && Lt(Fin(x.score), cells[p].fence)
  }

  lemma FindableIff(cells: seq<Cell>, p: nat, x: Item)
    requires Routes(cells, p, x.score) && Ordered(false, Tokens(cells))
    ensures Findable(cells, x) <==> x in cells[p].items
  {
    RoutesHome(cells, p, x.score);
    if Findable(cells, x) {
      var q :| 0 <= q < |cells| && x in cells[q].items && Lt(Fin(x.score), cells[q].fence);
      var i :| 0 <= i < |cells[q].items| && cells[q].items[i] == x;
      StoredRoutes(cells, q, i);
      RoutesHome(cells, q, x.score);
    }
  }

  lemma {:induction false} FlatMember(cells: seq<Cell>, x: Item)
    ensures x in Flat(cells) <==> exists p :: 0 <= p < |cells| && x in cells[p].items
  {
    if cells != [] {
      var t := cells[1..];
      FlatMember(t, x);
      if p :| 0 <= p < |cells| && x in cells[p].items {
        assert p > 0 ==> cells[p] == t[p - 1];
      }
      if p :| 0 <= p < |t| && x in t[p].items {
        assert cells[p + 1] == t[p];
      }
    }
  }

  /** With nothing tied, a score leads to every item stored with it. */
  lemma StrictFindable(cells: seq<Cell>, x: Item)
    requires Ordered(true, Tokens(cells))
    ensures Findable(cells, x) <==> x in Flat(cells)
  {
    FlatMember(cells, x);
    if p :| 0 <= p < |cells| && x in cells[p].items {
      var i :| 0 <= i < |cells[p].items| && cells[p].items[i] == x;
      StrictFence(cells, p, i);
    }
  }

  /** The item is out, the leaf possibly one item short. */
  lemma RemoveDone(levels: seq<seq<Cell>>, snap: Snap, p: nat, i: nat, levels': seq<seq<Cell>>, snap': Snap)
    requires |levels| > 0 && p < |levels[0]| && levels[0][p].node in snap && i < |levels[0][p].items|
    requires levels' == LeafLevels(levels, p, RemoveAt(levels[0][p].items, i))
    requires snap' == LeafSnap(snap, levels[0][p].node, RemoveAt(levels[0][p].items, i))
    requires Core(levels, snap)
    ensures Core(levels', snap') && Top(levels').node == Top(levels).node
    ensures RemovedFrom(Flat(levels[0]), Flat(levels'[0]), levels[0][p].items[i])
    ensures Ordered(true, Tokens(levels[0])) ==> Ordered(true, Tokens(levels'[0]))
  {
    hide Tokens, Flat, CellsOK, Linked, Chained, Ordered;
    var l, c, r := levels[0][..p], levels[0][p], levels[0][p + 1..];
    var c' := c.(items := RemoveAt(c.items, i));
    assert levels[0] == l + [c] + r && levels'[0] == l + [c'] + r;
    assert Ordered(false, Tokens(levels'[0])) by { RemoveOrder(false, l, c, r, i); }
    if Ordered(true, Tokens(levels[0])) {
      RemoveOrder(true, l, c, r, i);
    }
    assert RemovedFrom(Flat(levels[0]), Flat(levels'[0]), c.items[i]) by { RemoveContents(l, c, r, i); }
    LeafUpdate(levels, snap, p, c'.items, levels', snap');
  }

  ghost predicate RemovedFrom(s: seq<Item>, s': seq<Item>, x: Item) {
    exists i :: 0 <= i < |s| && s[i] == x && s' == RemoveAt(s, i)
  }

  lemma ItemAround(l: seq<Cell>, c: Cell, r: seq<Cell>, i: nat)
    requires i < |c.items|
    ensures |Flat(l)| + i < |Flat(l + [c] + r)| && Flat(l + [c] + r)[|Flat(l)| + i] == c.items[i]
  {
    FlatAround(l, c, r);
  }

  lemma {:induction false} LeafNoTie(cells: seq<Cell>, p: nat, score: real)
    requires p < |cells| && NoTie(Flat(cells), score)
    ensures NoTie(cells[p].items, score)
  {
    hide Flat, Tokens;
    var l, c, r := cells[..p], cells[p], cells[p + 1..];
    assert cells == l + [c] + r;
    var s := Flat(l + [c] + r);
    forall i | 0 <= i < |c.items| ensures c.items[i].score != score {
      ItemAround(l, c, r, i);
      assert s[|Flat(l)| + i].score != score;
    }
  }

  // ---- what ties do -----------------------------------------------------------------------------------

  lemma AddViewTo(v: seq<(seq<Item>, Bound)>, x: Item, degree: int, p: nat, i: nat, w: seq<(seq<Item>, Bound)>)
    requires degree >= 3 && p < |v| && Lt(Fin(x.score), v[p].1) && forall q :: 0 <= q < p ==> !Lt(Fin(x.score), v[q].1)
    requires i <= |v[p].0| && (i < |v[p].0| ==> CompareTo(x, v[p].0[i]) <= 0)
    requires forall q :: 0 <= q < i ==> CompareTo(x, v[p].0[q]) > 0
    requires w == v[p := (v[p].0[..i] + [x] + v[p].0[i..], v[p].1)]
    ensures Home(v, x.score) == p
    ensures AddView(v, x, degree) == if |v[p].0| + 1 > degree - 1 then SplitView(w, p, degree / 2) else w
  {
    HomeIs(v, p, x.score);
    assert LocalPosition(v[p].0, x) == i;
  }

  /** Three members with one score fill a tree of degree 3 past a split. The first of them then lies left of the
      separator that carries its own score: it is stored, but its score leads right, past it. A fourth such member that
      sorts first lands right of it too, so the contents are out of order. */
  lemma TiesMislead(a: Item, b: Item, c: Item, o: Item)
    requires a == Item(5.0, "a") && b == Item(5.0, "b") && c == Item(5.0, "c") && o == Item(5.0, "A")
    ensures var v1 := [([a], Inf)];
            var v2 := [([a, b], Inf)];
            var v3 := [([a], Fin(5.0)), ([b, c], Inf)];
            && Home([([], Inf)], 5.0) == Home(v1, 5.0) == Home(v2, 5.0) == 0 && Home(v3, 5.0) == 1
            && AddView([([], Inf)], a, 3) == v1 && AddView(v1, b, 3) == v2 && AddView(v2, c, 3) == v3
            && AddView(v3, o, 3) == [([a], Fin(5.0)), ([o], Fin(5.0)), ([b, c], Inf)]
            && Less(o, a)
  {
    TiesGather(a, b);
    TiesSplit(a, b, c);
    TiesSwap(a, b, c, o);
  }

  lemma TiesGather(a: Item, b: Item)
    requires a == Item(5.0, "a") && b == Item(5.0, "b")
    ensures var v0, v1, v2 := [([], Inf)], [([a], Inf)], [([a, b], Inf)];
            Home(v0, 5.0) == Home(v1, 5.0) == 0 && AddView(v0, a, 3) == v1 && AddView(v1, b, 3) == v2
  {
    var v0, v1, v2 := [([], Inf)], [([a], Inf)], [([a, b], Inf)];
    assert v0[0].0[..0] + [a] + v0[0].0[0..] == [a];
    AddViewTo(v0, a, 3, 0, 0, v1);
    assert v1[0].0[..1] + [b] + v1[0].0[1..] == [a, b];
    AddViewTo(v1, b, 3, 0, 1, v2);
  }

  lemma TiesSplit(a: Item, b: Item, c: Item)
    requires a == Item(5.0, "a") && b == Item(5.0, "b") && c == Item(5.0, "c")
    ensures Home([([a, b], Inf)], 5.0) == 0 && AddView([([a, b], Inf)], c, 3) == [([a], Fin(5.0)), ([b, c], Inf)]
  {
    var v2, w3 := [([a, b], Inf)], [([a, b, c], Inf)];
    assert v2[0].0[..2] + [c] + v2[0].0[2..] == [a, b, c];
    AddViewTo(v2, c, 3, 0, 2, w3);
    assert w3[0].0[..1] == [a] && w3[0].0[1..] == [b, c];
    assert SplitView(w3, 0, 1) == [([a], Fin(5.0)), ([b, c], Inf)];
  }

  lemma TiesSwap(a: Item, b: Item, c: Item, o: Item)
    requires a == Item(5.0, "a") && b == Item(5.0, "b") && c == Item(5.0, "c") && o == Item(5.0, "A")
    ensures var v3 := [([a], Fin(5.0)), ([b, c], Inf)];
            Home(v3, 5.0) == 1 && AddView(v3, o, 3) == [([a], Fin(5.0)), ([o], Fin(5.0)), ([b, c], Inf)] && Less(o, a)
  {
    var v3, w4 := [([a], Fin(5.0)), ([b, c], Inf)], [([a], Fin(5.0)), ([o, b, c], Inf)];
    assert v3[1].0[..0] + [o] + v3[1].0[0..] == [o, b, c];
    AddViewTo(v3, o, 3, 1, 0, w4);
    assert w4[1].0[..1] == [o] && w4[1].0[1..] == [b, c];
    assert SplitView(w4, 1, 1) == [([a], Fin(5.0)), ([o], Fin(5.0)), ([b, c], Inf)];
  }

  lemma TiedPairMissed(cells: seq<Cell>, a: Item, b: Item, c: Item)
    requires a == Item(5.0, "a") && b == Item(5.0, "b") && c == Item(5.0, "c")
    requires View(cells) == [([a], Fin(5.0)), ([b, c], Inf)]
    ensures a in Flat(cells) && !Findable(cells, a)
  {
    assert View(cells)[0] == (cells[0].items, cells[0].fence) && View(cells)[1] == (cells[1].items, cells[1].fence);
    FlatMember(cells, a);
    assert a in cells[0].items;
  }
}
