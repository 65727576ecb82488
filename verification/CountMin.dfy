/** The Count-Min sketch: saturating counters in a flat array, against the history of increments. */
module CountMin {
  import opened Basics
  import opened Permutations

  const MAX_UINT64 := TWO_64 - 1
  const TWO_32 := 0x1_0000_0000

  /** `hash` is the seeded murmur3, left open. */
  datatype Dim = Dim(width: nat, depth: nat, hash: (string, nat) -> nat)

  datatype Incr = Incr(item: string, value: UInt64)

  /** The column of an item in a row; the row number is cut to 32 bits as the seed. */
  function Column(d: Dim, item: string, row: nat): nat
    requires d.width > 0
  {
    d.hash(item, row % TWO_32) % d.width
  }

  /** In rows that fit the 32-bit seed, items share a column exactly if their hashes agree modulo the width. */
  lemma SameColumn(d: Dim, a: string, b: string, row: nat)
    requires d.width > 0 && row < 0x1_0000_0000
    ensures Column(d, a, row) < d.width
    ensures Column(d, a, row) == Column(d, b, row) <==> d.hash(a, row) % d.width == d.hash(b, row) % d.width
    ensures d.hash(a, row) < d.width ==> Column(d, a, row) == d.hash(a, row)
  {
  }

  /** getIndex. */
  function Index(d: Dim, row: nat, col: nat): nat {
    row * d.width + col
  }

  lemma RowsApart(a: nat, b: nat, width: nat)
    requires a < b
    ensures a * width + width <= b * width
  {
    var gap := b - a - 1;
    assert b * width == (a + 1 + gap) * width == a * width + width + gap * width;
  }

  lemma IndexInside(d: Dim, row: nat, col: nat)
    requires row < d.depth && col < d.width
    ensures Index(d, row, col) < d.width * d.depth
  {
    RowsApart(row, d.depth, d.width);
  }

  /** Different cells of the table are at different places of the flat array. */
  lemma IndexInjective(d: Dim, row: nat, col: nat, row': nat, col': nat)
    requires col < d.width && col' < d.width
    ensures Index(d, row, col) == Index(d, row', col') <==> row == row' && col == col'
  {
    if row < row' {
      RowsApart(row, row', d.width);
    } else if row' < row {
      RowsApart(row', row, d.width);
    }
  }

  /** Every place of the flat array is that of a cell. */
  lemma IndexOnto(d: Dim, p: nat) returns (row: nat, col: nat)
    requires p < d.width * d.depth
    ensures row < d.depth && col < d.width && p == Index(d, row, col)
  {
    row, col := p / d.width, p % d.width;
    if row >= d.depth {
      Above(row, d.depth, d.width);
    }
  }

  lemma Above(a: nat, b: nat, width: nat)
    requires a >= b
    ensures a * width >= b * width
  {
    if a > b {
      RowsApart(b, a, width);
    }
  }

  function Saturated(n: nat): UInt64 {
    if n <= MAX_UINT64 then n else MAX_UINT64
  }

  /** What was added in all for one item, without overflow. */
  function TrueCount(history: seq<Incr>, item: string): nat {
    if history == [] then 0
    else
      var last := history[|history| - 1];
      TrueCount(history[..|history| - 1], item) + if last.item == item then last.value else 0
  }

  /** An increment adds its value to the count of its item and leaves the others alone. */
  lemma TrueCountGrows(history: seq<Incr>, incr: Incr, item: string)
    ensures TrueCount([], item) == 0
    ensures TrueCount(history + [incr], item) ==
              if incr.item == item then TrueCount(history, item) + incr.value else TrueCount(history, item)
  {
    assert (history + [incr])[..|history|] == history;
  }

  /** What was added in all for the items of one cell. */
  function CellSum(d: Dim, history: seq<Incr>, row: nat, col: nat): nat
    requires d.width > 0
  {
    if history == [] then 0
    else
      var last := history[|history| - 1];
      CellSum(d, history[..|history| - 1], row, col) + if Column(d, last.item, row) == col then last.value else 0
  }

  /** The least of an item's cells in the first `rows` rows. */
  function Estimate(d: Dim, history: seq<Incr>, item: string, rows: nat): UInt64
    requires d.width > 0
  {
    if rows == 0 then MAX_UINT64
    else
      var cell := Saturated(CellSum(d, history, rows - 1, Column(d, item, rows - 1)));
      var rest := Estimate(d, history, item, rows - 1);
      if cell < rest then cell else rest
  }

  // ---- what the estimate is worth ------------------------------------------------------

  lemma {:induction false} CellCovers(d: Dim, history: seq<Incr>, item: string, row: nat)
    requires d.width > 0
    ensures TrueCount(history, item) <= CellSum(d, history, row, Column(d, item, row))
  {
    if history != [] {
      CellCovers(d, history[..|history| - 1], item, row);
    }
  }

  /** The estimate never falls below the saturated true count. */
  lemma {:induction false} NeverUnder(d: Dim, history: seq<Incr>, item: string, rows: nat)
    requires d.width > 0
    ensures Estimate(d, history, item, rows) >= Saturated(TrueCount(history, item))
  {
    if rows > 0 {
      NeverUnder(d, history, item, rows - 1);
      CellCovers(d, history, item, rows - 1);
    }
  }

  /** No other item of the history shares the item's cell in this row. */
  ghost predicate Alone(d: Dim, history: seq<Incr>, item: string, row: nat)
    requires d.width > 0
  {
    forall i :: 0 <= i < |history| && Column(d, history[i].item, row) == Column(d, item, row) ==>
      history[i].item == item
  }

  lemma {:induction false} CellExact(d: Dim, history: seq<Incr>, item: string, row: nat)
    requires d.width > 0 && Alone(d, history, item, row)
    ensures CellSum(d, history, row, Column(d, item, row)) == TrueCount(history, item)
  {
    if history != [] {
      CellExact(d, history[..|history| - 1], item, row);
      assert history[|history| - 1].item == item || Column(d, history[|history| - 1].item, row) != Column(d, item, row);
    }
  }

  /** The estimate is exact if the item has one row without a collision. */
  lemma {:induction false} ExactIfAlone(d: Dim, history: seq<Incr>, item: string, rows: nat, row: nat)
    requires d.width > 0 && row < rows && Alone(d, history, item, row)
    ensures Estimate(d, history, item, rows) == Saturated(TrueCount(history, item))
  {
    NeverUnder(d, history, item, rows);
    if row == rows - 1 {
      CellExact(d, history, item, row);
    } else {
      ExactIfAlone(d, history, item, rows - 1, row);
    }
  }

  /** In terms of hashes: if in some row no other item of the history has the item's hash modulo the width, the estimate
      is the true count. */
  lemma ExactWithoutCollision(d: Dim, history: seq<Incr>, item: string, rows: nat, row: nat)
    requires d.width > 0 && row < rows <= 0x1_0000_0000
    requires forall i :: 0 <= i < |history| && history[i].item != item ==>
      d.hash(history[i].item, row) % d.width != d.hash(item, row) % d.width
    ensures Estimate(d, history, item, rows) == Saturated(TrueCount(history, item))
  {
    forall i | 0 <= i < |history| && Column(d, history[i].item, row) == Column(d, item, row)
      ensures history[i].item == item
    {
      SameColumn(d, history[i].item, item, row);
    }
    ExactIfAlone(d, history, item, rows, row);
  }

  // ---- the order of increments does not matter -----------------------------------------

  lemma {:induction false} CellSumRemove(d: Dim, history: seq<Incr>, i: nat, row: nat, col: nat)
    requires d.width > 0 && i < |history|
    ensures CellSum(d, history, row, col) ==
              CellSum(d, history[..i] + history[i + 1..], row, col)
              + if Column(d, history[i].item, row) == col then history[i].value else 0
    decreases |history|
  {
    var n := |history| - 1;
    var rest := history[..i] + history[i + 1..];
    if i < n {
      CellSumRemove(d, history[..n], i, row, col);
      assert history[..n][..i] + history[..n][i + 1..] == rest[..n - 1];
      assert rest[n - 1] == history[n];
    } else {
      assert rest == history[..n];
    }
  }

  /** Histories with the same increments in any order fill every cell alike. */
  lemma {:induction false} OrderDoesNotMatter(d: Dim, a: seq<Incr>, b: seq<Incr>, row: nat, col: nat)
    requires d.width > 0 && multiset(a) == multiset(b)
    ensures CellSum(d, a, row, col) == CellSum(d, b, row, col)
    decreases |a|
  {
    SameSize(a, b);
    if a != [] {
      var j := Found(a, b, 0);
      SameWithout(a, b, 0, j);
      OrderDoesNotMatter(d, a[..0] + a[1..], b[..j] + b[j + 1..], row, col);
      CellSumRemove(d, a, 0, row, col);
      CellSumRemove(d, b, j, row, col);
    }
  }

  // ---- the sketch ----------------------------------------------------------------------

  class CMS {
    const dim: Dim
    const counter: array<UInt64>
    ghost var history: seq<Incr>

    /** Every cell is the saturated sum of the increments that hash to it. */
    ghost predicate Valid()
      reads this, counter
    {
      && dim.width > 0 && counter.Length == dim.width * dim.depth
      && Filled(dim, counter[..], history, history, dim.depth)
    }

    constructor (width: nat, depth: nat, hash: (string, nat) -> nat)
      requires width > 0 && width * depth < TWO_64
      ensures Valid() && fresh(counter) && history == [] && dim == Dim(width, depth, hash)
    {
      dim := Dim(width, depth, hash);
      counter := new UInt64[width * depth](_ => 0);
      history := [];
      new;
      forall row: nat, col: nat | row < depth && col < width ensures CellOK(dim, counter[..], [], [], depth, row, col) {
        IndexInside(dim, row, col);
      }
    }

    /** Returns what the next Count would. */
    method IncrBy(item: string, value: UInt64) returns (r: UInt64)
      requires Valid()
      modifies this, counter
      ensures Valid() && history == old(history) + [Incr(item, value)]
      ensures r == Estimate(dim, history, item, dim.depth)
    {
      ghost var before, now := history, history + [Incr(item, value)];
      FilledNone(dim, counter[..], now, before);
      r := MAX_UINT64;
      for i := 0 to dim.depth
        invariant Filled(dim, counter[..], now, before, i) && r == Estimate(dim, now, item, i)
      {
        var j := Column(dim, item, i);
        var idx := Index(dim, i, j);
        IndexInside(dim, i, j);
        ghost var cells := counter[..];
        if MAX_UINT64 - counter[idx] < value {
          counter[idx] := MAX_UINT64;
        } else {
          counter[idx] := counter[idx] + value;
        }
        FilledRow(dim, cells, counter[..], before, Incr(item, value), i);
        assert CellOK(dim, counter[..], now, before, i + 1, i, j);
        if counter[idx] < r {
          r := counter[idx];
        }
      }
      history := now;
      FilledAll(dim, counter[..], now, before);
    }

    method Count(item: string) returns (r: UInt64)
      requires Valid()
      ensures r == Estimate(dim, history, item, dim.depth)
    {
      r := MAX_UINT64;
      for i := 0 to dim.depth
        invariant r == Estimate(dim, history, item, i)
      {
        var j := Column(dim, item, i);
        var idx := Index(dim, i, j);
        IndexInside(dim, i, j);
        assert CellOK(dim, counter[..], history, history, dim.depth, i, j);
        if counter[idx] < r {
          r := counter[idx];
        }
      }
    }
  }

  /** The cell holds the sum of the one history in a row before n, and of the other from there on. */
  ghost predicate CellOK(d: Dim, cells: seq<UInt64>, history: seq<Incr>, others: seq<Incr>, n: nat, row: nat, col: nat)
    requires d.width > 0
  {
    Index(d, row, col) < |cells| && cells[Index(d, row, col)] == Saturated(CellSum(d,
        if row < n then history else others, row, col))
  }

  ghost predicate Filled(d: Dim, cells: seq<UInt64>, history: seq<Incr>, others: seq<Incr>, n: nat)
    requires d.width > 0
  {
    forall row: nat, col: nat :: row < d.depth && col < d.width ==> CellOK(d, cells, history, others, n, row, col)
  }

  /** One more increment in one more row. */
  lemma FilledRow(d: Dim, cells: seq<UInt64>, cells': seq<UInt64>, before: seq<Incr>, incr: Incr, n: nat)
    requires d.width > 0 && n < d.depth && Filled(d, cells, before + [incr], before, n)
    requires var idx := Index(d, n, Column(d, incr.item, n));
             idx < |cells| && cells' == cells[idx := Saturated(cells[idx] + incr.value)]
    ensures Filled(d, cells', before + [incr], before, n + 1)
  {
    var now, j, m := before + [incr], Column(d, incr.item, n), n + 1;
    assert now[..|before|] == before;
    forall row: nat, col: nat | row < d.depth && col < d.width ensures CellOK(d, cells', now, before, m, row, col) {
      assert CellOK(d, cells, now, before, n, row, col);
      IndexInjective(d, row, col, n, j);
    }
  }

  lemma FilledNone(d: Dim, cells: seq<UInt64>, history: seq<Incr>, others: seq<Incr>)
    requires d.width > 0 && Filled(d, cells, others, others, d.depth)
    ensures Filled(d, cells, history, others, 0)
  {
    forall row: nat, col: nat | row < d.depth && col < d.width ensures CellOK(d, cells, history, others, 0, row, col) {
      assert CellOK(d, cells, others, others, d.depth, row, col);
    }
  }

  /** What is filled up to the last row is filled. */
  lemma FilledAll(d: Dim, cells: seq<UInt64>, history: seq<Incr>, others: seq<Incr>)
    requires d.width > 0 && Filled(d, cells, history, others, d.depth)
    ensures Filled(d, cells, history, history, d.depth)
  {
    forall row: nat, col: nat | row < d.depth && col < d.width ensures CellOK(d, cells, history, history, d.depth, row,
                                                                              col) {
      assert CellOK(d, cells, history, others, d.depth, row, col);
    }
  }

  /** Two sketches that saw the same increments, in any order, have the same counters. */
  lemma SameCounters(d: Dim, cells: seq<UInt64>, cells': seq<UInt64>, a: seq<Incr>, b: seq<Incr>)
    requires d.width > 0 && |cells| == |cells'| == d.width * d.depth && multiset(a) == multiset(b)
    requires Filled(d, cells, a, a, d.depth) && Filled(d, cells', b, b, d.depth)
    ensures cells == cells'
  {
    forall p | 0 <= p < |cells| ensures cells[p] == cells'[p] {
      var row, col := IndexOnto(d, p);
      assert CellOK(d, cells, a, a, d.depth, row, col) && CellOK(d, cells', b, b, d.depth, row, col);
      OrderDoesNotMatter(d, a, b, row, col);
    }
  }
}
