/** The Bloom filter: bits packed in 64-bit words, set and tested at the probe positions of a double hash. */
module Blooms {
  import opened Basics

  datatype HashValue = HashValue(a: UInt64, b: UInt64)

  /** The i-th probe position, computed modulo 2^64 first. */
  function Position(h: HashValue, i: nat, bits: nat): nat
    requires bits > 0
  {
    ((h.a + h.b * i) % TWO_64) % bits
  }

  /** As long as the sum fits 64 bits, the probe is where it says. */
  lemma ProbeAt(h: HashValue, i: nat, bits: nat, x: nat)
    requires bits > 0 && x == h.a + h.b * i
    ensures Position(h, i, bits) < bits
    ensures x < 0x1_0000_0000_0000_0000 ==> Position(h, i, bits) == x % bits
    ensures x == 0x1_0000_0000_0000_0000 ==> Position(h, i, bits) == 0
  {
    assert x < TWO_64 ==> x % TWO_64 == x;
    assert x == TWO_64 ==> x % TWO_64 == 0;
  }

  /** The first probe is at a, each further one b places on, all around the filter. */
  lemma ProbeSteps(h: HashValue, i: nat, bits: nat)
    requires bits > 0 && h.a + h.b * (i + 1) < 0x1_0000_0000_0000_0000
    ensures Position(h, 0, bits) == h.a % bits
    ensures Position(h, i + 1, bits) == (Position(h, i, bits) + h.b) % bits
  {
    hide Position;
    var x := h.a + h.b * i;
    assert h.b * (i + 1) == h.b * i + h.b;
    ProbeAt(h, 0, bits, h.a);
    ProbeAt(h, i, bits, x);
    ProbeAt(h, i + 1, bits, x + h.b);
    AddMod(x, h.b, bits);
  }

  lemma AddMod(x: nat, y: nat, m: nat)
    requires m > 0
    ensures (x + y) % m == (x % m + y) % m
  {
    var z := x % m + y;
    var q, p := x / m, z / m;
    assert x == q * m + x % m && z == p * m + z % m;
    assert x + y == (q + p) * m + z % m;
    Remainder(x + y, q + p, z % m, m);
  }

  lemma Remainder(x: int, q: int, r: nat, m: nat)
    requires m > 0 && r < m && x == q * m + r
    ensures x % m == r
  {
    var d := q - x / m;
    assert x == (x / m) * m + x % m;
    assert d * m == x % m - r;
    assert -1 < d < 1 by {
      Bounded(d, m, x % m - r);
    }
  }

  lemma Bounded(d: int, m: int, e: int)
    requires m > 0 && d * m == e && -m < e < m
    ensures d == 0
  {
  }

  ghost function Probes(h: HashValue, hashes: int, bits: nat): set<nat>
    requires bits > 0
  {
    set i: nat | i < hashes :: Position(h, i, bits)
  }

  /** The union of the probe positions of what was added. */
  ghost function Marked(added: seq<HashValue>, hashes: int, bits: nat): set<nat>
    requires bits > 0
  {
    if added == [] then {} else Marked(added[..|added| - 1], hashes, bits) + Probes(added[|added| - 1], hashes, bits)
  }

  /** The marked positions are those of some probe of something that was added. */
  lemma {:induction false} MarkedIs(added: seq<HashValue>, hashes: int, bits: nat, p: nat)
    requires bits > 0
    ensures p in Marked(added, hashes, bits) <==>
              exists j: nat, i: nat :: j < |added| && i < hashes && Position(added[j], i, bits) == p
  {
    if added != [] {
      var n := |added| - 1;
      MarkedIs(added[..n], hashes, bits, p);
      if j: nat, i: nat :| j < |added| && i < hashes && Position(added[j], i, bits) == p {
        assert j < n ==> Position(added[..n][j], i, bits) == p;
      }
    }
  }

  /** Nothing that was added is ever reported absent. */
  lemma {:induction false} NoFalseNegatives(added: seq<HashValue>, hashes: int, bits: nat, h: HashValue)
    requires bits > 0 && h in added
    ensures Probes(h, hashes, bits) <= Marked(added, hashes, bits)
  {
    if h != added[|added| - 1] {
      NoFalseNegatives(added[..|added| - 1], hashes, bits, h);
    }
  }

  // ---- bits in words -------------------------------------------------------------------

  /** The position of bit c of word w. */
  function Place(w: nat, c: bv6): nat {
    64 * w + c as int
  }

  /** The word holds exactly the marked positions that fall into it. */
  ghost predicate WordOK(word: bv64, w: nat, marked: set<nat>) {
    forall c: bv6 :: word & (1 << c) != 0 <==> Place(w, c) in marked
  }

  lemma MaskBits(word: bv64, b: bv6, c: bv6)
    ensures (word | (1 << b)) & (1 << c) != 0 <==> b == c || word & (1 << c) != 0
  {
  }

  lemma SameBit(b: bv6, c: bv6, r: nat)
    requires r < 64 && b == r as bv6
    ensures b == c <==> c as int == r
  {
  }

  lemma PlaceBit(w: nat, b: bv6, c: bv6, r: nat)
    requires r < 64 && b == r as bv6
    ensures b == c <==> Place(w, c) == 64 * w + r
  {
    SameBit(b, c, r);
  }

  lemma MarkOne(t: bool, t': bool, same: bool, place: nat, p: nat, marked: set<nat>)
    requires (t <==> place in marked) && (t' <==> same || t) && (same <==> place == p)
    ensures t' <==> place in marked + {p}
  {
  }

  /** Setting a bit marks its position and no other. */
  lemma WordSet(word: bv64, w: nat, marked: set<nat>, r: nat, b: bv6)
    requires r < 64 && b == r as bv6 && WordOK(word, w, marked)
    ensures WordOK(word | (1 << b), w, marked + {64 * w + r})
  {
    hide Place;
    forall c: bv6 ensures (word | (1 << b)) & (1 << c) != 0 <==> Place(w, c) in marked + {64 * w + r} {
      MaskBits(word, b, c);
      PlaceBit(w, b, c, r);
      assert Place(w, c) in marked <==> word & (1 << c) != 0;
      MarkOne(word & (1 << c) != 0, (word | (1 << b)) & (1 << c) != 0, b == c, Place(w, c), 64 * w + r, marked);
    }
  }

  lemma WordKept(word: bv64, w: nat, marked: set<nat>, p: nat)
    requires WordOK(word, w, marked) && p / 64 != w
    ensures WordOK(word, w, marked + {p})
  {
    forall c: bv6 ensures word & (1 << c) != 0 <==> Place(w, c) in marked + {p} {
      assert c as int < 64;
    }
  }

  lemma PlaceIs(w: nat, r: nat, b: bv6)
    requires r < 64 && b == r as bv6
    ensures Place(w, b) == 64 * w + r
  {
    SameBit(b, b, r);
  }

  ghost predicate Packed(bf: seq<bv64>, marked: set<nat>) {
    forall w: nat :: w < |bf| ==> WordOK(bf[w], w, marked)
  }

  lemma PackedSet(bf: seq<bv64>, marked: set<nat>, word: nat, r: nat, x: bv64)
    requires Packed(bf, marked) && word < |bf| && r < 64 && WordOK(x, word, marked + {64 * word + r})
    ensures Packed(bf[word := x], marked + {64 * word + r})
  {
    var p, bf' := 64 * word + r, bf[word := x];
    var marked' := marked + {p};
    forall w: nat | w < |bf'| ensures WordOK(bf'[w], w, marked') {
      if w != word {
        WordKept(bf[w], w, marked, p);
      }
    }
  }

  method SetBit(word: bv64, r: nat, ghost w: nat, ghost marked: set<nat>) returns (x: bv64)
    requires r < 64 && WordOK(word, w, marked)
    ensures WordOK(x, w, marked + {64 * w + r})
  {
    var bit := r as bv6;
    WordSet(word, w, marked, r, bit);
    x := word | (1 << bit);
  }

  method TestMask(word: bv64, b: bv6, ghost w: nat, ghost marked: set<nat>) returns (t: bool)
    requires WordOK(word, w, marked)
    ensures t <==> Place(w, b) in marked
  {
    t := word & (1 << b) != 0;
  }

  method TestBit(word: bv64, r: nat, ghost w: nat, ghost marked: set<nat>) returns (t: bool)
    requires r < 64 && WordOK(word, w, marked)
    ensures t <==> 64 * w + r in marked
  {
    t := TestMask(word, r as bv6, w, marked);
    PlaceIs(w, r, r as bv6);
  }

  method SetPosition(bf: array<bv64>, p: nat, ghost marked: set<nat>)
    requires Packed(bf[..], marked) && p < 64 * bf.Length
    modifies bf
    ensures Packed(bf[..], marked + {p})
  {
    var word, r := p / 64, p % 64;
    ghost var before := bf[..];
    assert WordOK(before[word], word, marked);
    var x := SetBit(bf[word], r, word, marked);
    PackedSet(before, marked, word, r, x);
    bf[word] := x;
    assert bf[..] == before[word := x];
  }

  method TestPosition(bf: array<bv64>, p: nat, ghost marked: set<nat>) returns (t: bool)
    requires Packed(bf[..], marked) && p < 64 * bf.Length
    ensures t <==> p in marked
  {
    var word, r := p / 64, p % 64;
    assert WordOK(bf[..][word], word, marked);
    t := TestBit(bf[word], r, word, marked);
  }

  /** The loop of Add and AddHash. */
  method SetProbes(bf: array<bv64>, h: HashValue, hashes: int, bits: nat, ghost marked: set<nat>)
    requires 0 < bits == 64 * bf.Length && Packed(bf[..], marked)
    modifies bf
    ensures Packed(bf[..], marked + Probes(h, hashes, bits))
  {
    var i := 0;
    ghost var m := marked;
    while i < hashes
      invariant 0 <= i && (i <= hashes || i == 0) && m == marked + Probes(h, i, bits)
      invariant Packed(bf[..], m)
    {
      var p := Position(h, i, bits);
      SetPosition(bf, p, m);
      m := m + {p};
      ProbesNext(h, i, bits);
      i := i + 1;
    }
    ProbesNone(h, hashes, i, bits);
  }

  /** The loop of Exist and ExistHash. */
  method TestProbes(bf: array<bv64>, h: HashValue, hashes: int, bits: nat, ghost marked: set<nat>) returns (r: bool)
    requires 0 < bits == 64 * bf.Length && Packed(bf[..], marked)
    ensures r <==> Probes(h, hashes, bits) <= marked
  {
    var i := 0;
    while i < hashes
      invariant 0 <= i && (i <= hashes || i == 0) && Probes(h, i, bits) <= marked
    {
      var p := Position(h, i, bits);
      var present := TestPosition(bf, p, marked);
      if !present {
        assert p in Probes(h, hashes, bits);
        return false;
      }
      ProbesNext(h, i, bits);
      i := i + 1;
    }
    ProbesNone(h, hashes, i, bits);
    r := true;
  }

  // ---- the filter ----------------------------------------------------------------------

  /** The size, rounded up to whole words. */
  function Rounded(bits: nat): nat {
    if bits % 64 != 0 then (bits / 64 + 1) * 64 else bits
  }

  class Bloom {
    const hashes: int
    const bits: nat
    const words: nat
    const hash: string -> HashValue
    const bf: array<bv64>
    ghost var added: seq<HashValue>

    /** The packed words stand for the union of the probe positions of what was added. */
    ghost predicate Valid()
      reads this, bf
    {
      && bits == 64 * words > 0 && bf.Length == words
      && Packed(bf[..], Marked(added, hashes, bits))
    }

    /** `size` and `hashes` come out of floating-point formulas, `hash` is murmur3; all are left open. */
    constructor (size: nat, hashes: int, hash: string -> HashValue)
      requires size > 0
      ensures Valid() && fresh(bf) && added == [] && this.hashes == hashes && this.hash == hash
      ensures bits == Rounded(size) && size <= bits < size + 64
    {
      this.hashes, this.hash := hashes, hash;
      bits := Rounded(size);
      words := Rounded(size) / 64;
      bf := new bv64[Rounded(size) / 64](_ => 0);
      added := [];
    }

    method AddHash(h: HashValue)
      requires Valid()
      modifies this, bf
      ensures Valid() && added == old(added) + [h]
    {
      MarkedNext(added, hashes, bits, h);
      SetProbes(bf, h, hashes, bits, Marked(added, hashes, bits));
      added := added + [h];
    }

    /** True exactly when all probe positions are marked. */
    method ExistHash(h: HashValue) returns (r: bool)
      requires Valid()
      ensures r <==> Probes(h, hashes, bits) <= Marked(added, hashes, bits)
      ensures r <==> forall i: nat :: i < hashes ==> Position(h, i, bits) in Marked(added, hashes, bits)
    {
      r := TestProbes(bf, h, hashes, bits, Marked(added, hashes, bits));
    }

    method Add(entry: string)
      requires Valid()
      modifies this, bf
      ensures Valid() && added == old(added) + [hash(entry)]
    {
      var initHash := hash(entry);
      MarkedNext(added, hashes, bits, initHash);
      SetProbes(bf, initHash, hashes, bits, Marked(added, hashes, bits));
      added := added + [initHash];
    }

    /** Never false for an entry that was added, as a string or by its hash. */
    method Exist(entry: string) returns (r: bool)
      requires Valid()
      ensures r <==> Probes(hash(entry), hashes, bits) <= Marked(added, hashes, bits)
      ensures hash(entry) in added ==> r
      ensures r <==> forall i: nat :: i < hashes ==> Position(hash(entry), i, bits) in Marked(added, hashes, bits)
    {
      var initHash := hash(entry);
      r := TestProbes(bf, initHash, hashes, bits, Marked(added, hashes, bits));
      if initHash in added {
        NoFalseNegatives(added, hashes, bits, initHash);
      }
    }
  }

  lemma MarkedNext(added: seq<HashValue>, hashes: int, bits: nat, h: HashValue)
    requires bits > 0
    ensures Marked(added + [h], hashes, bits) == Marked(added, hashes, bits) + Probes(h, hashes, bits)
  {
    assert (added + [h])[..|added|] == added;
  }

  lemma ProbesNext(h: HashValue, i: nat, bits: nat)
    requires bits > 0
    ensures Probes(h, i + 1, bits) == Probes(h, i, bits) + {Position(h, i, bits)}
  {
  }

  lemma ProbesNone(h: HashValue, hashes: int, i: nat, bits: nat)
    requires bits > 0 && (i == hashes || (i == 0 && hashes <= 0))
    ensures Probes(h, i, bits) == Probes(h, hashes, bits)
  {
  }
}
