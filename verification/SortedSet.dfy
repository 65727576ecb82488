/** Sorted sets: a map from member to score next to an ordered index that must hold the same pairs. */
module SortedSets {
  import opened Items
  import opened SortedSeqs
  import opened BTreeShape
  import opened BTreeSteps
  import opened BTreeLeaves
  import opened BTreeIndexes
  import opened SkipLists

  /** A sequence of pairs and a score map that say the same, in order. */
  ghost predicate Holds(s: seq<Item>, m: map<string, real>) {
    Sorted(s) && Agrees(s, m)
  }

  /** The pairs are those of the map, each once, in any order. */
  ghost predicate Agrees(s: seq<Item>, m: map<string, real>) {
    && (forall i :: 0 <= i < |s| ==> s[i].member in m && m[s[i].member] == s[i].score)
    && (forall i, j :: 0 <= i < j < |s| ==> s[i].member != s[j].member)
    && (forall k {:trigger HasPair(s, m, k)} :: k in m ==> HasPair(s, m, k))
  }

  ghost predicate HasPair(s: seq<Item>, m: map<string, real>, k: string)
    requires k in m
  {
    Item(m[k], k) in s
  }

  /** How many members rank before a member, by the map alone. */
  ghost function Rank(m: map<string, real>, member: string): nat
    requires member in m
  {
    |set k | k in m && Less(Item(m[k], k), Item(m[member], member))|
  }

  ghost function MembersOf(s: seq<Item>): set<string> {
    set i | 0 <= i < |s| :: s[i].member
  }

  lemma {:induction false} MembersCount(s: seq<Item>)
    requires forall i, j :: 0 <= i < j < |s| ==> s[i].member != s[j].member
    ensures |MembersOf(s)| == |s|
  {
    if s != [] {
      var t, x := s[..|s| - 1], s[|s| - 1];
      MembersCount(t);
      assert x.member !in MembersOf(t);
      assert MembersOf(s) == MembersOf(t) + {x.member} by {
        forall k | k in MembersOf(s) ensures k in MembersOf(t) + {x.member} {
          var i :| 0 <= i < |s| && s[i].member == k;
          assert i < |t| ==> t[i] == s[i];
        }
        forall k | k in MembersOf(t) ensures k in MembersOf(s) {
          var i :| 0 <= i < |t| && t[i].member == k;
          assert s[i] == t[i];
        }
        assert s[|s| - 1].member in MembersOf(s);
      }
    }
  }

  /** In a sequence that agrees with the map, the position of a pair is the number of smaller pairs. */
  lemma PositionIsRank(s: seq<Item>, m: map<string, real>, i: nat)
    requires Holds(s, m) && i < |s|
    ensures Rank(m, s[i].member) == i
  {
    var x, t := s[i], s[..i];
    MembersCount(t);
    var smaller := set k | k in m && Less(Item(m[k], k), x);
    forall k | k in smaller ensures k in MembersOf(t) {
      assert HasPair(s, m, k);
      var j :| 0 <= j < |s| && s[j] == Item(m[k], k);
      LessTrichotomy(s[i], s[j]);
      assert j < i;
      assert t[j].member == k;
    }
    forall k | k in MembersOf(t) ensures k in smaller {
      var j :| 0 <= j < |t| && t[j].member == k;
      assert t[j] == s[j] && Less(s[j], s[i]);
    }
    assert smaller == MembersOf(t);
  }

  lemma AgreesCount(s: seq<Item>, m: map<string, real>)
    requires Agrees(s, m)
    ensures |s| == |m|
  {
    MembersCount(s);
    forall k | k in m.Keys ensures k in MembersOf(s) {
      assert HasPair(s, m, k);
      var j :| 0 <= j < |s| && s[j] == Item(m[k], k);
      assert s[j].member == k;
    }
    assert MembersOf(s) == m.Keys;
  }

  lemma InsertIndex(s: seq<Item>, k: nat, x: Item, i: nat)
    requires k <= |s| && i <= |s|
    ensures InsertAt(s, k, x)[i] == if i < k then s[i] else if i == k then x else s[i - 1]
  {
  }

  /** Anywhere among the pairs, a pair with a new member says the same as in the map. */
  lemma AgreesInsert(s: seq<Item>, s': seq<Item>, m: map<string, real>, x: Item)
    requires Agrees(s, m) && InsertedInto(s, s', x) && x.member !in m
    ensures Agrees(s', m[x.member := x.score])
  {
    var k :| 0 <= k <= |s| && s' == InsertAt(s, k, x);
    var m' := m[x.member := x.score];
    forall i | 0 <= i < |s'| ensures s'[i].member in m' && m'[s'[i].member] == s'[i].score {
      InsertIndex(s, k, x, i);
    }
    forall i, j | 0 <= i < j < |s'| ensures s'[i].member != s'[j].member {
      InsertIndex(s, k, x, i);
      InsertIndex(s, k, x, j);
    }
    forall q | q in m' ensures HasPair(s', m', q) {
      if q != x.member {
        assert HasPair(s, m, q);
        var j :| 0 <= j < |s| && s[j] == Item(m[q], q);
        InsertIndex(s, k, x, if j < k then j else j + 1);
      } else {
        InsertIndex(s, k, x, k);
      }
    }
  }

  /** A second pair of a member agrees with no map. */
  lemma TwiceDisagrees(s: seq<Item>, s': seq<Item>, m: map<string, real>, m': map<string, real>, x: Item)
    requires Agrees(s, m) && InsertedInto(s, s', x) && x.member in m
    ensures !Agrees(s', m')
  {
    var k :| 0 <= k <= |s| && s' == InsertAt(s, k, x);
    assert HasPair(s, m, x.member);
    var j :| 0 <= j < |s| && s[j] == Item(m[x.member], x.member);
    InsertIndex(s, k, x, k);
    InsertIndex(s, k, x, if j < k then j else j + 1);
  }

  lemma RemoveIndex(s: seq<Item>, k: nat, j: nat)
    requires k < |s| && j + 1 < |s|
    ensures RemoveAt(s, k)[j] == s[if j < k then j else j + 1]
  {
  }

  lemma AgreesRemove(s: seq<Item>, s': seq<Item>, m: map<string, real>, x: Item)
    requires Agrees(s, m) && RemovedFrom(s, s', x)
    ensures Agrees(s', m - {x.member})
  {
    var k :| 0 <= k < |s| && s[k] == x && s' == RemoveAt(s, k);
    var m' := m - {x.member};
    forall i | 0 <= i < |s'| ensures s'[i].member in m' && m'[s'[i].member] == s'[i].score {
      RemoveIndex(s, k, i);
    }
    forall i, j | 0 <= i < j < |s'| ensures s'[i].member != s'[j].member {
      RemoveIndex(s, k, i);
      RemoveIndex(s, k, j);
    }
    forall q | q in m' ensures HasPair(s', m', q) {
      assert HasPair(s, m, q);
      var j :| 0 <= j < |s| && s[j] == Item(m[q], q);
      RemoveIndex(s, k, if j < k then j else j - 1);
    }
  }

  lemma AgreesEmpty()
    ensures Agrees([], map[])
  {
  }

  lemma AgreesMember(s: seq<Item>, m: map<string, real>, member: string)
    requires Agrees(s, m) && member in m
    ensures Item(m[member], member) in s
  {
    assert HasPair(s, m, member);
  }

  // ---- the index interface -----------------------------------------------------------------

  datatype OrderedIndex = BTree(tree: BTreeIndex) | SkipList(list: SkipListIndex)

  ghost function Object(ix: OrderedIndex): object {
    match ix case BTree(t) => t case SkipList(l) => l
  }

  ghost function Footprint(ix: OrderedIndex): set<object>
    reads Object(ix)
  {
    match ix case BTree(t) => {t} + t.snap.Keys case SkipList(l) => {l} + l.snap.Keys
  }

  ghost predicate IndexOK(ix: OrderedIndex)
    reads Footprint(ix), Object(ix)
  {
    match ix case BTree(t) => t.Valid() case SkipList(l) => l.Valid()
  }

  ghost function IndexContents(ix: OrderedIndex): seq<Item>
    reads Object(ix)
  {
    match ix
    case BTree(t) => if |t.levels| > 0 then t.Contents() else []
    case SkipList(l) => if |l.nodes| > 0 then l.Items() else []
  }

  /** Nothing in the tree ties; a skip list does not mind. */
  ghost predicate Strict(ix: OrderedIndex)
    reads Object(ix)
  {
    ix.BTree? ==> |ix.tree.levels| > 0 && ix.tree.NoTies()
  }

  /** Removal finds the pair. */
  ghost predicate Reaches(ix: OrderedIndex, x: Item)
    reads Object(ix)
  {
    match ix
    case BTree(t) => |t.levels| > 0 && Findable(t.levels[0], x)
    case SkipList(l) => x in IndexContents(ix)
  }

  /** The leaf of the tree that the score leads to has a pair of the member, which Add would change in place. */
  ghost predicate Clashes(ix: OrderedIndex, score: real, member: string)
    reads Object(ix)
  {
    ix.BTree? && |ix.tree.levels| > 0 && HomeHolds(ix.tree.levels[0], score, member)
  }

  /** Both indexes put a pair among the others. */
  method IndexAdd(ix: OrderedIndex, score: real, member: string, height: nat) returns (r: int)
    requires IndexOK(ix) && member != "" && 1 <= height <= 32 && !Clashes(ix, score, member)
    requires ix.SkipList? ==> |IndexContents(ix)| + 1 < TWO_32
    modifies Footprint(ix)
    ensures IndexOK(ix) && fresh(Footprint(ix) - old(Footprint(ix))) && r == 1
    ensures InsertedInto(old(IndexContents(ix)), IndexContents(ix), Item(score, member))
    ensures old(Strict(ix)) && NoTie(old(IndexContents(ix)), score) ==> Strict(ix)
  {
    hide Core, Sizes, Flat, Tokens, OrderIff, View;
    match ix
    case BTree(t) =>
      r := t.Add(score, member);
    case SkipList(l) =>
      l.Insert(score, member, height);
      r := 1;
  }

  /** Both indexes take out the pair if they find it. */
  method IndexRemove(ix: OrderedIndex, score: real, member: string) returns (r: int)
    requires IndexOK(ix)
    modifies Footprint(ix)
    ensures IndexOK(ix) && fresh(Footprint(ix) - old(Footprint(ix))) && Footprint(ix) == old(Footprint(ix))
    ensures r == if old(Reaches(ix, Item(score, member))) then 1 else 0
    ensures r == 1 ==> RemovedFrom(old(IndexContents(ix)), IndexContents(ix), Item(score, member))
    ensures r == 0 ==> IndexContents(ix) == old(IndexContents(ix))
    ensures r == 0 ==> forall sc, k :: Clashes(ix, sc, k) == old(Clashes(ix, sc, k))
    ensures old(Strict(ix)) ==> Strict(ix)
  {
    match ix
    case BTree(t) =>
      hide Core, Sizes, Flat, Tokens;
      r := t.RemoveByScore(score, member);
    case SkipList(l) =>
      ghost var s := l.Items();
      assert WeaklySorted(s);
      RemovedIsSortedRemove(s, Item(score, member));
      r := l.RemoveByScore(score, member);
  }

  lemma RemovedIsSortedRemove(s: seq<Item>, x: Item)
    requires WeaklySorted(s)
    ensures if x in s then RemovedFrom(s, SortedRemove(s, x), x) else SortedRemove(s, x) == s
  {
    var k := Below(s, x);
    BelowIsPrefix(s, x);
    if i :| 0 <= i < |s| && s[i] == x {
      LessTrichotomy(x, x);
      LessTrichotomy(s[k], x);
    }
  }

  method IndexRank(ix: OrderedIndex, member: string) returns (rank: int)
    requires IndexOK(ix)
    ensures rank == -1 || 0 <= rank < |IndexContents(ix)|
    ensures member != "" && rank == -1 ==>
      forall i :: 0 <= i < |IndexContents(ix)| ==> IndexContents(ix)[i].member != member
    ensures rank != -1 ==> IndexContents(ix)[rank].member == member
    ensures IndexOK(ix)
  {
    match ix
    case BTree(t) =>
      rank := t.GetRank(member);
    case SkipList(l) =>
      rank := l.GetRank(member);
  }

  /** Without ties the pairs are in order, and removal finds exactly those that are stored. */
  lemma StrictIndex(ix: OrderedIndex, m: map<string, real>, x: Item)
    requires IndexOK(ix) && Strict(ix) && Agrees(IndexContents(ix), m)
    ensures Holds(IndexContents(ix), m) && (Reaches(ix, x) <==> x in IndexContents(ix))
  {
    match ix
    case BTree(t) =>
      ContentsInOrder(true, t.levels[0]);
      StrictFindable(t.levels[0], x);
    case SkipList(l) =>
      var s := IndexContents(ix);
      assert WeaklySorted(s);
      forall i, j | 0 <= i < j < |s| ensures Less(s[i], s[j]) {
        LessTrichotomy(s[i], s[j]);
      }
  }

  // ---- the set ---------------------------------------------------------------------------------

  /** No member other than the given one has the score. */
  ghost predicate Untied(m: map<string, real>, score: real, member: string) {
    forall k :: k in m && k != member ==> m[k] != score
  }

  /** A member that is not in the map is in no leaf. */
  lemma NoClash(ix: OrderedIndex, m: map<string, real>, score: real, member: string)
    requires IndexOK(ix) && Agrees(IndexContents(ix), m) && member !in m
    ensures !Clashes(ix, score, member)
  {
    if Clashes(ix, score, member) {
      var cells := ix.tree.levels[0];
      var p := Home(View(cells), score);
      var i :| 0 <= i < |cells[p].items| && cells[p].items[i].member == member;
      FlatMember(cells, cells[p].items[i]);
    }
  }

  /** A new member: its pair goes into the index. */
  method Enter(ix: OrderedIndex, score: real, member: string, height: nat, ghost m: map<string, real>) returns (r: int)
    requires IndexOK(ix) && Agrees(IndexContents(ix), m) && member != "" && member !in m && 1 <= height <= 32
    requires ix.SkipList? ==> |m| + 1 < TWO_32
    modifies Footprint(ix)
    ensures IndexOK(ix) && fresh(Footprint(ix) - old(Footprint(ix)))
    ensures Agrees(IndexContents(ix), m[member := score]) && r == 1
    ensures old(Strict(ix)) && Untied(m, score, member) ==> Strict(ix)
  {
    hide IndexOK, IndexContents, Strict, Clashes;
    ghost var s := IndexContents(ix);
    AgreesCount(s, m);
    NoClash(ix, m, score, member);
    r := IndexAdd(ix, score, member, height);
    AgreesInsert(s, IndexContents(ix), m, Item(score, member));
  }

  lemma MoveMap(m: map<string, real>, member: string, score: real)
    requires member in m
    ensures (m - {member})[member := score] == m[member := score] && |m - {member}| < |m|
  {
    assert (m - {member}).Keys == m.Keys - {member};
  }

  /** A stored member with a new score: its pair leaves the index, if it is found, and the new pair enters. Map and
      index go on agreeing exactly if it is found. */
  method Move(ix: OrderedIndex, oldScore: real, score: real, member: string, height: nat, ghost m: map<string, real>)
    requires IndexOK(ix) && Agrees(IndexContents(ix), m) && member != "" && member in m && m[member] == oldScore
    requires 1 <= height <= 32 && (ix.SkipList? ==> |m| + 1 < TWO_32)
    requires !Reaches(ix, Item(oldScore, member)) ==> !Clashes(ix, score, member)
    modifies Footprint(ix)
    ensures IndexOK(ix) && fresh(Footprint(ix) - old(Footprint(ix)))
    ensures Agrees(IndexContents(ix), m[member := score]) <==> old(Reaches(ix, Item(oldScore, member)))
    ensures old(Strict(ix)) && Untied(m, score, member) ==> Strict(ix)
  {
    hide IndexOK, IndexContents, Strict, Clashes, Reaches, Agrees;
    ghost var s, x := IndexContents(ix), Item(score, member);
    MoveMap(m, member, score);
    AgreesCount(s, m);
    if old(Strict(ix)) {
      StrictIndex(ix, m, Item(oldScore, member));
      AgreesMember(s, m, member);
    }
    var removed := IndexRemove(ix, oldScore, member);
    ghost var mid := IndexContents(ix);
    if removed == 1 {
      AgreesRemove(s, mid, m, Item(oldScore, member));
      AgreesCount(mid, m - {member});
      NoClash(ix, m - {member}, score, member);
      NoTieIn(mid, m - {member}, score, member);
    }
    var added := IndexAdd(ix, score, member, height);
    if removed == 1 {
      AgreesInsert(mid, IndexContents(ix), m - {member}, x);
    } else {
      TwiceDisagrees(s, IndexContents(ix), m, m[member := score], x);
    }
  }

  lemma NoTieIn(s: seq<Item>, m: map<string, real>, score: real, member: string)
    requires Agrees(s, m) && member !in m
    ensures Untied(m, score, member) ==> NoTie(s, score)
  {
  }

  class SortedSet {
    const index: OrderedIndex
    var memberScore: map<string, real>

    /** A whole index apart from the set itself. */
    ghost predicate Whole()
      reads this, Footprint(index), Object(index)
    {
      this !in Footprint(index) && "" !in memberScore && IndexOK(index)
    }

    /** The index holds exactly the pairs of the map. */
    ghost predicate Valid()
      reads this, Footprint(index), Object(index)
    {
      Whole() && Agrees(IndexContents(index), memberScore)
    }

    constructor WithBTree(degree: int)
      requires degree >= 3
      ensures Valid() && Strict(index) && memberScore == map[] && index.BTree? && fresh(Footprint(index))
    {
      hide Core, Sizes, Flat, Tokens, Agrees, Sorted;
      var t := new BTreeIndex(degree);
      index, memberScore := BTree(t), map[];
      new;
      AgreesEmpty();
    }

    constructor WithSkipList()
      ensures Valid() && Strict(index) && memberScore == map[] && index.SkipList? && fresh(Footprint(index))
    {
      var l := new SkipListIndex();
      index, memberScore := SkipList(l), map[];
      new;
      AgreesEmpty();
    }

    method SetMap(m: map<string, real>)
      requires this !in Footprint(index) && IndexOK(index) && "" !in m
      modifies `memberScore
      ensures Whole() && memberScore == m && Footprint(index) == old(Footprint(index))
      ensures Valid() <==> Agrees(old(IndexContents(index)), m)
      ensures Strict(index) == old(Strict(index))
    {
      hide Agrees, Shape;
      memberScore := m;
    }

    /** The member is stored with another score, so that ZADD moves it. */
    ghost predicate Moves(score: real, member: string)
      reads this
    {
      member in memberScore && memberScore[member] != score
    }

    /** Removal finds the pair of a member. */
    ghost predicate CanFind(member: string)
      reads this, Object(index)
    {
      member in memberScore && Reaches(index, Item(memberScore[member], member))
    }

    /** ZADD: sets the score of a member; 1 exactly for a new one. Map and index go on agreeing exactly if a member that
        is moved can be found, and always over a skip list or without ties. */
    method Add(score: real, member: string, height: nat) returns (r: int)
      requires Valid() && 1 <= height <= 32 && (index.SkipList? ==> |memberScore| + 1 < TWO_32)
      requires Moves(score, member) && !CanFind(member) ==> !Clashes(index, score, member)
      modifies this, Footprint(index)
      ensures Whole() && fresh(Footprint(index) - old(Footprint(index)))
      ensures Valid() <==> old(Moves(score, member) ==> CanFind(member))
      ensures old(Strict(index)) && Untied(old(memberScore), score, member) ==> Strict(index)
      ensures member == "" ==> memberScore == old(memberScore)
      ensures member != "" ==> memberScore == old(memberScore)[member := score]
      ensures r == if member == "" || member in old(memberScore) then 0 else 1
    {
      hide IndexOK, IndexContents, Strict, Clashes, Reaches, Agrees;
      if member == "" {
        return 0;
      }
      var m := memberScore[member := score];
      if member in memberScore {
        if memberScore[member] == score {
          assert m == memberScore;
          return 0;
        }
        Move(index, memberScore[member], score, member, height, memberScore);
        SetMap(m);
        return 0;
      }
      r := Enter(index, score, member, height, memberScore);
      if r == 1 {
        SetMap(m);
      }
    }

    /** ZSCORE. */
    function GetScore(member: string): (real, bool)
      reads this
    {
      if member in memberScore then (memberScore[member], true) else (0.0, false)
    }

    /** ZRANK: the place of the member's pair, which without ties is the number of smaller pairs. */
    method GetRank(member: string) returns (rank: int)
      requires Valid()
      ensures member !in memberScore ==> rank == -1
      ensures member in memberScore ==>
        0 <= rank < |IndexContents(index)| && IndexContents(index)[rank] == Item(memberScore[member], member)
      ensures Strict(index) && member in memberScore ==> rank == Rank(memberScore, member)
      ensures Valid()
    {
      rank := IndexRank(index, member);
      RankOf(IndexContents(index), memberScore, member, rank);
      if Strict(index) && rank != -1 {
        StrictIndex(index, memberScore, IndexContents(index)[rank]);
        PositionIsRank(IndexContents(index), memberScore, rank);
      }
    }

    /** Succeeds exactly if the pair of the member is found; map and index agree either way. */
    method Remove(member: string) returns (r: int)
      requires Valid()
      modifies this, Footprint(index)
      ensures Valid() && fresh(Footprint(index) - old(Footprint(index)))
      ensures r == if old(CanFind(member)) then 1 else 0
      ensures memberScore == if r == 1 then old(memberScore) - {member} else old(memberScore)
      ensures old(Strict(index)) ==> Strict(index)
    {
      hide IndexOK, IndexContents, Strict, Clashes, Reaches, Agrees;
      if member == "" || member !in memberScore {
        return 0;
      }
      ghost var s, x := IndexContents(index), Item(memberScore[member], member);
      var m := memberScore - {member};
      r := IndexRemove(index, memberScore[member], member);
      if r == 1 {
        AgreesRemove(s, IndexContents(index), memberScore, x);
        SetMap(m);
      }
    }
  }

  /** Over a skip list, and over a tree without ties, every member can be found. */
  lemma AllFound(ss: SortedSet, member: string)
    requires ss.Valid() && Strict(ss.index) && member in ss.memberScore
    ensures ss.CanFind(member)
  {
    AgreesMember(IndexContents(ss.index), ss.memberScore, member);
    StrictIndex(ss.index, ss.memberScore, Item(ss.memberScore[member], member));
  }

  lemma RankOf(s: seq<Item>, m: map<string, real>, member: string, rank: int)
    requires Agrees(s, m) && (rank == -1 || 0 <= rank < |s|)
    requires "" !in m && (member != "" && rank == -1 ==> forall i :: 0 <= i < |s| ==> s[i].member != member)
    requires rank != -1 ==> s[rank].member == member
    ensures rank == -1 <==> member !in m
    ensures rank != -1 ==> s[rank] == Item(m[member], member)
  {
    if member in m {
      AgreesMember(s, m, member);
    }
  }

  // ---- whole runs ----------------------------------------------------------------------------------

  datatype Op = OpAdd(score: real,
                      member: string) | OpRemove(member: string) | OpRank(member: string) | OpScore(member: string)

  datatype Reply = Number(n: int) | Score(found: bool, score: real)

  /** The sorted set as a map alone. */
  ghost function NextMap(m: map<string, real>, op: Op): map<string, real> {
    match op
    case OpAdd(score, member) => if member == "" then m else m[member := score]
    case OpRemove(member) => m - {member}
    case _ => m
  }

  ghost function ReplyTo(m: map<string, real>, op: Op): Reply {
    match op
    case OpAdd(_, member) => Number(if member == "" || member in m then 0 else 1)
    case OpRemove(member) => Number(if member in m then 1 else 0)
    case OpRank(member) => Number(if member in m then Rank(m, member) else -1)
    case OpScore(member) => if member in m then Score(true, m[member]) else Score(false, 0.0)
  }

  ghost function Replies(m: map<string, real>, ops: seq<Op>): seq<Reply>
    decreases |ops|
  {
    if ops == [] then [] else [ReplyTo(m, ops[0])] + Replies(NextMap(m, ops[0]), ops[1..])
  }

  /** No addition of the run gives two members the same score. */
  ghost predicate TieFree(m: map<string, real>, ops: seq<Op>)
    decreases |ops|
  {
    ops == [] || ((ops[0].OpAdd? ==> Untied(m, ops[0].score, ops[0].member)) && TieFree(NextMap(m, ops[0]), ops[1..]))
  }

  lemma NextMapSize(m: map<string, real>, op: Op)
    ensures |NextMap(m, op)| <= |m| + 1
  {
    match op
    case OpAdd(score, member) =>
      assert m[member := score].Keys == m.Keys + {member};
    case OpRemove(member) =>
      assert (m - {member}).Keys == m.Keys - {member};
    case _ =>
  }

  method StepAdd(ss: SortedSet, score: real, member: string, height: nat) returns (n: int)
    requires ss.Valid() && Strict(ss.index) && 1 <= height <= 32
    requires (ss.index.SkipList? ==> |ss.memberScore| + 1 < TWO_32)
    requires ss.index.BTree? ==> Untied(ss.memberScore, score, member)
    modifies ss, Footprint(ss.index)
    ensures ss.Valid() && Strict(ss.index) && fresh(Footprint(ss.index) - old(Footprint(ss.index)))
    ensures ss.memberScore == NextMap(old(ss.memberScore), OpAdd(score, member))
    ensures Number(n) == ReplyTo(old(ss.memberScore), OpAdd(score, member))
  {
    hide IndexOK, IndexContents, Agrees, Reaches, Clashes, Untied;
    if member in ss.memberScore {
      AllFound(ss, member);
    }
    n := ss.Add(score, member, height);
  }

  method StepRemove(ss: SortedSet, member: string) returns (n: int)
    requires ss.Valid() && Strict(ss.index)
    modifies ss, Footprint(ss.index)
    ensures ss.Valid() && Strict(ss.index) && fresh(Footprint(ss.index) - old(Footprint(ss.index)))
    ensures ss.memberScore == NextMap(old(ss.memberScore), OpRemove(member))
    ensures Number(n) == ReplyTo(old(ss.memberScore), OpRemove(member))
  {
    hide IndexOK, IndexContents, Agrees, Reaches;
    if member in ss.memberScore {
      AllFound(ss, member);
    } else {
      assert ss.memberScore - {member} == ss.memberScore;
    }
    n := ss.Remove(member);
  }

  method Step(ss: SortedSet, op: Op, height: nat) returns (reply: Reply)
    requires ss.Valid() && Strict(ss.index) && 1 <= height <= 32
    requires (ss.index.SkipList? ==> |ss.memberScore| + 1 < TWO_32)
    requires ss.index.BTree? && op.OpAdd? ==> Untied(ss.memberScore, op.score, op.member)
    modifies ss, Footprint(ss.index)
    ensures ss.Valid() && Strict(ss.index) && fresh(Footprint(ss.index) - old(Footprint(ss.index)))
    ensures ss.memberScore == NextMap(old(ss.memberScore), op) && reply == ReplyTo(old(ss.memberScore), op)
  {
    hide IndexOK, IndexContents, Agrees, Rank, Untied;
    if op.OpAdd? {
      var n := StepAdd(ss, op.score, op.member, height);
      reply := Number(n);
    } else if op.OpRemove? {
      var n := StepRemove(ss, op.member);
      reply := Number(n);
    } else {
      reply := Query(ss, op);
    }
  }

  method Query(ss: SortedSet, op: Op) returns (reply: Reply)
    requires ss.Valid() && Strict(ss.index) && !op.OpAdd? && !op.OpRemove?
    ensures reply == ReplyTo(ss.memberScore, op) && ss.Valid()
  {
    hide IndexOK, IndexContents, Agrees;
    if op.OpRank? {
      var n := ss.GetRank(op.member);
      reply := Number(n);
    } else {
      var r := ss.GetScore(op.member);
      reply := Score(r.1, r.0);
    }
  }

  /** Every run over either index gives the replies of the map alone; over the tree, if the run is free of ties. */
  method Run(ss: SortedSet, ops: seq<Op>, heights: seq<nat>) returns (replies: seq<Reply>)
    requires ss.Valid() && Strict(ss.index) && |heights| == |ops|
    requires ss.index.SkipList? ==> |ss.memberScore| + |ops| + 1 < TWO_32
    requires forall i :: 0 <= i < |heights| ==> 1 <= heights[i] <= 32
    requires ss.index.BTree? ==> TieFree(ss.memberScore, ops)
    modifies ss, Footprint(ss.index)
    ensures ss.Valid() && Strict(ss.index) && fresh(Footprint(ss.index) - old(Footprint(ss.index)))
    ensures replies == Replies(old(ss.memberScore), ops)
    decreases |ops|
  {
    hide Agrees, IndexOK, Rank, IndexContents;
    if ops == [] {
      return [];
    }
    NextMapSize(ss.memberScore, ops[0]);
    var reply := Step(ss, ops[0], heights[0]);
    var rest := Run(ss, ops[1..], heights[1..]);
    replies := [reply] + rest;
  }

  /** A B+ tree of any degree and a skip list with any levels answer a run without ties alike. */
  method SameAnswers(degree: int, ops: seq<Op>, heights: seq<nat>) returns (byTree: seq<Reply>, byList: seq<Reply>)
    requires degree >= 3 && |heights| == |ops| && |ops| + 1 < TWO_32 && TieFree(map[], ops)
    requires forall i :: 0 <= i < |heights| ==> 1 <= heights[i] <= 32
    ensures byTree == byList == Replies(map[], ops)
  {
    var tree := new SortedSet.WithBTree(degree);
    byTree := Run(tree, ops, heights);
    var list := new SortedSet.WithSkipList();
    byList := Run(list, ops, heights);
  }
}
