/** The tree above the twigs: incremental resync, eviction and pruning, measured against the
    recursive Merkle value of the list of twig roots. */
module UpperTree {
  import opened Basics
  import opened Merkle

  datatype Pos = Pos(level: nat, n: nat)

  /** `max_n_at_level`: the ancestor of the youngest twig. */
  function MaxN(youngest: nat, level: nat): nat
    requires level >= TWIG_ROOT_LEVEL
  {
    Shr(youngest, level - TWIG_ROOT_LEVEL)
  }

  /** The first node a pruning up to twig `end` keeps at a level. */
  function Lo(end: nat, level: nat): nat
    requires level >= TWIG_ROOT_LEVEL
  {
    var e := Shr(end, level - TWIG_ROOT_LEVEL);
    if e % 2 != 0 && level != TWIG_ROOT_LEVEL then e - 1 else e
  }

  /** Root of twig n: the active twig's, else the one stored when the twig was evicted. */
  function TwigRoot(nodes: map<Pos, Digest>, twigs: map<nat, Digest>, n: nat): Option<Digest> {
    if n in twigs then Some(twigs[n])
    else if Pos(TWIG_ROOT_LEVEL, n) in nodes then Some(nodes[Pos(TWIG_ROOT_LEVEL, n)])
    else None
  }

  /** The tree knows the roots of all twigs from `end` on, and of no twig past the youngest. */
  ghost predicate Rooted(nodes: map<Pos, Digest>, twigs: map<nat, Digest>, roots: seq<Digest>, end: nat) {
    && (forall n {:trigger TwigRoot(nodes, twigs, n)} ::
      end <= n < |roots| ==> TwigRoot(nodes, twigs, n) == Some(roots[n]))
    && (forall n {:trigger TwigRoot(nodes, twigs, n)} :: |roots| <= n ==> TwigRoot(nodes, twigs, n) == None)
  }

  /** Node (level, n) holds its Merkle value. */
  ghost predicate Right(nodes: map<Pos, Digest>, roots: seq<Digest>, nul: Digest, level: nat, n: nat)
    requires level >= TWIG_ROOT_LEVEL
  {
    Pos(level, n) in nodes && nodes[Pos(level, n)] == M(roots, nul, level, n)
  }

  /** Every node of a level that pruning has left is right, and so is the null node after it. */
  ghost predicate LevelRight(nodes: map<Pos, Digest>, roots: seq<Digest>, nul: Digest, end: nat, level: nat)
    requires level >= TWIG_ROOT_LEVEL && roots != []
  {
    forall n: nat {:trigger Right(nodes, roots, nul, level, n)} ::
      Lo(end, level) <= n <= MaxN(|roots| - 1, level) + 1 ==> Right(nodes, roots, nul, level, n)
  }

  ghost predicate Consistent(nodes: map<Pos, Digest>, roots: seq<Digest>, nul: Digest, end: nat)
    requires roots != []
  {
    forall level: nat {:trigger LevelRight(nodes, roots, nul, end, level)} ::
      FIRST_LEVEL_ABOVE_TWIG <= level <= MaxLevel(|roots| - 1) ==> LevelRight(nodes, roots, nul, end, level)
  }

  /** Some listed node lies below (level, n). */
  ghost predicate Above(list: seq<nat>, k: nat, n: nat) { exists i :: i in list && Shr(i, k) == n }

  /** The work list, positions at level `from`, covers what is wrong at `level`: any kept node
      that is not right has a listed descendant. */
  ghost predicate LevelCovered(nodes: map<Pos, Digest>, roots: seq<Digest>, nul: Digest, end: nat, list: seq<nat>,
                               from: nat, level: nat)
    requires level >= from >= TWIG_ROOT_LEVEL && roots != []
  {
    forall n: nat {:trigger Right(nodes, roots, nul, level, n)} ::
      Lo(end, level) <= n <= MaxN(|roots| - 1, level) ==>
          Right(nodes, roots, nul, level, n) || Above(list, level - from, n)
  }

  ghost predicate Increasing(list: seq<nat>) { forall i, j :: 0 <= i < j < |list| ==> list[i] < list[j] }

  /** The list can be synced at a level: increasing, reaching up to the youngest twig's ancestor,
      and starting where the children are still stored. */
  ghost predicate Workable(list: seq<nat>, roots: seq<Digest>, end: nat, level: nat)
    requires level >= FIRST_LEVEL_ABOVE_TWIG && roots != []
  {
    && Increasing(list)
    && MaxN(|roots| - 1, level) in list
    && forall i :: i in list ==> i <= MaxN(|roots| - 1, level) && Lo(end, level - 1) <= 2 * i
  }

  /** The parents of a list, without repetition. */
  ghost predicate IsParents(list: seq<nat>, parents: seq<nat>) {
    && Increasing(parents)
    && (forall i :: i in list ==> i / 2 in parents)
    && (forall p :: p in parents ==> exists i :: i in list && i / 2 == p)
  }

  /** Parents of a workable list are workable one level up. */
  lemma ParentsWorkable(list: seq<nat>, parents: seq<nat>, roots: seq<Digest>, end: nat, level: nat)
    requires level >= FIRST_LEVEL_ABOVE_TWIG && roots != [] && Workable(list, roots, end, level)
    requires IsParents(list, parents)
    ensures Workable(parents, roots, end, level + 1)
  {
    var y := |roots| - 1;
    forall p | p in parents ensures p <= MaxN(y, level + 1) && Lo(end, level) <= 2 * p {
      var i :| i in list && i / 2 == p;
      assert Shr(end, level - 1 - TWIG_ROOT_LEVEL) / 2 == Shr(end, level - TWIG_ROOT_LEVEL);
    }
  }

  /** The two node maps differ at one level only. */
  ghost predicate Elsewhere(a: map<Pos, Digest>, b: map<Pos, Digest>, level: nat) {
    forall p: Pos {:trigger p in b} :: p.level != level ==> (p in a <==> p in b) && (p in a ==> a[p] == b[p])
  }

  /** What holds at other levels survives. */
  lemma OtherLevels(a: map<Pos, Digest>, b: map<Pos, Digest>, twigs: map<nat, Digest>, roots: seq<Digest>, nul: Digest,
                    end: nat, level: nat)
    requires level >= FIRST_LEVEL_ABOVE_TWIG && roots != [] && Elsewhere(a, b, level)
    ensures Rooted(a, twigs, roots, end) ==> Rooted(b, twigs, roots, end)
    ensures forall l: nat, n: nat {:trigger Right(b, roots, nul, l, n)} ::
              l >= TWIG_ROOT_LEVEL && l != level ==> Right(b, roots, nul, l, n) == Right(a, roots, nul, l, n)
  {
    if Rooted(a, twigs, roots, end) {
      forall n: nat ensures TwigRoot(b, twigs, n) == TwigRoot(a, twigs, n) {
        assert Pos(TWIG_ROOT_LEVEL, n) in b <==> Pos(TWIG_ROOT_LEVEL, n) in a;
      }
    }
    forall l: nat, n: nat | l >= TWIG_ROOT_LEVEL && l != level
      ensures Right(b, roots, nul, l, n) == Right(a, roots, nul, l, n)
    {
      assert Pos(l, n) in b <==> Pos(l, n) in a;
    }
  }

  class Tree {
    var nodes: map<Pos, Digest>
    var twigs: map<nat, Digest>
    const nul: Digest

    constructor (nul: Digest)
      ensures nodes == map[] && twigs == map[] && this.nul == nul
    {
      nodes, twigs := map[], map[];
      this.nul := nul;
    }

    /** `do_sync_job` for one node: recompute it from its two children. */
    method SyncNode(level: nat, i: nat, ghost roots: seq<Digest>, ghost end: nat)
      requires level >= FIRST_LEVEL_ABOVE_TWIG && roots != []
      requires i <= MaxN(|roots| - 1, level) && Lo(end, level - 1) <= 2 * i
      requires Rooted(nodes, twigs, roots, end)
      requires level > FIRST_LEVEL_ABOVE_TWIG ==> LevelRight(nodes, roots, nul, end, level - 1)
      modifies this`nodes
      ensures nodes == old(nodes)[Pos(level, i) := M(roots, nul, level, i)]
    {
      if level == FIRST_LEVEL_ABOVE_TWIG {
        assert Shr(|roots| - 1, 1) == (|roots| - 1) / 2;
        var left := TwigRoot(nodes, twigs, 2 * i);
        var right := TwigRoot(nodes, twigs, 2 * i + 1);
        nodes := nodes[Pos(level, i) := Node(level - 1, left.value, if right.Some? then right.value else nul)];
      } else {
        assert Right(nodes, roots, nul, level - 1, 2 * i) && Right(nodes, roots, nul, level - 1, 2 * i + 1);
        nodes := nodes[Pos(level, i) := Node(level - 1, nodes[Pos(level - 1, 2 * i)],
            nodes[Pos(level - 1, 2 * i + 1)])];
      }
    }

    /** `sync_nodes_by_level`: mark the end of the level with null nodes, recompute the listed
        nodes, and hand back their parents. */
    method SyncNodesByLevel(level: nat, list: seq<nat>, youngest: nat, ghost roots: seq<Digest>, ghost end: nat)
      returns (parents: seq<nat>)
      requires level >= FIRST_LEVEL_ABOVE_TWIG && |roots| == youngest + 1
      requires Workable(list, roots, end, level) && Rooted(nodes, twigs, roots, end)
      requires level > FIRST_LEVEL_ABOVE_TWIG ==> LevelRight(nodes, roots, nul, end, level - 1)
      modifies this`nodes
      ensures nodes == Marked(old(nodes), nul, youngest, level) + Recomputed(list, roots, nul, level)
      ensures IsParents(list, parents)
    {
      ghost var before := nodes;
      nodes := nodes[Pos(level, MaxN(youngest, level)) := NullNode(nul, level)];
      nodes := nodes[Pos(level, MaxN(youngest, level) + 1) := NullNode(nul, level)];
      assert nodes == Marked(before, nul, youngest, level) + Recomputed([], roots, nul, level);
      for k := 0 to |list|
        invariant nodes == Marked(before, nul, youngest, level) + Recomputed(list[..k], roots, nul, level)
      {
        StillSyncable(before, nodes, twigs, roots, nul, end, list[..k], level);
        assert list[k] in list && list[..k + 1] == list[..k] + [list[k]];
        SyncNode(level, list[k], roots, end);
        RecomputedOneMore(before, roots, nul, list[..k], level, list[k]);
      }
      assert list[..|list|] == list;
      parents := Halve(list);
    }

    /** `evict_twigs`, its second half: an evicted twig leaves its root behind as a node. */
    method EvictTwigs(from: nat, to: nat)
      requires from <= to && forall t: nat :: from <= t < to ==> t in twigs
      modifies this
      ensures twigs == old(twigs) - set t | t in old(twigs) && from <= t < to
      ensures forall n: nat {:trigger TwigRoot(nodes, twigs, n)} ::
                TwigRoot(nodes, twigs, n) == TwigRoot(old(nodes), old(twigs), n)
      ensures Elsewhere(old(nodes), nodes, TWIG_ROOT_LEVEL)
    {
      for t := from to to
        invariant twigs == old(twigs) - set s | s in old(twigs) && from <= s < t
        invariant forall n: nat {:trigger TwigRoot(nodes, twigs, n)} ::
                    TwigRoot(nodes, twigs, n) == TwigRoot(old(nodes), old(twigs), n)
        invariant Elsewhere(old(nodes), nodes, TWIG_ROOT_LEVEL)
      {
        assert TwigRoot(nodes, twigs, t) == TwigRoot(old(nodes), old(twigs), t);
        ghost var (nodes0, twigs0) := (nodes, twigs);
        nodes := nodes[Pos(TWIG_ROOT_LEVEL, t) := twigs[t]];
        twigs := twigs - {t};
        forall n: nat ensures TwigRoot(nodes, twigs, n) == TwigRoot(old(nodes), old(twigs), n) {
          assert TwigRoot(nodes0, twigs0, n) == TwigRoot(old(nodes), old(twigs), n);
        }
      }
    }

    /** `remove_useless_nodes`: level by level, delete what lies left of the edge. */
    method RemoveUselessNodes(start: nat, end: nat, maxLevel: nat)
      requires maxLevel >= TWIG_ROOT_LEVEL
      modifies this`nodes
      ensures nodes == Without(old(nodes), start, end, maxLevel + 1)
    {
      var (level, curStart, curEnd) := (TWIG_ROOT_LEVEL, start, end);
      while level <= maxLevel
        invariant TWIG_ROOT_LEVEL <= level <= maxLevel + 1
        invariant curStart == Shr(start, level - TWIG_ROOT_LEVEL) && curEnd == Shr(end, level - TWIG_ROOT_LEVEL)
        invariant nodes == Without(old(nodes), start, end, level)
      {
        var endBack := if curEnd % 2 != 0 && level != TWIG_ROOT_LEVEL then curEnd - 1 else curEnd;
        var i := if curStart == 0 then 0 else curStart - 1;
        ghost var first := i;
        while i < endBack
          invariant first <= i && (i <= endBack || i == first)
          invariant nodes == map p |
                               p in Without(old(nodes), start, end, level) && !(p.level == level && first <= p.n < i)
                               :: old(nodes)[p]
        {
          nodes := nodes - {Pos(level, i)};
          i := i + 1;
        }
        level, curStart, curEnd := level + 1, curStart / 2, curEnd / 2;
      }
    }

    /** `get_edge_nodes`: the first kept node of every level, each still holding its value. */
    method GetEdgeNodes(end: nat, youngest: nat, ghost roots: seq<Digest>) returns (edge: seq<(Pos, Digest)>)
      requires 1 <= youngest && end <= youngest && |roots| == youngest + 1 && Consistent(nodes, roots, nul, end)
      requires end !in twigs && Rooted(nodes, twigs, roots, end)
      ensures |edge| == MaxLevel(youngest) - TWIG_ROOT_LEVEL + 1
      ensures forall k :: 0 <= k < |edge| ==>
                var l := TWIG_ROOT_LEVEL + k;
                edge[k] == (Pos(l, Lo(end, l)), M(roots, nul, l, Lo(end, l)))
    {
      edge := [];
      var (level, curEnd) := (TWIG_ROOT_LEVEL, end);
      assert TwigRoot(nodes, twigs, end) == Some(roots[end]);
      while level <= MaxLevel(youngest)
        invariant TWIG_ROOT_LEVEL <= level <= MaxLevel(youngest) + 1
        invariant curEnd == Shr(end, level - TWIG_ROOT_LEVEL) && |edge| == level - TWIG_ROOT_LEVEL
        invariant forall k :: 0 <= k < |edge| ==>
                    edge[k] == (Pos(TWIG_ROOT_LEVEL + k, Lo(end, TWIG_ROOT_LEVEL + k)),
                        M(roots, nul, TWIG_ROOT_LEVEL + k, Lo(end, TWIG_ROOT_LEVEL + k)))
      {
        var endBack := if curEnd % 2 != 0 && level != TWIG_ROOT_LEVEL then curEnd - 1 else curEnd;
        if level > TWIG_ROOT_LEVEL {
          ShrMonotone(end, youngest, level - TWIG_ROOT_LEVEL);
          assert LevelRight(nodes, roots, nul, end, level);
          assert Right(nodes, roots, nul, level, endBack);
        }
        edge := edge + [(Pos(level, endBack), nodes[Pos(level, endBack)])];
        level, curEnd := level + 1, curEnd / 2;
      }
    }

    /** `sync_upper_nodes`: from a covering work list it re-establishes every node up to the root
        and returns the recursive Merkle root over all twig roots, padded with null twigs. The
        root level follows the youngest twig, so the tree may have gained levels. */
    method SyncUpperNodes(list0: seq<nat>, youngest: nat, ghost roots: seq<Digest>, ghost end: nat)
      returns (list: seq<nat>, root: Digest)
      requires 1 <= youngest && end <= youngest && |roots| == youngest + 1
      requires Syncable(nodes, twigs, roots, nul, end, list0)
      modifies this`nodes
      ensures Consistent(nodes, roots, nul, end) && Rooted(nodes, twigs, roots, end)
      ensures root == M(roots, nul, MaxLevel(youngest), 0)
    {
      list := list0;
      var maxLevel := MaxLevel(youngest);
      if list != [] {
        var level := FIRST_LEVEL_ABOVE_TWIG;
        while level <= maxLevel
          invariant FIRST_LEVEL_ABOVE_TWIG <= level
          invariant Rooted(nodes, twigs, roots, end) && Workable(list, roots, end, level)
          invariant forall l: nat {:trigger LevelRight(nodes, roots, nul, end, l)} ::
                      FIRST_LEVEL_ABOVE_TWIG <= l < level ==> LevelRight(nodes, roots, nul, end, l)
          invariant CoveredFrom(nodes, roots, nul, end, list, level)
        {
          ghost var before := nodes;
          var parents := SyncNodesByLevel(level, list, youngest, roots, end);
          OneLevelUp(before, nodes, twigs, roots, nul, end, list, parents, level);
          list, level := parents, level + 1;
        }
      }
      RootKept(youngest, end);
      assert LevelRight(nodes, roots, nul, end, maxLevel);
      assert Right(nodes, roots, nul, maxLevel, 0);
      root := nodes[Pos(maxLevel, 0)];
    }
  }

  // ---------------------------------------------------------------- eviction and pruning

  /** Where the deletion of a pruning from twig `start` begins at a level. */
  function Back(start: nat, level: nat): nat
    requires level >= TWIG_ROOT_LEVEL
  {
    var s := Shr(start, level - TWIG_ROOT_LEVEL);
    if s == 0 then 0 else s - 1
  }

  predicate Useless(start: nat, end: nat, p: Pos, limit: nat) {
    TWIG_ROOT_LEVEL <= p.level < limit && Back(start, p.level) <= p.n < Lo(end, p.level)
  }

  /** The nodes without the useless ones below level `limit`. */
  function Without(nodes: map<Pos, Digest>, start: nat, end: nat, limit: nat): map<Pos, Digest> {
    map p | p in nodes && !Useless(start, end, p, limit) :: nodes[p]
  }

  lemma LoMonotone(end0: nat, end: nat, level: nat)
    requires level >= TWIG_ROOT_LEVEL && end0 <= end
    ensures Lo(end0, level) <= Lo(end, level)
  {
    ShrMonotone(end0, end, level - TWIG_ROOT_LEVEL);
  }

  /** Everything stored lies at or right of the edge for twig `end`. */
  ghost predicate Edged(nodes: map<Pos, Digest>, end: nat, limit: nat) {
    forall p {:trigger p in nodes} :: p in nodes && TWIG_ROOT_LEVEL <= p.level < limit ==> Lo(end, p.level) <= p.n
  }

  /** Pruning from where the last pruning ended leaves nothing left of the new edge, and so no twig root
      below `end`. */
  lemma PruneForgets(nodes: map<Pos, Digest>, twigs: map<nat, Digest>, start: nat, end: nat, limit: nat)
    requires start <= end && limit > TWIG_ROOT_LEVEL && Edged(nodes, start, limit)
    requires forall t :: t in twigs ==> end <= t
    ensures Edged(Without(nodes, start, end, limit), end, limit)
    ensures forall t: nat :: t < end ==> TwigRoot(Without(nodes, start, end, limit), twigs, t).None?
  {
    var b := Without(nodes, start, end, limit);
    forall p | p in b && TWIG_ROOT_LEVEL <= p.level < limit ensures Lo(end, p.level) <= p.n {
      assert p in nodes && Lo(start, p.level) <= p.n && !Useless(start, end, p, limit);
    }
    forall t: nat | t < end ensures TwigRoot(b, twigs, t).None? {
      assert Lo(end, TWIG_ROOT_LEVEL) == end;
      assert Pos(TWIG_ROOT_LEVEL, t) !in b;
    }
  }

  /** Pruning keeps what a tree pruned up to `end` needs: the same Merkle values, everywhere it
      may still look. */
  lemma PruneKeeps(nodes: map<Pos, Digest>, twigs: map<nat, Digest>, roots: seq<Digest>, nul: Digest,
                   start: nat, end0: nat, end: nat, limit: nat)
    requires roots != [] && end0 <= end
    requires Rooted(nodes, twigs, roots, end0) && Consistent(nodes, roots, nul, end0)
    ensures Rooted(Without(nodes, start, end, limit), twigs, roots, end)
    ensures Consistent(Without(nodes, start, end, limit), roots, nul, end)
  {
    var b := Without(nodes, start, end, limit);
    forall n: nat | end <= n || |roots| <= n ensures TwigRoot(b, twigs, n) == TwigRoot(nodes, twigs, n) { }
    forall l: nat, n: nat |
      FIRST_LEVEL_ABOVE_TWIG <= l <= MaxLevel(|roots| - 1) && Lo(end, l) <= n <= MaxN(|roots| - 1, l) + 1
      ensures Right(b, roots, nul, l, n)
    {
      LoMonotone(end0, end, l);
      assert LevelRight(nodes, roots, nul, end0, l);
      assert Right(nodes, roots, nul, l, n);
    }
  }

  /** A sync that changes only twigs whose siblings are kept cannot tell a pruned tree from one that was
      pruned less, or not at all: it needs nothing that was deleted, so it computes the same root. */
  lemma PruneTransparent(nodes: map<Pos, Digest>, twigs: map<nat, Digest>, roots: seq<Digest>, nul: Digest,
                         start: nat, end0: nat, end: nat, limit: nat, list: seq<nat>)
    requires Syncable(nodes, twigs, roots, nul, end0, list) && end0 <= end && forall i :: i in list ==> end <= 2 * i
    ensures Syncable(Without(nodes, start, end, limit), twigs, roots, nul, end, list)
  {
    var b := Without(nodes, start, end, limit);
    forall n: nat | end <= n || |roots| <= n ensures TwigRoot(b, twigs, n) == TwigRoot(nodes, twigs, n) { }
    if list == [] {
      PruneKeeps(nodes, twigs, roots, nul, start, end0, end, limit);
    } else {
      forall l: nat, n: nat |
        FIRST_LEVEL_ABOVE_TWIG <= l <= MaxLevel(|roots| - 1) && Lo(end, l) <= n <= MaxN(|roots| - 1, l)
        ensures Right(b, roots, nul, l, n) || Above(list, l - FIRST_LEVEL_ABOVE_TWIG, n)
      {
        LoMonotone(end0, end, l);
        assert LevelCovered(nodes, roots, nul, end0, list, FIRST_LEVEL_ABOVE_TWIG, l);
        assert Right(nodes, roots, nul, l, n) || Above(list, l - FIRST_LEVEL_ABOVE_TWIG, n);
      }
    }
  }

  /** Pruning never reaches the root: at its level the only node is the first kept one. */
  lemma RootKept(youngest: nat, end: nat)
    requires 1 <= youngest && end <= youngest
    ensures MaxLevel(youngest) >= FIRST_LEVEL_ABOVE_TWIG
    ensures Lo(end, MaxLevel(youngest)) == 0 && MaxN(youngest, MaxLevel(youngest)) == 0
  {
    ShrVanishes(youngest, BitLen(youngest));
    ShrMonotone(end, youngest, BitLen(youngest));
  }

  /** Everything the tree needs before a sync: its twig roots, and a work list that covers every
      level; an empty list claims that nothing changed. */
  ghost predicate Syncable(nodes: map<Pos, Digest>, twigs: map<nat, Digest>, roots: seq<Digest>, nul: Digest, end: nat,
                           list: seq<nat>) {
    && roots != [] && Rooted(nodes, twigs, roots, end)
    && (list == [] ==> Consistent(nodes, roots, nul, end))
    && (list != [] ==> Workable(list, roots, end, FIRST_LEVEL_ABOVE_TWIG) &&
                       CoveredFrom(nodes, roots, nul, end, list, FIRST_LEVEL_ABOVE_TWIG))
  }

  /** Every level from `from` on is covered by the list, taken as positions at level `from`. */
  ghost predicate CoveredFrom(nodes: map<Pos, Digest>, roots: seq<Digest>, nul: Digest, end: nat, list: seq<nat>,
                              from: nat)
    requires from >= FIRST_LEVEL_ABOVE_TWIG && roots != []
  {
    forall l: nat {:trigger LevelCovered(nodes, roots, nul, end, list, from, l)} ::
      from <= l <= MaxLevel(|roots| - 1) ==> LevelCovered(nodes, roots, nul, end, list, from, l)
  }

  /** After a level has been synced, the parents cover the levels above it. */
  lemma CoverParents(a: map<Pos, Digest>, b: map<Pos, Digest>, roots: seq<Digest>, nul: Digest, end: nat,
                     list: seq<nat>, parents: seq<nat>, level: nat)
    requires level >= FIRST_LEVEL_ABOVE_TWIG && roots != []
    requires CoveredFrom(a, roots, nul, end, list, level) && Elsewhere(a, b, level) && IsParents(list, parents)
    ensures CoveredFrom(b, roots, nul, end, parents, level + 1)
  {
    OtherLevels(a, b, map[], roots, nul, end, level);
    forall l: nat, n: nat |
      level + 1 <= l <= MaxLevel(|roots| - 1) && Lo(end, l) <= n <= MaxN(|roots| - 1, l) && !Right(b, roots, nul, l, n)
      ensures Above(parents, l - level - 1, n)
    {
      assert LevelCovered(a, roots, nul, end, list, level, l);
      assert Right(b, roots, nul, l, n) == Right(a, roots, nul, l, n);
      var i :| i in list && Shr(i, l - level) == n;
      ShrFirst(i, l - level);
      assert i / 2 in parents;
    }
  }

  function Marked(nodes: map<Pos, Digest>, nul: Digest, youngest: nat, level: nat): map<Pos, Digest>
    requires level >= TWIG_ROOT_LEVEL
  {
    nodes[Pos(level, MaxN(youngest, level)) := NullNode(nul, level)][Pos(level,
        MaxN(youngest, level) + 1) := NullNode(nul, level)]
  }

  ghost function Recomputed(list: seq<nat>, roots: seq<Digest>, nul: Digest, level: nat): map<Pos, Digest>
    requires level >= TWIG_ROOT_LEVEL
  {
    map n | n in list :: Pos(level, n) := M(roots, nul, level, n)
  }

  lemma RecomputedOneMore(a: map<Pos, Digest>, roots: seq<Digest>, nul: Digest, list: seq<nat>, level: nat, n: nat)
    requires level >= TWIG_ROOT_LEVEL && roots != []
    ensures (Marked(a, nul, |roots| - 1, level) +
        Recomputed(list, roots, nul, level))[Pos(level, n) := M(roots, nul, level, n)]
            == Marked(a, nul, |roots| - 1, level) + Recomputed(list + [n], roots, nul, level)
  {
    RecomputedSnoc(roots, nul, list, level, n);
    UpdateSum(Marked(a, nul, |roots| - 1, level), Recomputed(list, roots, nul, level), Pos(level, n),
        M(roots, nul, level, n));
  }

  lemma RecomputedSnoc(roots: seq<Digest>, nul: Digest, list: seq<nat>, level: nat, n: nat)
    requires level >= TWIG_ROOT_LEVEL
    ensures Recomputed(list + [n], roots, nul, level) ==
        Recomputed(list, roots, nul, level)[Pos(level, n) := M(roots, nul, level, n)]
  {
    assert forall i :: i in list + [n] <==> i in list || i == n;
  }

  lemma UpdateSum(m: map<Pos, Digest>, r: map<Pos, Digest>, p: Pos, v: Digest)
    ensures (m + r)[p := v] == m + r[p := v]
  {
  }

  /** While a level is being synced, the twig roots and the level below stay as they were. */
  lemma StillSyncable(a: map<Pos, Digest>, b: map<Pos, Digest>, twigs: map<nat, Digest>, roots: seq<Digest>,
                      nul: Digest,
                      end: nat, list: seq<nat>, level: nat)
    requires level >= FIRST_LEVEL_ABOVE_TWIG && roots != [] && Rooted(a, twigs, roots, end)
    requires level > FIRST_LEVEL_ABOVE_TWIG ==> LevelRight(a, roots, nul, end, level - 1)
    requires b == Marked(a, nul, |roots| - 1, level) + Recomputed(list, roots, nul, level)
    ensures Rooted(b, twigs, roots, end)
    ensures level > FIRST_LEVEL_ABOVE_TWIG ==> LevelRight(b, roots, nul, end, level - 1)
  {
    assert Elsewhere(a, b, level);
    OtherLevels(a, b, twigs, roots, nul, end, level);
  }

  /** After one level: it is right, the levels below stay right, and the parents cover the rest. */
  lemma OneLevelUp(a: map<Pos, Digest>, b: map<Pos, Digest>, twigs: map<nat, Digest>, roots: seq<Digest>, nul: Digest,
                   end: nat,
                   list: seq<nat>, parents: seq<nat>, level: nat)
    requires roots != [] && FIRST_LEVEL_ABOVE_TWIG <= level <= MaxLevel(|roots| - 1)
    requires Workable(list, roots, end, level) && Rooted(a, twigs, roots, end)
    requires forall l: nat {:trigger LevelRight(a, roots, nul, end, l)} ::
               FIRST_LEVEL_ABOVE_TWIG <= l < level ==> LevelRight(a, roots, nul, end, l)
    requires CoveredFrom(a, roots, nul, end, list, level) && IsParents(list, parents)
    requires b == Marked(a, nul, |roots| - 1, level) + Recomputed(list, roots, nul, level)
    ensures Rooted(b, twigs, roots, end) && Workable(parents, roots, end, level + 1)
    ensures CoveredFrom(b, roots, nul, end, parents, level + 1)
    ensures forall l: nat {:trigger LevelRight(b, roots, nul, end, l)} ::
              FIRST_LEVEL_ABOVE_TWIG <= l < level + 1 ==> LevelRight(b, roots, nul, end, l)
  {
    assert LevelCovered(a, roots, nul, end, list, level, level);
    LevelSynced(a, b, roots, nul, end, list, level);
    OtherLevels(a, b, twigs, roots, nul, end, level);
    forall l: nat | FIRST_LEVEL_ABOVE_TWIG <= l < level ensures LevelRight(b, roots, nul, end, l) {
      assert LevelRight(a, roots, nul, end, l);
    }
    CoverParents(a, b, roots, nul, end, list, parents, level);
    ParentsWorkable(list, parents, roots, end, level);
  }

  lemma LevelSynced(a: map<Pos, Digest>, b: map<Pos, Digest>, roots: seq<Digest>, nul: Digest, end: nat,
                    list: seq<nat>, level: nat)
    requires level >= FIRST_LEVEL_ABOVE_TWIG && roots != [] && Workable(list, roots, end, level)
    requires LevelCovered(a, roots, nul, end, list, level, level)
    requires b == Marked(a, nul, |roots| - 1, level) + Recomputed(list, roots, nul, level)
    ensures LevelRight(b, roots, nul, end, level) && Elsewhere(a, b, level)
  {
    var m := MaxN(|roots| - 1, level);
    forall n: nat | Lo(end, level) <= n <= m + 1 ensures Right(b, roots, nul, level, n) {
      if n == m + 1 {
        NullBeyond(roots, nul, level, n);
      } else if n !in list {
        assert Right(a, roots, nul, level, n) || Above(list, 0, n);
      }
    }
  }

  /** The loop that turns a sorted list into the sorted list of parents. */
  method Halve(list: seq<nat>) returns (parents: seq<nat>)
    requires Increasing(list)
    ensures IsParents(list, parents)
  {
    parents := [];
    for k := 0 to |list|
      invariant IsParents(list[..k], parents)
      invariant k > 0 <==> parents != []
      invariant k > 0 ==> parents[|parents| - 1] == list[k - 1] / 2
    {
      assert list[..k + 1] == list[..k] + [list[k]];
      assert list[k] in list[..k + 1];
      ghost var before := parents;
      if parents == [] || parents[|parents| - 1] != list[k] / 2 {
        parents := parents + [list[k] / 2];
      }
      forall p | p in parents ensures exists i :: i in list[..k + 1] && i / 2 == p {
        if p in before {
          var i :| i in list[..k] && i / 2 == p;
          assert i in list[..k + 1];
        }
      }
    }
    assert list[..|list|] == list;
  }

  // ---------------------------------------------------------------- what a block must list

  /** Twig t is new, or its root is not what it was. */
  ghost predicate Changed(roots0: seq<Digest>, roots: seq<Digest>, t: nat) {
    t < |roots| && (t >= |roots0| || roots[t] != roots0[t])
  }

  lemma ListedBelow(list: seq<nat>, t: nat, k: nat)
    requires k > 0 && t / 2 in list
    ensures Above(list, k - 1, Shr(t, k))
  {
    ShrFirst(t, k);
  }

  /** Above the old root every node has a new twig below it. */
  lemma NewLevelsCovered(roots0: seq<Digest>, roots: seq<Digest>, list: seq<nat>, level: nat, n: nat)
    requires 0 < |roots0| <= |roots| && forall t: nat :: Changed(roots0, roots, t) ==> t / 2 in list
    requires MaxLevel(|roots0| - 1) < level <= MaxLevel(|roots| - 1) && n <= MaxN(|roots| - 1, level)
    ensures Above(list, level - FIRST_LEVEL_ABOVE_TWIG, n)
  {
    var k := level - TWIG_ROOT_LEVEL;
    var y0 := |roots0| - 1;
    ShrVanishes(y0, k);
    var t := if n == 0 then y0 + 1 else Shl(n, k);
    if n == 0 {
      BitLenStep(y0);
      ShrVanishes(y0 + 1, k);
    } else {
      ShlShr(n, |roots| - 1, k);
      ShlShr(n, y0, k);
    }
    assert Changed(roots0, roots, t);
    ListedBelow(list, t, k);
  }

  /** Below it, a node without a changed twig keeps its value. */
  lemma UnchangedRight(nodes: map<Pos, Digest>, roots0: seq<Digest>, roots: seq<Digest>, nul: Digest, end: nat,
                       level: nat, n: nat)
    requires 0 < |roots0| <= |roots| && FIRST_LEVEL_ABOVE_TWIG <= level && LevelRight(nodes, roots0, nul, end, level)
    requires Lo(end, level) <= n <= MaxN(|roots| - 1, level)
    requires forall t: nat {:trigger Changed(roots0, roots, t)} ::
               Changed(roots0, roots, t) ==> Shr(t, level - TWIG_ROOT_LEVEL) != n
    ensures Right(nodes, roots, nul, level, n)
  {
    var k := level - TWIG_ROOT_LEVEL;
    ShlShr(n, |roots| - 1, k);
    ShlShr(n, |roots0| - 1, k);
    assert !Changed(roots0, roots, Shl(n, k));
    forall t: nat | Shr(t, k) == n ensures Agree(roots0, roots, nul, t) {
      assert !Changed(roots0, roots, t);
    }
    MFrame(roots0, roots, nul, level, n);
    assert Right(nodes, roots0, nul, level, n);
  }

  /** In a consistent tree it is enough to list the parents of the changed and added twigs. */
  lemma ChangesCovered(nodes: map<Pos, Digest>, roots0: seq<Digest>, roots: seq<Digest>, nul: Digest, end: nat,
                       list: seq<nat>)
    requires 0 < |roots0| <= |roots| && Consistent(nodes, roots0, nul, end)
    requires forall t: nat {:trigger Changed(roots0, roots, t)} :: Changed(roots0, roots, t) ==> t / 2 in list
    ensures CoveredFrom(nodes, roots, nul, end, list, FIRST_LEVEL_ABOVE_TWIG)
  {
    forall l: nat, n: nat |
      FIRST_LEVEL_ABOVE_TWIG <= l <= MaxLevel(|roots| - 1) && Lo(end, l) <= n <= MaxN(|roots| - 1, l)
      ensures Right(nodes, roots, nul, l, n) || Above(list, l - FIRST_LEVEL_ABOVE_TWIG, n)
    {
      if l > MaxLevel(|roots0| - 1) {
        NewLevelsCovered(roots0, roots, list, l, n);
      } else if t: nat :| Changed(roots0, roots, t) && Shr(t, l - TWIG_ROOT_LEVEL) == n {
        ListedBelow(list, t, l - TWIG_ROOT_LEVEL);
      } else {
        assert LevelRight(nodes, roots0, nul, end, l);
        UnchangedRight(nodes, roots0, roots, nul, end, l, n);
      }
    }
  }
}
