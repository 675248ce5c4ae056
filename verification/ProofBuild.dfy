/** Building proofs from the tree, and when they are accepted. */
module ProofBuild {
  import opened Basics
  import opened Merkle
  import opened Twig
  import opened ActiveBits
  import opened Proof
  import UpperTree
  import TwigFile

  /** The sibling position: flip the lowest bit. */
  function Xor1(n: nat): nat { if n % 2 == 0 then n + 1 else n - 1 }

  // ---------------------------------------------------------------- bits of a serial number

  lemma {:induction false} ShrSplit(a: nat, n: nat, d: nat, k: nat)
    requires k <= d
    ensures Shr(Shl(a, d) + n, k) == Shl(a, d - k) + Shr(n, k)
    decreases k
  {
    if k > 0 { ShrSplit(a, n, d, k - 1); }
  }

  lemma ShlEleven(q: nat)
    ensures Shl(q, 11) == 2048 * q
  {
    assert Shl(q, 2) == 4 * q && Shl(q, 4) == 16 * q && Shl(q, 6) == 64 * q && Shl(q, 8) == 256 * q;
    assert Shl(q, 10) == 1024 * q;
  }

  lemma ShrParity(a: nat, n: nat, d: nat, k: nat)
    requires k < d
    ensures Shr(Shl(a, d) + n, k) % 2 == Shr(n, k) % 2
  {
    ShrSplit(a, n, d, k);
    assert Shl(a, d - k) == 2 * Shl(a, d - k - 1);
  }

  lemma SameLowBits(x: nat, y: nat, a: nat, b: nat, n: nat, d: nat, k: nat)
    requires k < d && x == Shl(a, d) + n && y == Shl(b, d) + n
    ensures Bit(x, k) == Bit(y, k)
  {
    ShrParity(a, n, d, k);
    ShrParity(b, n, d, k);
  }

  /** Positions in the leaf tree turn where the serial number's low bits say. */
  lemma LeafTurn(sn: nat, k: nat)
    requires k < 11
    ensures Bit(2048 + sn % 2048, k) == Bit(sn, k)
  {
    ShlEleven(sn / 2048);
    ShlEleven(1);
    SameLowBits(2048 + sn % 2048, sn, 1, sn / 2048, sn % 2048, 11, k);
  }

  /** Above the twig, turns are the bits of the twig id. */
  lemma UpperTurn(sn: nat, k: nat)
    ensures Bit(sn, 11 + k) == Bit(sn / 2048, k)
  {
    ShlEleven(sn / 2048);
    PowersOfTwo();
    ShrQuotient(sn, sn / 2048, sn % 2048, 11);
    ShrAdd(sn, 11, k);
  }

  lemma ShrQuotient(x: nat, q: nat, r: nat, d: nat)
    requires x == Shl(q, d) + r && r < Shl(1, d)
    ensures Shr(x, d) == q
  {
    ShrSplit(q, r, d, d);
    BitLenBounds(r, d);
    ShrVanishes(r, d);
  }

  // ---------------------------------------------------------------- the leaf part

  ghost function LeftNode(tree: seq<Digest>, sn: nat, k: nat): ProofNode
    requires |tree| == 4096 && k < 11
  {
    IndexBounds(sn % 2048, k);
    var i := Shr(2048 + sn % 2048, k);
    ProofNode(tree[i], tree[Xor1(i)], i % 2 == 1)
  }

  /** `get_left_path` over a leaf tree. */
  ghost function LeftPath(tree: seq<Digest>, sn: nat): (r: seq<ProofNode>)
    requires |tree| == 4096
    ensures |r| == 11 && forall k :: 0 <= k < 11 ==> r[k] == LeftNode(tree, sn, k)
  {
    seq(11, k requires 0 <= k < 11 => LeftNode(tree, sn, k))
  }

  lemma IndexBounds(n: nat, k: nat)
    requires n < 2048 && k <= 11
    ensures BitLen(Shr(2048 + n, k)) == 12 - k
    ensures 1 <= Shr(2048 + n, k) < 4096 && (k < 11 ==> 2 <= Shr(2048 + n, k))
  {
    if k == 0 {
      PowersOfTwo();
      BitLenBounds(2048 + n, 11);
      BitLenBounds(2048 + n, 12);
    } else {
      IndexBounds(n, k - 1);
    }
  }

  lemma {:induction false} LeftFold(tree: seq<Digest>, sn: nat, k: nat)
    requires TwigFile.FullTree(tree) && k <= 11
    ensures Shr(2048 + sn % 2048, k) < 4096
    ensures Fold(0, tree[2048 + sn % 2048], LeftPath(tree, sn)[..k]) == tree[Shr(2048 + sn % 2048, k)]
    decreases k
  {
    IndexBounds(sn % 2048, k);
    if k > 0 {
      LeftFold(tree, sn, k - 1);
      LeftStep(tree, sn, k - 1, tree[2048 + sn % 2048], LeftPath(tree, sn));
    }
  }

  lemma LeftStep(tree: seq<Digest>, sn: nat, k: nat, leaf: Digest, path: seq<ProofNode>)
    requires TwigFile.FullTree(tree) && k < 11 && |path| == 11 && path[k] == LeftNode(tree, sn, k)
    requires Shr(2048 + sn % 2048, k) < 4096 && Fold(0, leaf, path[..k]) == tree[Shr(2048 + sn % 2048, k)]
    ensures Shr(2048 + sn % 2048, k + 1) < 4096 && Fold(0, leaf, path[..k + 1]) == tree[Shr(2048 + sn % 2048, k + 1)]
  {
    IndexBounds(sn % 2048, k);
    FoldLast(0, leaf, path[..k + 1]);
    assert path[..k + 1][..k] == path[..k];
    ParentHash(tree, Shr(2048 + sn % 2048, k), k);
  }

  /** Hashing a position with its sibling gives the parent. */
  lemma ParentHash(tree: seq<Digest>, i: nat, level: nat)
    requires TwigFile.FullTree(tree) && 2 <= i < 4096 && level <= 10 && BitLen(i) == 12 - level
    ensures tree[i / 2] == Hash2x(level, tree[i], tree[Xor1(i)], i % 2 == 1)
  {
    TwigFile.InnerNode(tree, i / 2);
  }

  /** The leaf part is complete, turns with the serial number and leads to the leaf tree's root. */
  lemma LeftPathRight(tree: seq<Digest>, sn: nat)
    requires TwigFile.FullTree(tree)
    ensures var path := LeftPath(tree, sn); var leaf := tree[2048 + sn % 2048];
            && path[0].self == leaf && SelfsMatch(0, leaf, path) && Fold(0, leaf, path) == tree[1]
            && forall k :: 0 <= k < 11 ==> path[k].peerAtLeft == Bit(sn, k)
  {
    var path := LeftPath(tree, sn);
    forall k | 0 <= k < 11
      ensures path[k].self == Fold(0, tree[2048 + sn % 2048], path[..k]) && path[k].peerAtLeft == Bit(sn, k)
    {
      LeftFold(tree, sn, k);
      LeafTurn(sn, k);
    }
    LeftFold(tree, sn, 11);
    assert path[..11] == path;
    IndexBounds(sn % 2048, 11);
    BitLenBounds(Shr(2048 + sn % 2048, 11), 1);
  }

  // ---------------------------------------------------------------- the active-bit part

  /** `get_right_path`. */
  function RightPath(tw: TwigData, bits: Bits, sn: nat): (r: seq<ProofNode>)
    requires ActiveBits.Shaped(tw)
    ensures |r| == 3
  {
    var n := sn % 2048;
    [ProofNode(PageOf(bits, n / 256), PageOf(bits, Xor1(n / 256)), (n / 256) % 2 == 1),
     ProofNode(tw.l1[n / 512], tw.l1[Xor1(n / 512)], (n / 512) % 2 == 1),
     ProofNode(tw.l2[n / 1024], tw.l2[Xor1(n / 1024)], (n / 1024) % 2 == 1)]
  }

  /** The turns among the pages. */
  lemma PageTurn(sn: nat, i: nat)
    requires i < 3
    ensures Bit(sn, 8 + i) == ((sn % 2048) / (if i == 0 then 256 else if i == 1 then 512 else 1024) % 2 == 1)
  {
    PageShift(2048 + sn % 2048, i);
    LeafTurn(sn, 8 + i);
    PageParity(sn % 2048, i);
  }

  lemma PageShift(x: nat, i: nat)
    requires i < 3
    ensures Shr(x, 8 + i) == if i == 0 then x / 256 else if i == 1 then x / 256 / 2 else x / 256 / 4
  {
    ShrBytes(x);
    ShrAdd(x, 8, i);
    SmallShift(x / 256, i);
  }

  lemma PageParity(n: nat, i: nat)
    requires n < 2048 && i < 3
    ensures var q := (2048 + n) / 256;
            (if i == 0 then q else if i == 1 then q / 2 else q / 4) % 2 ==
                n / (if i == 0 then 256 else if i == 1 then 512 else 1024) % 2
  {
    var q := n / 256;
    assert (2048 + n) / 256 == 8 + q && n / 512 == q / 2 && n / 1024 == q / 4;
  }

  lemma SmallShift(q: nat, i: nat)
    requires i < 3
    ensures Shr(q, i) == if i == 0 then q else if i == 1 then q / 2 else q / 4
  {
    if i == 2 { assert Shr(q, i - 1) == Shr(q, 0) / 2; }
  }

  /** The page and its sibling hash to the first level, and so on up. */
  lemma RightFold(tw: TwigData, bits: Bits, sn: nat)
    requires BitsRight(tw, bits)
    ensures var path := RightPath(tw, bits, sn); var page := PageOf(bits, (sn % 2048) / 256);
            && Fold(8, page, path[..1]) == path[1].self
            && Fold(8, page, path[..2]) == path[2].self
            && Fold(8, page, path) == tw.l3
  {
    var (a, b, c) := ((sn % 2048) / 256, (sn % 2048) / 512, (sn % 2048) / 1024);
    assert b == a / 2 && c == b / 2;
    RightFoldAt(tw, bits, RightPath(tw, bits, sn), a, b, c);
  }

  lemma RightFoldAt(tw: TwigData, bits: Bits, path: seq<ProofNode>, a: nat, b: nat, c: nat)
    requires BitsRight(tw, bits) && a < 8 && b == a / 2 && c == b / 2 && |path| == 3
    requires path[0] == ProofNode(PageOf(bits, a), PageOf(bits, Xor1(a)), a % 2 == 1)
    requires path[1] == ProofNode(tw.l1[b], tw.l1[Xor1(b)], b % 2 == 1)
    requires path[2] == ProofNode(tw.l2[c], tw.l2[Xor1(c)], c % 2 == 1)
    ensures Fold(8, PageOf(bits, a), path[..1]) == path[1].self
    ensures Fold(8, PageOf(bits, a), path[..2]) == path[2].self && Fold(8, PageOf(bits, a), path) == tw.l3
  {
    assert tw.l1[b] == L1(bits, b);
    assert tw.l2[c] == Node(9, tw.l1[2 * c], tw.l1[2 * c + 1]);
    FoldThree(PageOf(bits, a), path);
  }

  lemma FoldThree(h: Digest, path: seq<ProofNode>)
    requires |path| == 3
    ensures var h1 := Hash2x(8, h, path[0].peer, path[0].peerAtLeft);
            var h2 := Hash2x(9, h1, path[1].peer, path[1].peerAtLeft);
            && Fold(8, h, path[..1]) == h1 && Fold(8, h, path[..2]) == h2
            && Fold(8, h, path) == Hash2x(10, h2, path[2].peer, path[2].peerAtLeft)
  {
    FoldLast(8, h, path[..1]);
    FoldLast(8, h, path[..2]);
    FoldLast(8, h, path);
    assert path[..1][..0] == [] && path[..2][..1] == path[..1] && path[..3] == path;
  }

  lemma RightPathRight(tw: TwigData, bits: Bits, sn: nat)
    requires BitsRight(tw, bits)
    ensures var path := RightPath(tw, bits, sn); var page := PageOf(bits, (sn % 2048) / 256);
            && path[0].self == page && SelfsMatch(8, page, path) && Fold(8, page, path) == tw.l3
            && forall k :: 0 <= k < 3 ==> path[k].peerAtLeft == Bit(sn, 8 + k)
  {
    RightFold(tw, bits, sn);
    var path := RightPath(tw, bits, sn);
    forall k | 0 <= k < 3 ensures path[k].peerAtLeft == Bit(sn, 8 + k) { PageTurn(sn, k); }
    forall k | 0 <= k < 3 ensures path[k].self == Fold(8, PageOf(bits, (sn % 2048) / 256), path[..k]) {
      if k == 0 { assert path[..0] == []; }
    }
  }

  // ---------------------------------------------------------------- the upper part

  /** One node of the path above twig t in the reference tree. */
  ghost function UpperNode(roots: seq<Digest>, nul: Digest, t: nat, k: nat): ProofNode {
    ProofNode(M(roots, nul, 12 + k, Shr(t, k)), M(roots, nul, 12 + k, Xor1(Shr(t, k))), Bit(t, k))
  }

  ghost function UpperPath(roots: seq<Digest>, nul: Digest, t: nat, len: nat): (r: seq<ProofNode>)
    ensures |r| == len && forall k :: 0 <= k < len ==> r[k] == UpperNode(roots, nul, t, k)
  {
    seq(len, k requires 0 <= k < len => UpperNode(roots, nul, t, k))
  }

  lemma MParent(roots: seq<Digest>, nul: Digest, level: nat, n: nat)
    requires level >= TWIG_ROOT_LEVEL
    ensures M(roots, nul, level + 1, n / 2) ==
        Hash2x(level, M(roots, nul, level, n), M(roots, nul, level, Xor1(n)), n % 2 == 1)
  {
    assert n == 2 * (n / 2) || n == 2 * (n / 2) + 1;
  }

  lemma StepUp(roots: seq<Digest>, nul: Digest, t: nat, k: nat)
    ensures var u := UpperNode(roots, nul, t, k);
            Hash2x(12 + k, u.self, u.peer, u.peerAtLeft) == UpperNode(roots, nul, t, k + 1).self
  {
    MParent(roots, nul, 12 + k, Shr(t, k));
  }

  lemma {:induction false} UpperFold(roots: seq<Digest>, nul: Digest, t: nat, path: seq<ProofNode>, k: nat)
    requires k <= |path| && forall j :: 0 <= j < k ==> path[j] == UpperNode(roots, nul, t, j)
    ensures Fold(12, UpperNode(roots, nul, t, 0).self, path[..k]) == UpperNode(roots, nul, t, k).self
    decreases k
  {
    if k > 0 {
      UpperFold(roots, nul, t, path, k - 1);
      FoldLast(12, UpperNode(roots, nul, t, 0).self, path[..k]);
      assert path[..k][..k - 1] == path[..k - 1];
      StepUp(roots, nul, t, k - 1);
    }
  }

  lemma UpperPathRight(roots: seq<Digest>, nul: Digest, t: nat, len: nat)
    ensures var path := UpperPath(roots, nul, t, len); var h := UpperNode(roots, nul, t, 0).self;
            SelfsMatch(12, h, path) && Fold(12, h, path) == UpperNode(roots, nul, t, len).self
  {
    var (path, h) := (UpperPath(roots, nul, t, len), UpperNode(roots, nul, t, 0).self);
    forall k | 0 <= k < len ensures path[k].self == Fold(12, h, path[..k]) {
      UpperFold(roots, nul, t, path, k);
    }
    UpperFold(roots, nul, t, path, len);
    assert path[..len] == path;
  }

  /** Right of every kept node of a twig's path, its sibling is kept too. */
  lemma SiblingKept(end: nat, t: nat, youngest: nat, level: nat)
    requires end <= t <= youngest && level >= FIRST_LEVEL_ABOVE_TWIG
    ensures var n := Shr(t, level - TWIG_ROOT_LEVEL);
            && UpperTree.Lo(end, level) <= n <= UpperTree.MaxN(youngest, level)
            && UpperTree.Lo(end, level) <= Xor1(n) <= UpperTree.MaxN(youngest, level) + 1
  {
    ShrMonotone(end, t, level - TWIG_ROOT_LEVEL);
    ShrMonotone(t, youngest, level - TWIG_ROOT_LEVEL);
  }

  /** What the tree stores on a kept twig's path, one level above the twigs or higher. */
  lemma StoredNode(nodes: map<UpperTree.Pos, Digest>, roots: seq<Digest>, nul: Digest, end: nat, t: nat, level: nat)
    requires roots != [] && end <= t < |roots| && FIRST_LEVEL_ABOVE_TWIG <= level <= MaxLevel(|roots| - 1)
    requires UpperTree.Consistent(nodes, roots, nul, end)
    ensures var n := Shr(t, level - TWIG_ROOT_LEVEL);
            && UpperTree.Pos(level, n) in nodes && UpperTree.Pos(level, Xor1(n)) in nodes
            && UpperNode(roots, nul, t, level - TWIG_ROOT_LEVEL)
               == ProofNode(nodes[UpperTree.Pos(level, n)], nodes[UpperTree.Pos(level, Xor1(n))], n % 2 == 1)
  {
    SiblingKept(end, t, |roots| - 1, level);
    assert UpperTree.LevelRight(nodes, roots, nul, end, level);
    var n := Shr(t, level - TWIG_ROOT_LEVEL);
    assert UpperTree.Right(nodes, roots, nul, level, n) && UpperTree.Right(nodes, roots, nul, level, Xor1(n));
  }

  /** The first node of the path: its sibling twig may have been pruned away, and then counts as
      a null twig. */
  ghost function FirstNode(tree: UpperTree.Tree, roots: seq<Digest>, t: nat): ProofNode
    requires t < |roots|
    reads tree
  {
    var sibling := UpperTree.TwigRoot(tree.nodes, tree.twigs, Xor1(t));
    ProofNode(roots[t], if sibling.Some? then sibling.value else tree.nul, t % 2 == 1)
  }

  /** `get_upper_path_and_root`: empty when the twig's root is gone; otherwise the reference path
      above the first node. */
  method GetUpperPathAndRoot(tree: UpperTree.Tree, t: nat, youngest: nat, ghost roots: seq<Digest>, ghost end: nat)
    returns (path: seq<ProofNode>, root: Digest)
    requires 1 <= youngest && t <= youngest && |roots| == youngest + 1 && end <= youngest
    requires UpperTree.Rooted(tree.nodes, tree.twigs, roots, end)
    requires UpperTree.Consistent(tree.nodes, roots, tree.nul, end)
    requires end <= t || UpperTree.TwigRoot(tree.nodes, tree.twigs, t).None?
    ensures t < end ==> path == []
    ensures end <= t ==>
              && |path| == MaxLevel(youngest) - TWIG_ROOT_LEVEL > 0
              && root == M(roots, tree.nul, MaxLevel(youngest), 0)
              && path[0] == FirstNode(tree, roots, t)
              && forall k :: 1 <= k < |path| ==> path[k] == UpperNode(roots, tree.nul, t, k)
  {
    var maxLevel := MaxLevel(youngest);
    var sibling := UpperTree.TwigRoot(tree.nodes, tree.twigs, Xor1(t));
    var self := UpperTree.TwigRoot(tree.nodes, tree.twigs, t);
    if self.None? { return [], Raw([]); }
    path := [ProofNode(self.value, if sibling.Some? then sibling.value else tree.nul, t % 2 != 0)];
    UpperTree.RootKept(youngest, end);
    var (level, n) := (FIRST_LEVEL_ABOVE_TWIG, t / 2);
    while level < maxLevel
      invariant FIRST_LEVEL_ABOVE_TWIG <= level <= maxLevel
      invariant n == Shr(t, level - TWIG_ROOT_LEVEL) && |path| == level - TWIG_ROOT_LEVEL
      invariant path[0] == FirstNode(tree, roots, t)
      invariant forall k :: 1 <= k < |path| ==> path[k] == UpperNode(roots, tree.nul, t, k)
    {
      StoredNode(tree.nodes, roots, tree.nul, end, t, level);
      path := path + [ProofNode(tree.nodes[UpperTree.Pos(level, n)], tree.nodes[UpperTree.Pos(level, Xor1(n))],
          n % 2 != 0)];
      n, level := n / 2, level + 1;
    }
    assert UpperTree.LevelRight(tree.nodes, roots, tree.nul, end, maxLevel);
    assert UpperTree.Right(tree.nodes, roots, tree.nul, maxLevel, 0);
    root := tree.nodes[UpperTree.Pos(maxLevel, 0)];
  }

  // ---------------------------------------------------------------- the whole proof

  /** `get_left_path_in_mem`: from the youngest twig's array. */
  method GetLeftPathInMem(mtree: array<Digest>, sn: nat) returns (left: seq<ProofNode>)
    requires mtree.Length == 4096
    ensures left == LeftPath(mtree[..], sn)
  {
    left := [];
    var i := 2048 + sn % 2048;
    for level := 0 to 11
      invariant i == Shr(2048 + sn % 2048, level) && |left| == level
      invariant forall k :: 0 <= k < level ==> left[k] == LeftNode(mtree[..], sn, k)
    {
      IndexBounds(sn % 2048, level);
      left := left + [ProofNode(mtree[i], mtree[Xor1(i)], i % 2 == 1)];
      i := i / 2;
    }
  }

  /** `get_left_path_on_disk`: from the twig file, through a cache of rebuilt cones. */
  method GetLeftPathOnDisk(file: TwigFile.File, t: nat, sn: nat, ghost tree: seq<Digest>) returns (left: seq<ProofNode>)
    requires TwigFile.FullTree(tree) && TwigFile.Stored(file.slices, t, tree)
    ensures left == LeftPath(tree, sn)
  {
    left := [];
    var i := 2048 + sn % 2048;
    var cache: map<nat, Digest> := map[];
    for level := 0 to 11
      invariant i == Shr(2048 + sn % 2048, level) && |left| == level
      invariant TwigFile.CacheRight(cache, tree) && TwigFile.Stored(file.slices, t, tree)
      invariant forall k :: 0 <= k < level ==> left[k] == LeftNode(tree, sn, k)
    {
      IndexBounds(sn % 2048, level);
      var self, peer;
      self, cache := ReadCached(file, t, i, cache, tree);
      peer, cache := ReadCached(file, t, Xor1(i), cache, tree);
      left := left + [ProofNode(self, peer, i % 2 == 1)];
      i := i / 2;
    }
  }

  method ReadCached(file: TwigFile.File, t: nat, i: nat, cache: map<nat, Digest>, ghost tree: seq<Digest>)
    returns (d: Digest, cache': map<nat, Digest>)
    requires 1 <= i < 4096 && TwigFile.FullTree(tree) && TwigFile.Stored(file.slices, t, tree)
    requires TwigFile.CacheRight(cache, tree)
    ensures d == tree[i] && TwigFile.CacheRight(cache', tree)
  {
    if i in cache { return cache[i], cache; }
    var out;
    out, cache' := file.GetHashNode(t, i, cache, tree);
    d := out.value;
  }

  /** The root over the active bits of a twig. */
  function BitsRoot(bits: Bits): Digest {
    Node(10, Node(9, L1(bits, 0), L1(bits, 1)), Node(9, L1(bits, 2), L1(bits, 3)))
  }

  /** The parts of the Merkle tree a proof is read from. Twigs are active (with their small tree
      and their bits in memory) or evicted (neither). */
  datatype Parts = Parts(youngest: nat, twigData: map<nat, TwigData>, bits: map<nat, Bits>, nullTwig: TwigData,
      zeros: Bits)

  /** The parts agree with the leaf trees, active bits and twig roots they stand for, and an
      evicted twig has no active bit left. */
  ghost predicate Sound(s: Parts, trees: seq<seq<Digest>>, bitsOf: seq<Bits>, roots: seq<Digest>) {
    && |trees| == |bitsOf| == |roots| == s.youngest + 1
    && BitsRight(s.nullTwig, s.zeros)
    && (forall t {:trigger trees[t]} ::
      0 <= t <= s.youngest ==> TwigFile.FullTree(trees[t]) && roots[t] == Node(11, trees[t][1], BitsRoot(bitsOf[t])))
    && (forall t {:trigger bitsOf[t]} :: 0 <= t <= s.youngest ==>
          if t in s.twigData then t in s.bits && s.bits[t] == bitsOf[t] && BitsRight(s.twigData[t], bitsOf[t])
          else t !in s.bits && bitsOf[t] == s.zeros)
  }

  /** A twig that passes `check_twig`, with the root of its leaf tree in it, has the root that proofs lead to. */
  lemma CheckedRoot(tw: TwigData, tree: seq<Digest>, bits: Bits)
    requires ActiveBits.CheckTwig(tw, bits) && TwigFile.FullTree(tree) && tw.leftRoot == tree[1]
    ensures tw.twigRoot == Node(11, tree[1], BitsRoot(bits))
  {
    assert tw.l1[0] == L1(bits, 0) && tw.l1[1] == L1(bits, 1) && tw.l1[2] == L1(bits, 2) && tw.l1[3] == L1(bits, 3);
  }

  /** So the parts are as `get_proof` wants them when every twig, at the last sync or when it was evicted with
      no bit left, passed `check_twig`. */
  lemma CheckedIsSound(s: Parts, trees: seq<seq<Digest>>, bitsOf: seq<Bits>, roots: seq<Digest>, last: seq<TwigData>)
    requires |trees| == |bitsOf| == |roots| == |last| == s.youngest + 1
    requires BitsRight(s.nullTwig, s.zeros) && s.bits.Keys == s.twigData.Keys
    requires forall t {:trigger trees[t]} :: 0 <= t <= s.youngest ==>
               && TwigFile.FullTree(trees[t]) && ActiveBits.CheckTwig(last[t], bitsOf[t])
               && last[t].leftRoot == trees[t][1] && roots[t] == last[t].twigRoot
    requires forall t {:trigger bitsOf[t]} :: 0 <= t <= s.youngest ==>
               if t in s.twigData then s.twigData[t] == last[t] && s.bits[t] == bitsOf[t] else bitsOf[t] == s.zeros
    ensures Sound(s, trees, bitsOf, roots)
  {
    forall t {:trigger trees[t]} | 0 <= t <= s.youngest ensures roots[t] == Node(11, trees[t][1], BitsRoot(bitsOf[t])) {
      CheckedRoot(last[t], trees[t], bitsOf[t]);
    }
    assert forall t {:trigger bitsOf[t]} :: 0 <= t <= s.youngest ==> TwigFile.FullTree(trees[t]);
  }

  /** `get_proof`. It fails for a serial number past the youngest twig or pruned away. Any other
      proof is for the right leaf and page against the current root, and it passes both checks
      exactly when the sibling twig's root is still stored or happens to be the null root. */
  method GetProof(s: Parts, upper: UpperTree.Tree, mtree: array<Digest>, file: TwigFile.File, sn: nat,
                  ghost trees: seq<seq<Digest>>, ghost bitsOf: seq<Bits>, ghost roots: seq<Digest>, ghost end: nat)
    returns (r: Option<Path>)
    requires 1 <= s.youngest && end <= s.youngest && Sound(s, trees, bitsOf, roots)
    requires UpperTree.Rooted(upper.nodes, upper.twigs, roots, end)
    requires UpperTree.Consistent(upper.nodes, roots, upper.nul, end)
    requires forall t: nat :: t < end ==> UpperTree.TwigRoot(upper.nodes, upper.twigs, t).None?
    requires mtree.Length == 4096 && mtree[..] == trees[s.youngest]
    requires forall t :: end <= t < s.youngest ==> TwigFile.Stored(file.slices, t, trees[t])
    ensures r.Some? <==> end <= sn / 2048 <= s.youngest
    ensures r.Some? ==>
              var (p, t) := (r.value, sn / 2048);
              && Directed(p) && p.serialNum == sn && p.root == M(roots, upper.nul, MaxLevel(s.youngest), 0)
              && |p.upper| == MaxLevel(s.youngest) - TWIG_ROOT_LEVEL
              && p.left[0].self == trees[t][2048 + sn % 2048] && p.right[0].self == PageOf(bitsOf[t], (sn % 2048) / 256)
              && ShowsBit(p.right[0].self, sn, bitsOf[t][sn % 2048])
              && (Accepts(p) <==> Xor1(t) >= end || roots[Xor1(t)] == upper.nul)
              && (Accepts(p) ==> Complete(p))
  {
    var t := sn / 2048;
    if t > s.youngest { return None; }
    var path, root := GetUpperPathAndRoot(upper, t, s.youngest, roots, end);
    if path == [] { return None; }
    var left;
    if t == s.youngest {
      left := GetLeftPathInMem(mtree, sn);
    } else {
      left := GetLeftPathOnDisk(file, t, sn, trees[t]);
    }
    var tw := if t in s.twigData then s.twigData[t] else s.nullTwig;
    var bits := if t in s.bits then s.bits[t] else s.zeros;
    assert bits == bitsOf[t];
    var p := Path(left, RightPath(tw, bits, sn), path, sn, root);
    TwigPartRight(p, trees[t], tw, bits);
    PageBit(bits, sn);
    UpperPartRight(p, upper, s.youngest, roots, end);
    return Some(p);
  }

  /** The twig part of a proof leads from leaf and page to the twig's root. */
  lemma TwigPartRight(p: Path, tree: seq<Digest>, tw: TwigData, bits: Bits)
    requires TwigFile.FullTree(tree) && BitsRight(tw, bits)
    requires p.left == LeftPath(tree, p.serialNum) && p.right == RightPath(tw, bits, p.serialNum)
    ensures Proof.Shaped(p) && TwigRootOf(p) == Node(11, tree[1], BitsRoot(bits))
    ensures p.left[0].self == tree[2048 + p.serialNum % 2048]
    ensures p.right[0].self == PageOf(bits, (p.serialNum % 2048) / 256)
    ensures SelfsMatch(0, p.left[0].self, p.left) && SelfsMatch(8, p.right[0].self, p.right)
    ensures forall i :: 0 <= i < 11 ==> p.left[i].peerAtLeft == Bit(p.serialNum, i)
    ensures forall i :: 0 <= i < 3 ==> p.right[i].peerAtLeft == Bit(p.serialNum, 8 + i)
  {
    LeftPathRight(tree, p.serialNum);
    RightPathRight(tw, bits, p.serialNum);
    assert tw.l1[0] == L1(bits, 0) && tw.l1[1] == L1(bits, 1) && tw.l1[2] == L1(bits, 2) && tw.l1[3] == L1(bits, 3);
  }

  /** The upper part leads from the twig's root to the tree's root exactly when the first peer is
      the real sibling. */
  lemma UpperPartRight(p: Path, upper: UpperTree.Tree, youngest: nat, roots: seq<Digest>, end: nat)
    requires 1 <= youngest && |roots| == youngest + 1 && end <= p.serialNum / 2048 <= youngest
    requires UpperTree.Rooted(upper.nodes, upper.twigs, roots, end)
    requires forall t: nat :: t < end ==> UpperTree.TwigRoot(upper.nodes, upper.twigs, t).None?
    requires Proof.Shaped(p) && TwigRootOf(p) == roots[p.serialNum / 2048]
    requires |p.upper| == MaxLevel(youngest) - TWIG_ROOT_LEVEL > 0
    requires p.root == M(roots, upper.nul, MaxLevel(youngest), 0)
    requires p.upper[0] == FirstNode(upper, roots, p.serialNum / 2048)
    requires forall k :: 1 <= k < |p.upper| ==> p.upper[k] == UpperNode(roots, upper.nul, p.serialNum / 2048, k)
    ensures var t := p.serialNum / 2048;
            && (Accepts(p) <==> Xor1(t) >= end || roots[Xor1(t)] == upper.nul)
            && (Accepts(p) ==> SelfsMatch(12, TwigRootOf(p), p.upper))
    ensures forall i :: 0 <= i < |p.upper| ==> p.upper[i].peerAtLeft == Bit(p.serialNum, 11 + i)
  {
    var (t, nul) := (p.serialNum / 2048, upper.nul);
    forall i | 0 <= i < |p.upper| ensures p.upper[i].peerAtLeft == Bit(p.serialNum, 11 + i) {
      UpperTurn(p.serialNum, i);
    }
    FirstPeer(upper, roots, t, end);
    AcceptedByPeer(p, roots, nul, t, youngest);
  }

  /** The first peer is the sibling's root unless that was pruned away and is not null. */
  lemma FirstPeer(upper: UpperTree.Tree, roots: seq<Digest>, t: nat, end: nat)
    requires end <= t < |roots| && UpperTree.Rooted(upper.nodes, upper.twigs, roots, end)
    requires forall s: nat :: s < end ==> UpperTree.TwigRoot(upper.nodes, upper.twigs, s).None?
    ensures FirstNode(upper, roots, t).peer == At(roots, upper.nul, Xor1(t)) <==>
              Xor1(t) >= end || roots[Xor1(t)] == upper.nul
  {
    var sibling := UpperTree.TwigRoot(upper.nodes, upper.twigs, Xor1(t));
  }

  /** A path that follows the reference path above its first node is accepted exactly when it follows it
      there, too. */
  lemma AcceptedByPeer(p: Path, roots: seq<Digest>, nul: Digest, t: nat, youngest: nat)
    requires t <= youngest && |roots| == youngest + 1 && Proof.Shaped(p) && TwigRootOf(p) == roots[t]
    requires |p.upper| == MaxLevel(youngest) - TWIG_ROOT_LEVEL > 0 && p.root == M(roots, nul, MaxLevel(youngest), 0)
    requires p.upper[0].self == roots[t] && p.upper[0].peerAtLeft == (t % 2 == 1)
    requires forall k :: 1 <= k < |p.upper| ==> p.upper[k] == UpperNode(roots, nul, t, k)
    ensures Accepts(p) <==> p.upper[0].peer == At(roots, nul, Xor1(t))
    ensures Accepts(p) ==> SelfsMatch(12, TwigRootOf(p), p.upper)
  {
    var spec := UpperPath(roots, nul, t, |p.upper|);
    UpperPathRight(roots, nul, t, |p.upper|);
    assert UpperNode(roots, nul, t, |p.upper|).self == p.root by { RootAbove(roots, nul, t, youngest); }
    assert UpperNode(roots, nul, t, 0) == ProofNode(roots[t], At(roots, nul, Xor1(t)), t % 2 == 1);
    if p.upper[0].peer == spec[0].peer {
      assert p.upper == spec;
    } else if Accepts(p) {
      FoldInjective(12, roots[t], roots[t], p.upper, spec);
    }
  }

  lemma RootAbove(roots: seq<Digest>, nul: Digest, t: nat, youngest: nat)
    requires t <= youngest
    ensures UpperNode(roots, nul, t, BitLen(youngest)).self == M(roots, nul, MaxLevel(youngest), 0)
  {
    ShrVanishes(youngest, BitLen(youngest));
    ShrMonotone(t, youngest, BitLen(youngest));
  }

  // ---------------------------------------------------------------- an input that fails

  /** The upper nodes over four evicted twigs, and what pruning up to twig 1 leaves of them. */
  function FourNodes(r: seq<Digest>, nul: Digest): map<UpperTree.Pos, Digest>
    requires |r| == 4
  {
    var (a, b) := (Node(12, r[0], r[1]), Node(12, r[2], r[3]));
    map[UpperTree.Pos(12, 0) := r[0], UpperTree.Pos(12, 1) := r[1],
        UpperTree.Pos(12, 2) := r[2], UpperTree.Pos(12, 3) := r[3],
        UpperTree.Pos(13, 0) := a, UpperTree.Pos(13, 1) := b, UpperTree.Pos(13, 2) := Node(12, nul, nul),
        UpperTree.Pos(14, 0) := Node(13, a, b),
        UpperTree.Pos(14, 1) := Node(13, Node(12, nul, nul), Node(12, nul, nul))]
  }

  function OddNodes(r: seq<Digest>, nul: Digest): map<UpperTree.Pos, Digest>
    requires |r| == 4
  {
    UpperTree.Without(FourNodes(r, nul), 0, 1, MaxLevel(3) + 1)
  }

  lemma OddTree(r: seq<Digest>, nul: Digest)
    requires |r| == 4
    ensures M(r, nul, 13, 0) == Node(12, r[0], r[1]) && M(r, nul, 13, 1) == Node(12, r[2], r[3])
    ensures M(r, nul, 14, 0) == Node(13, M(r, nul, 13, 0), M(r, nul, 13, 1)) && MaxLevel(3) == 14
  {
    assert M(r, nul, 12, 0) == r[0] && M(r, nul, 12, 1) == r[1] && M(r, nul, 12, 2) == r[2] && M(r, nul, 12, 3) == r[3];
    assert BitLen(3) == 1 + BitLen(1) && BitLen(1) == 1 + BitLen(0);
  }

  /** The four twigs form a consistent tree; what pruning leaves of it is consistent too and has lost
      the root of twig 0. */
  lemma OddPruned(r: seq<Digest>, nul: Digest)
    requires |r| == 4
    ensures UpperTree.Rooted(FourNodes(r, nul), map[], r, 0) && UpperTree.Consistent(FourNodes(r, nul), r, nul, 0)
    ensures UpperTree.Rooted(OddNodes(r, nul), map[], r, 1) && UpperTree.Consistent(OddNodes(r, nul), r, nul, 1)
    ensures UpperTree.TwigRoot(OddNodes(r, nul), map[], 0).None? && UpperTree.TwigRoot(OddNodes(r, nul), map[], 1).Some?
  {
    OddTree(r, nul);
    OddNulls(r, nul);
    OddLevels(FourNodes(r, nul), r, nul);
    UpperTree.PruneKeeps(FourNodes(r, nul), map[], r, nul, 0, 0, 1, MaxLevel(3) + 1);
    assert UpperTree.Useless(0, 1, UpperTree.Pos(12, 0), MaxLevel(3) + 1);
    assert UpperTree.TwigRoot(OddNodes(r, nul), map[], 1) == Some(r[1]);
  }

  lemma OddLevels(nodes: map<UpperTree.Pos, Digest>, r: seq<Digest>, nul: Digest)
    requires |r| == 4 && MaxLevel(3) == 14
    requires UpperTree.Right(nodes, r, nul, 13, 0) && UpperTree.Right(nodes, r, nul, 13, 1)
    requires UpperTree.Right(nodes, r, nul, 13, 2)
    requires UpperTree.Right(nodes, r, nul, 14, 0) && UpperTree.Right(nodes, r, nul, 14, 1)
    ensures UpperTree.Consistent(nodes, r, nul, 0)
  {
    assert Shr(3, 1) == 1 && Shr(3, 2) == 0;
    assert UpperTree.LevelRight(nodes, r, nul, 0, 13) by {
      forall n: nat | n <= 2 ensures UpperTree.Right(nodes, r, nul, 13, n) { assert n == 0 || n == 1 || n == 2; }
    }
    assert UpperTree.LevelRight(nodes, r, nul, 0, 14) by {
      forall n: nat | n <= 1 ensures UpperTree.Right(nodes, r, nul, 14, n) { assert n == 0 || n == 1; }
    }
    forall level: nat | FIRST_LEVEL_ABOVE_TWIG <= level <= MaxLevel(3)
      ensures UpperTree.LevelRight(nodes, r, nul, 0, level)
    {
      assert level == 13 || level == 14;
    }
  }

  lemma OddNulls(r: seq<Digest>, nul: Digest)
    requires |r| == 4
    ensures M(r, nul, 13, 2) == Node(12, nul, nul)
    ensures M(r, nul, 14, 1) == Node(13, Node(12, nul, nul), Node(12, nul, nul))
  {
    NullBeyond(r, nul, 13, 2);
    NullBeyond(r, nul, 14, 1);
    assert NullNode(nul, 13) == Node(12, nul, nul);
    assert NullNode(nul, 14) == Node(13, NullNode(nul, 13), NullNode(nul, 13));
  }

  /** There the proof for twig 1 takes the null root for its sibling's and is not accepted, while with
      the root of twig 0 it would be. */
  lemma OddPruneRejected(p: Path, r: seq<Digest>, nul: Digest)
    requires |r| == 4 && r[0] != nul && Proof.Shaped(p) && TwigRootOf(p) == r[1] && p.root == M(r, nul, 14, 0)
    requires p.upper == [ProofNode(r[1], nul, true), ProofNode(Node(12, r[0], r[1]), Node(12, r[2], r[3]), false)]
    ensures !Accepts(p) && Accepts(p.(upper := [ProofNode(r[1], r[0], true), p.upper[1]]))
  {
    OddTree(r, nul);
    OddFold(p, r, nul);
    OddFold(p.(upper := [ProofNode(r[1], r[0], true), p.upper[1]]), r, r[0]);
  }

  lemma OddFold(p: Path, r: seq<Digest>, peer: Digest)
    requires |r| == 4 && Proof.Shaped(p) && TwigRootOf(p) == r[1]
    requires p.upper == [ProofNode(r[1], peer, true), ProofNode(Node(12, r[0], r[1]), Node(12, r[2], r[3]), false)]
    ensures Fold(12, TwigRootOf(p), p.upper) == Node(13, Node(12, peer, r[1]), Node(12, r[2], r[3]))
  {
    FoldLast(12, r[1], p.upper);
    FoldLast(12, r[1], p.upper[..1]);
    assert p.upper[..1][..0] == [];
  }
}
