/** The hashes of a witness, read from the parts of the tree, and the one Merkle value that they and
    all other parts of the tree have. */
module WitnessTree {
  import opened Basics
  import opened Merkle
  import opened Twig
  import opened ActiveBits
  import opened WitnessBuild
  import ProofBuild
  import UpperTree
  import TwigFile

  // ---------------------------------------------------------------- what the tree stands for

  /** The leaf trees and active bits of the twigs; twigs that do not exist yet are null. */
  datatype Content = Content(trees: seq<seq<Digest>>, bitsOf: seq<Bits>, nullTree: seq<Digest>, zeros: Bits)

  ghost predicate Wellformed(c: Content) {
    && |c.trees| == |c.bitsOf| && TwigFile.FullTree(c.nullTree)
    && forall t {:trigger c.trees[t]} :: 0 <= t < |c.trees| ==> TwigFile.FullTree(c.trees[t])
  }

  function TreeAt(c: Content, t: nat): seq<Digest> { if t < |c.trees| then c.trees[t] else c.nullTree }
  function BitsAt(c: Content, t: nat): Bits { if t < |c.bitsOf| then c.bitsOf[t] else c.zeros }

  /** Entry hashes in the left half of every twig, pages in the right half. */
  function SlotsOf(c: Content): Slots {
    Slots((n: nat) => LeafAt(TreeAt(c, n / 4096), n % 4096),
          (n: nat) => if n % 16 >= 8 then ActiveBits.PageOf(BitsAt(c, n / 16), n % 16 - 8) else Raw([]))
  }

  function LeafAt(tree: seq<Digest>, o: nat): Digest { if o < 2048 && |tree| == 4096 then tree[2048 + o] else Raw([]) }

  /** The root of a twig. */
  function RootAt(c: Content, t: nat): Digest
    requires |TreeAt(c, t)| == 4096
  {
    Node(11, TreeAt(c, t)[1], ProofBuild.BitsRoot(BitsAt(c, t)))
  }

  /** The roots and the null root are those of the content. */
  ghost predicate RootsOf(c: Content, roots: seq<Digest>, nul: Digest) {
    && Wellformed(c) && |roots| == |c.trees|
    && forall t: nat {:trigger At(roots, nul, t)} :: At(roots, nul, t) == RootAt(c, t)
  }

  // ---------------------------------------------------------------- within a twig

  /** An inner node from its children. */
  lemma Combine(s: Slots, level: nat, n: nat, x: nat, l: Digest, r: Digest)
    requires level > 0 && !IsPage(Place(level, n)) && x == 2 * n
    requires W(s, Place(level - 1, x)) == l && W(s, Place(level - 1, x + 1)) == r
    ensures W(s, Place(level, n)) == Node(level - 1, l, r)
  {
  }

  lemma LeafSlot(c: Content, t: nat, o: nat)
    requires Wellformed(c) && o < 2048
    ensures |TreeAt(c, t)| == 4096 && W(SlotsOf(c), Place(0, 4096 * t + o)) == TreeAt(c, t)[2048 + o]
  {
    var (s, n) := (SlotsOf(c), 4096 * t + o);
    assert n / 4096 == t && n % 4096 == o;
    assert s.leaf(n) == LeafAt(TreeAt(c, n / 4096), n % 4096);
    assert TwigFile.FullTree(TreeAt(c, t));
  }

  lemma LeafBase(c: Content, t: nat, i: nat, nth: nat)
    requires Wellformed(c) && 2048 <= i < 4096 && nth == Shl(t, 12) + i - 2048
    ensures i < |TreeAt(c, t)| && W(SlotsOf(c), Place(0, nth)) == TreeAt(c, t)[i]
  {
    ShlTwelve(t);
    LeafSlot(c, t, i - 2048);
  }

  lemma LeafStep(s: Slots, tree: seq<Digest>, level: nat, i: nat, nth: nat, j: nat, x: nat)
    requires 1 <= level <= 11 && TwigFile.FullTree(tree) && 1 <= i < 2048 && BitLen(i) == 12 - level
    requires !IsPage(Place(level, nth)) && x == 2 * nth && j == 2 * i
    requires W(s, Place(level - 1, x)) == tree[j] && W(s, Place(level - 1, x + 1)) == tree[j + 1]
    ensures W(s, Place(level, nth)) == tree[i]
  {
    TwigFile.InnerNode(tree, i);
    Combine(s, level, nth, x, tree[j], tree[j + 1]);
  }

  /** The leaves of twig t in these slots are those of the tree. */
  ghost predicate LeavesAre(s: Slots, t: nat, tree: seq<Digest>) {
    TwigFile.FullTree(tree) && forall i {:trigger LeafIs(s, t, tree, i)} :: 2048 <= i < 4096 ==> LeafIs(s, t, tree, i)
  }

  ghost predicate LeafIs(s: Slots, t: nat, tree: seq<Digest>, i: nat)
    requires 2048 <= i < |tree|
  {
    W(s, Place(0, Shl(t, 12) + i - 2048)) == tree[i]
  }

  /** The row of twig t at a level: its half length, and where it starts. */
  ghost predicate RowOf(t: nat, level: nat, h: nat, base: nat) {
    level <= 11 && h == Shl(1, 11 - level) && base == Shl(t, 12 - level)
  }

  lemma RowBelow(t: nat, level: nat, h: nat, base: nat, i: nat)
    requires RowOf(t, level, h, base) && level > 0 && h <= i < 2 * h
    ensures RowOf(t, level - 1, 2 * h, 2 * base) && i < 2048
  {
    LeafInner(level, h, t, i, base + i - h);
  }

  lemma NodeOfRow(s: Slots, t: nat, tree: seq<Digest>, level: nat, h: nat, base: nat, i: nat)
    requires TwigFile.FullTree(tree) && RowOf(t, level, h, base) && level > 0 && h <= i < 2 * h && i < 2048
    requires W(s, Place(level - 1, 2 * base + 2 * i - 2 * h)) == tree[2 * i]
    requires W(s, Place(level - 1, 2 * base + 2 * i + 1 - 2 * h)) == tree[2 * i + 1]
    ensures W(s, Place(level, base + i - h)) == tree[i]
  {
    var nth := base + i - h;
    LeafInner(level, h, t, i, nth);
    LeafStep(s, tree, level, i, nth, 2 * i, 2 * nth);
  }

  /** Then position i of the tree stands at this place. */
  lemma {:induction false} InLeafTree(s: Slots, t: nat, tree: seq<Digest>, level: nat, h: nat, base: nat, i: nat)
    requires LeavesAre(s, t, tree) && RowOf(t, level, h, base) && h <= i < 2 * h
    ensures i < 4096 && W(s, Place(level, base + i - h)) == tree[i]
    decreases level
  {
    if level == 0 {
      LowestRow(s, t, tree, i, base + i - h);
    } else {
      RowBelow(t, level, h, base, i);
      InLeafTree(s, t, tree, level - 1, 2 * h, 2 * base, 2 * i);
      InLeafTree(s, t, tree, level - 1, 2 * h, 2 * base, 2 * i + 1);
      NodeOfRow(s, t, tree, level, h, base, i);
    }
  }

  lemma LowestRow(s: Slots, t: nat, tree: seq<Digest>, i: nat, nth: nat)
    requires LeavesAre(s, t, tree) && Shl(1, 11) <= i < 2 * Shl(1, 11) && nth == Shl(t, 12) + i - Shl(1, 11)
    ensures i < 4096 && W(s, Place(0, nth)) == tree[i]
  {
    PowersOfTwo();
    assert LeafIs(s, t, tree, i);
  }

  lemma LeafSlots(c: Content, t: nat)
    requires Wellformed(c)
    ensures LeavesAre(SlotsOf(c), t, TreeAt(c, t))
  {
    var (s, tree) := (SlotsOf(c), TreeAt(c, t));
    assert TwigFile.FullTree(tree);
    forall j | 2048 <= j < 4096 ensures LeafIs(s, t, tree, j) { LeafBase(c, t, j, Shl(t, 12) + j - 2048); }
  }

  lemma ShlTwelve(q: nat)
    ensures Shl(q, 12) == 4096 * q
  {
    ProofBuild.ShlEleven(q);
  }

  lemma LeafInner(level: nat, h: nat, t: nat, i: nat, nth: nat)
    requires 1 <= level <= 11 && h == Shl(1, 11 - level) && h <= i < 2 * h && nth == Shl(t, 12 - level) + i - h
    ensures 1 <= i < 2048 && BitLen(i) == 12 - level && !IsPage(Place(level, nth))
  {
    BitLenBounds(i, 11 - level);
    BitLenBounds(i, 12 - level);
    BitLenBounds(i, 11);
    assert i < 2048 by { PowersOfTwo(); }
    if level == 8 { NoPage(t, i, nth); }
  }

  lemma NoPage(t: nat, i: nat, nth: nat)
    requires Shl(1, 3) <= i < 2 * Shl(1, 3) && nth == Shl(t, 4) + i - Shl(1, 3)
    ensures !IsPage(Place(8, nth))
  {
    RightHalfIff(nth);
    SmallShifts(t);
    SmallShifts(1);
  }

  /** The pages of twig t in these slots are those of the bits. */
  ghost predicate PagesAre(s: Slots, t: nat, bits: Bits) {
    forall p: nat, n: nat {:trigger ActiveBits.PageOf(bits, p), W(s, Place(8, n))} ::
      p < 8 && n == 16 * t + 8 + p ==> W(s, Place(8, n)) == ActiveBits.PageOf(bits, p)
  }

  /** Then the three levels above them are right. */
  lemma L1Value(s: Slots, t: nat, bits: Bits, q: nat, n: nat)
    requires PagesAre(s, t, bits) && q < 4 && n == 8 * t + 4 + q
    ensures W(s, Place(9, n)) == L1(bits, q)
  {
    var (a, x) := (2 * q, 2 * n);
    Combine(s, 9, n, x, ActiveBits.PageOf(bits, a), ActiveBits.PageOf(bits, a + 1));
  }

  lemma L2Value(s: Slots, t: nat, bits: Bits, q: nat, n: nat, x: nat)
    requires PagesAre(s, t, bits) && q < 3 && x == 2 * n == 8 * t + 4 + q
    ensures W(s, Place(10, n)) == Node(9, L1(bits, q), L1(bits, q + 1))
  {
    L1Value(s, t, bits, q, x);
    L1Value(s, t, bits, q + 1, x + 1);
    Combine(s, 10, n, x, L1(bits, q), L1(bits, q + 1));
  }

  lemma L3Value(s: Slots, t: nat, bits: Bits, n: nat)
    requires PagesAre(s, t, bits) && n == 2 * t + 1
    ensures W(s, Place(11, n)) == ProofBuild.BitsRoot(bits)
  {
    var x := 2 * n;
    L2Value(s, t, bits, 0, x, 2 * x);
    L2Value(s, t, bits, 2, x + 1, 2 * x + 2);
    Combine(s, 11, n, x, Node(9, L1(bits, 0), L1(bits, 1)), Node(9, L1(bits, 2), L1(bits, 3)));
  }

  lemma PageSlots(c: Content, t: nat)
    ensures PagesAre(SlotsOf(c), t, BitsAt(c, t))
  {
    var (s, bits) := (SlotsOf(c), BitsAt(c, t));
    forall p: nat, n: nat | p < 8 && n == 16 * t + 8 + p ensures W(s, Place(8, n)) == ActiveBits.PageOf(bits, p) {
      assert n / 16 == t && n % 16 == 8 + p;
      RightHalfIff(n);
      assert s.page(n) == ActiveBits.PageOf(BitsAt(c, n / 16), n % 16 - 8);
    }
  }

  lemma TwigHalves(s: Slots, t: nat, tree: seq<Digest>, bits: Bits)
    requires LeavesAre(s, t, tree) && PagesAre(s, t, bits)
    ensures W(s, Place(12, t)) == Node(11, tree[1], ProofBuild.BitsRoot(bits))
  {
    var n := 2 * t;
    SmallShifts(t);
    SmallShifts(1);
    InLeafTree(s, t, tree, 11, 1, n, 1);
    L3Value(s, t, bits, n + 1);
    Combine(s, 12, t, n, tree[1], ProofBuild.BitsRoot(bits));
  }

  lemma TwigValue(c: Content, t: nat)
    requires Wellformed(c)
    ensures |TreeAt(c, t)| == 4096 && W(SlotsOf(c), Place(12, t)) == RootAt(c, t)
  {
    LeafSlots(c, t);
    PageSlots(c, t);
    TwigHalves(SlotsOf(c), t, TreeAt(c, t), BitsAt(c, t));
  }

  /** The values that witnesses speak of are those of the reference tree over the twig roots. */
  lemma {:induction false} UpperValue(c: Content, roots: seq<Digest>, nul: Digest, level: nat, n: nat)
    requires RootsOf(c, roots, nul) && level >= TWIG_ROOT_LEVEL
    ensures W(SlotsOf(c), Place(level, n)) == M(roots, nul, level, n)
    decreases level
  {
    if level == TWIG_ROOT_LEVEL {
      TwigValue(c, n);
      assert At(roots, nul, n) == RootAt(c, n);
    } else {
      UpperValue(c, roots, nul, level - 1, 2 * n);
      UpperValue(c, roots, nul, level - 1, 2 * n + 1);
    }
  }

  // ---------------------------------------------------------------- reading hashes

  /** The parts of a tree pruned up to twig `end`, and the content they stand for. */
  ghost predicate Readied(s: ProofBuild.Parts, upper: UpperTree.Tree, mtree: array<Digest>, file: TwigFile.File,
                          c: Content, roots: seq<Digest>, end: nat)
    reads upper, mtree, file
  {
    && end <= s.youngest && ProofBuild.Sound(s, c.trees, c.bitsOf, roots) && c.zeros == s.zeros
    && RootsOf(c, roots, upper.nul)
    && UpperTree.Rooted(upper.nodes, upper.twigs, roots, end)
    && UpperTree.Consistent(upper.nodes, roots, upper.nul, end)
    && mtree.Length == 4096 && mtree[..] == c.trees[s.youngest]
    && forall t {:trigger c.trees[t]} :: end <= t < s.youngest ==> TwigFile.Stored(file.slices, t, c.trees[t])
  }

  /** What pruning up to twig `end` has left, and the null node after the last one of a level. */
  predicate Readable(p: Place, youngest: nat, end: nat) {
    if p.level <= 11 then
      end <= Shr(p.nth, 12 - p.level) <= youngest && (p.level < 8 ==> Shr(p.nth, 11 - p.level) % 2 == 0)
    else if p.level == 12 then end <= p.nth
    else p.level <= MaxLevel(youngest) && UpperTree.Lo(end, p.level) <= p.nth <= UpperTree.MaxN(youngest, p.level) + 1
  }

  /** A place within twig t, by its offset from the start of the twig's row. */
  lemma RowOffset(n: nat, k: nat, t: nat)
    requires t == Shr(n, k + 1)
    ensures Shl(t, k + 1) <= n < Shl(t, k + 1) + 2 * Shl(1, k)
    ensures n < Shl(t, k + 1) + Shl(1, k) <==> Shr(n, k) % 2 == 0
  {
    RowStart(n, k + 1);
    RowStart(n, k);
    ShlFirst(t, k + 1);
    if Shr(n, k) % 2 == 1 { ShlLinear(2 * t, k); }
  }

  lemma RowStart(n: nat, k: nat)
    ensures Shl(Shr(n, k), k) <= n < Shl(Shr(n, k), k) + Shl(1, k)
  {
    ShlShr(Shr(n, k), n, k);
    ShlShr(Shr(n, k) + 1, n, k);
    ShlLinear(Shr(n, k), k);
  }

  lemma {:induction false} ShlLinear(n: nat, k: nat)
    ensures Shl(n + 1, k) == Shl(n, k) + Shl(1, k)
  {
    if k > 0 { ShlLinear(n, k - 1); }
  }

  /** The stored part of a twig's right half. */
  function RightHash(tw: TwigData, bits: Bits, level: nat, i: nat): Digest
    requires ActiveBits.Shaped(tw) && 8 <= level <= 11 && i < Shl(1, 11 - level)
  {
    SmallShifts(1);
    if level == 8 then ActiveBits.PageOf(bits, i) else if level == 9 then tw.l1[i]
        else if level == 10 then tw.l2[i] else tw.l3
  }

  lemma RightHashRight(s: Slots, tw: TwigData, bits: Bits, t: nat, p: Place, i: nat)
    requires 8 <= p.level <= 11 && i < Shl(1, 11 - p.level) && PagesAre(s, t, bits) && BitsRight(tw, bits)
    requires p.nth == Shl(t, 12 - p.level) + Shl(1, 11 - p.level) + i
    ensures RightHash(tw, bits, p.level, i) == W(s, p)
  {
    SmallShifts(t);
    SmallShifts(1);
    if p.level == 8 {
      assert ActiveBits.PageOf(bits, i) == W(s, Place(8, p.nth));
    } else if p.level == 9 {
      L1Value(s, t, bits, i, p.nth);
    } else if p.level == 10 {
      L2Value(s, t, bits, 2 * i, p.nth, 2 * p.nth);
    } else {
      L3Value(s, t, bits, p.nth);
    }
  }

  lemma SmallShifts(q: nat)
    ensures Shl(q, 4) == 16 * q && Shl(q, 3) == 8 * q && Shl(q, 2) == 4 * q && Shl(q, 1) == 2 * q && Shl(q, 0) == q
  {
    assert Shl(q, 2) == 4 * q;
  }

  /** `get_hash_by_node`: the value of the place, from the youngest twig's array, the twig file, the
      active bits, the twig roots or the upper nodes. */
  method GetHashByNode(s: ProofBuild.Parts, upper: UpperTree.Tree, mtree: array<Digest>, file: TwigFile.File, p: Place,
                       cache: map<nat, Digest>, ghost c: Content, ghost roots: seq<Digest>, ghost end: nat)
    returns (d: Digest, cache': map<nat, Digest>)
    requires Readied(s, upper, mtree, file, c, roots, end) && Readable(p, s.youngest, end)
    ensures d == W(SlotsOf(c), p)
  {
    cache' := cache;
    if p.level <= 11 {
      d, cache' := GetInTwig(s, mtree, file, p, cache, c, roots, end, upper);
    } else if p.level == 12 {
      UpperValue(c, roots, upper.nul, 12, p.nth);
      var root := UpperTree.TwigRoot(upper.nodes, upper.twigs, p.nth);
      d := if root.Some? then root.value else upper.nul;
    } else {
      var pos := UpperTree.Pos(p.level, p.nth);
      d := if pos in upper.nodes then upper.nodes[pos] else NullNode(upper.nul, p.level);
      UpperValue(c, roots, upper.nul, p.level, p.nth);
      assert UpperTree.LevelRight(upper.nodes, roots, upper.nul, end, p.level);
      assert UpperTree.Right(upper.nodes, roots, upper.nul, p.level, p.nth);
    }
  }

  /** Its part for the inside of a twig. */
  method GetInTwig(s: ProofBuild.Parts, mtree: array<Digest>, file: TwigFile.File, p: Place, cache: map<nat, Digest>,
                   ghost c: Content, ghost roots: seq<Digest>, ghost end: nat, ghost upper: UpperTree.Tree)
    returns (d: Digest, cache': map<nat, Digest>)
    requires Readied(s, upper, mtree, file, c, roots, end) && Readable(p, s.youngest, end) && p.level <= 11
    ensures d == W(SlotsOf(c), p)
  {
    cache' := cache;
    var (t, h) := (Shr(p.nth, 12 - p.level), Shl(1, 11 - p.level));
    RowOffset(p.nth, 11 - p.level, t);
    var off := p.nth - Shl(t, 12 - p.level);
    if off < h {
      LeafPosition(c, t, p, h, off);
      ghost var tree := c.trees[t];
      d, cache' := GetLeft(s.youngest, mtree, file, t, h + off, cache, tree);
    } else {
      d := GetRight(s, t, p, off - h, c, roots);
    }
  }

  /** A node above the active bits of twig t; twigs without any are null. */
  method GetRight(s: ProofBuild.Parts, t: nat, p: Place, i: nat, ghost c: Content, ghost roots: seq<Digest>)
    returns (d: Digest)
    requires ProofBuild.Sound(s, c.trees, c.bitsOf, roots) && t <= s.youngest
    requires 8 <= p.level <= 11 && i < Shl(1, 11 - p.level) && p.nth == Shl(t, 12 - p.level) + Shl(1, 11 - p.level) + i
    ensures d == W(SlotsOf(c), p)
  {
    var tw := if t in s.twigData then s.twigData[t] else s.nullTwig;
    var bits := if t in s.bits then s.bits[t] else s.zeros;
    BitsRead(s, c, roots, t);
    PageSlots(c, t);
    RightHashRight(SlotsOf(c), tw, bits, t, p, i);
    d := RightHash(tw, bits, p.level, i);
  }

  lemma LeafPosition(c: Content, t: nat, p: Place, h: nat, off: nat)
    requires Wellformed(c) && t < |c.trees| && p.level <= 11 && h == Shl(1, 11 - p.level) && off < h
    requires p.nth == Shl(t, 12 - p.level) + off
    ensures 1 <= h + off < 4096 && TwigFile.FullTree(c.trees[t]) && W(SlotsOf(c), p) == c.trees[t][h + off]
  {
    LeafSlots(c, t);
    InLeafTree(SlotsOf(c), t, c.trees[t], p.level, h, Shl(t, 12 - p.level), h + off);
    ShlShr(1, 0, 11 - p.level);
  }

  lemma BitsRead(s: ProofBuild.Parts, c: Content, roots: seq<Digest>, t: nat)
    requires ProofBuild.Sound(s, c.trees, c.bitsOf, roots) && t <= s.youngest
    ensures var tw := if t in s.twigData then s.twigData[t] else s.nullTwig;
            var bits := if t in s.bits then s.bits[t] else s.zeros;
            bits == BitsAt(c, t) && BitsRight(tw, bits)
  {
    assert c.bitsOf[t] == c.bitsOf[t];
  }

  /** A position of a leaf tree, in memory for the youngest twig and on disk for the others. */
  method GetLeft(youngest: nat, mtree: array<Digest>, file: TwigFile.File, t: nat, i: nat, cache: map<nat, Digest>,
                 ghost tree: seq<Digest>)
    returns (d: Digest, cache': map<nat, Digest>)
    requires TwigFile.FullTree(tree) && 1 <= i < 4096 && mtree.Length == 4096
    requires if t == youngest then mtree[..] == tree else TwigFile.Stored(file.slices, t, tree)
    ensures d == tree[i]
  {
    if t == youngest {
      assert mtree[i] == mtree[..][i];
      return mtree[i], cache;
    }
    var out;
    out, cache' := file.GetHashNode(t, i, cache, tree);
    d := out.value;
  }

  // ---------------------------------------------------------------- the places of a witness can be read

  lemma {:induction false} BitLenMonotone(a: nat, b: nat)
    requires a <= b
    ensures BitLen(a) <= BitLen(b)
  {
    ShrVanishes(b, BitLen(b));
    ShrMonotone(a, b, BitLen(b));
    ShrVanishes(a, BitLen(b));
  }

  lemma TargetReadable(x: Place, t: nat, youngest: nat, end: nat)
    requires (LeafOfTwig(x, t) || PageOfTwig(x, t)) && end <= t <= youngest
    ensures Readable(x, youngest, end)
  {
  }

  /** The sibling of a place on the path of a target. */
  lemma SiblingReadable(x: Place, t: nat, p: Place, youngest: nat, end: nat)
    requires (LeafOfTwig(x, t) || PageOfTwig(x, t)) && end <= t <= youngest && ProofBuild.Xor1(t) >= end
    requires Under(x, Sibling(p)) && p.level < MaxLevel(youngest)
    ensures Readable(p, youngest, end)
  {
    if p.level <= 11 {
      InTwigSibling(x, t, p);
    } else {
      TwigAbove(x, t, Sibling(p));
      UpperReadable(t, p, youngest, end);
    }
  }

  lemma UpperReadable(t: nat, p: Place, youngest: nat, end: nat)
    requires end <= t <= youngest && ProofBuild.Xor1(t) >= end && 12 <= p.level < MaxLevel(youngest)
    requires Sibling(p).nth == Shr(t, p.level - 12)
    ensures Readable(p, youngest, end)
  {
    if p.level >= FIRST_LEVEL_ABOVE_TWIG { ProofBuild.SiblingKept(end, t, youngest, p.level); }
  }

  lemma TwigAbove(x: Place, t: nat, q: Place)
    requires (LeafOfTwig(x, t) || PageOfTwig(x, t)) && Under(x, q) && q.level >= 12
    ensures q.nth == Shr(t, q.level - 12)
  {
    ShrAdd(x.nth, 12 - x.level, q.level - 12);
  }

  lemma InTwigSibling(x: Place, t: nat, p: Place)
    requires (LeafOfTwig(x, t) || PageOfTwig(x, t)) && Under(x, Sibling(p)) && p.level <= 11
    ensures Shr(p.nth, 12 - p.level) == t && (p.level < 8 ==> Shr(p.nth, 11 - p.level) % 2 == 0)
  {
    assert IsShr(x.nth, 12 - x.level, t);
    AboveSibling(x, p, 12, t);
    if p.level < 8 { AboveSibling(x, p, 11, 2 * t); }
  }

  /** Higher up, a place and its sibling have the same ancestors. */
  lemma AboveSibling(x: Place, p: Place, level: nat, q: nat)
    requires Under(x, Sibling(p)) && p.level < level && IsShr(x.nth, level - x.level, q)
    ensures Shr(p.nth, level - p.level) == q
  {
    SameAbove(p, level - p.level);
    ShrAdd(x.nth, p.level - x.level, level - p.level);
  }

  lemma SameAbove(p: Place, k: nat)
    requires k > 0
    ensures Shr(Sibling(p).nth, k) == Shr(p.nth, k)
  {
    ShrFirst(p.nth, k);
    ShrFirst(Sibling(p).nth, k);
  }

  /** What is in a cut is a target or the sibling of a place on the path of one. */
  lemma CutReason(sns: seq<nat>, p: Place) returns (k: nat, x: Place)
    requires sns != [] && Ascending(sns) && p in CutPlaces(Targets(sns), TopOf(sns))
    ensures k < |sns| && (x == LeafPlace(sns[k]) || x == PagePlace(sns[k]))
    ensures p.level < TopOf(sns).level && (p == x || Under(x, Sibling(p)))
  {
    var (ts, top) := (Targets(sns), TopOf(sns));
    TargetsAntichain(sns);
    CutMembers(ts, top, p);
    assert LeafPlace(sns[0]) in ts;
    TargetsBelowTop(sns, LeafPlace(sns[0]));
    assert top !in ts by { if top in ts { TargetsBelowTop(sns, top); } }
    if p in ts { x := p; } else { x :| x in ts && Under(x, Sibling(p)); }
    k :| 0 <= k < |sns| && (x == LeafPlace(sns[k]) || x == PagePlace(sns[k]));
  }

  /** Everything a witness is made of can be read if the twigs of its numbers and their siblings have
      not been pruned. */
  lemma CutReadable(sns: seq<nat>, youngest: nat, end: nat, p: Place)
    requires Ascending(sns) && end <= youngest
    requires forall k :: 0 <= k < |sns| ==> end <= sns[k] / 2048 <= youngest && ProofBuild.Xor1(sns[k] / 2048) >= end
    requires p in CutPlaces(Targets(sns), RootOf(sns, youngest))
    ensures Readable(p, youngest, end)
  {
    if sns == [] {
      assert Targets(sns) == {};
      RootReadable(youngest, end);
    } else {
      var k, x := CutReason(sns, p);
      var t := sns[k] / 2048;
      TargetShape(sns[k]);
      BitLenMonotone(sns[|sns| - 1] / 2048, youngest);
      if p == x { TargetReadable(x, t, youngest, end); } else { SiblingReadable(x, t, p, youngest, end); }
    }
  }

  lemma RootReadable(youngest: nat, end: nat)
    requires end <= youngest
    ensures Readable(TreeRoot(youngest), youngest, end)
  {
    ShrMonotone(end, youngest, BitLen(youngest));
    ShrVanishes(youngest, BitLen(youngest));
  }

  /** The leaf of a serial number is its entry in the leaf tree of its twig. */
  lemma LeafOfNumber(c: Content, sn: nat)
    requires Wellformed(c)
    ensures LeafPlace(sn) == Place(0, 4096 * (sn / 2048) + sn % 2048)
    ensures |TreeAt(c, sn / 2048)| == 4096
    ensures W(SlotsOf(c), LeafPlace(sn)) == TreeAt(c, sn / 2048)[2048 + sn % 2048]
  {
    LeafSlot(c, sn / 2048, sn % 2048);
  }

  /** Its page holds its active bit. */
  lemma PageOfNumber(c: Content, sn: nat)
    ensures PagePlace(sn) == Place(8, 16 * (sn / 2048) + 8 + sn % 2048 / 256)
    ensures ShowsBit(W(SlotsOf(c), PagePlace(sn)), sn, BitsAt(c, sn / 2048)[sn % 2048])
  {
    var (t, o) := (sn / 2048, sn % 2048);
    SlotParts(t, o);
    PageSlots(c, t);
    PageBit(BitsAt(c, t), sn);
    assert W(SlotsOf(c), Place(8, 16 * t + 8 + o / 256)) == ActiveBits.PageOf(BitsAt(c, t), o / 256);
  }

  /** The nodes have the leaf of sn and the page with its active bit. */
  ghost predicate Covers(nodes: seq<(Place, Digest)>, c: Content, sn: nat)
    requires |TreeAt(c, sn / 2048)| == 4096
  {
    var (t, o) := (sn / 2048, sn % 2048);
    && (Place(0, 4096 * t + o), TreeAt(c, t)[2048 + o]) in nodes
    && exists d :: (Place(8, 16 * t + 8 + o / 256), d) in nodes && ShowsBit(d, sn, BitsAt(c, t)[o])
  }

  lemma WitnessCovers(nodes: seq<(Place, Digest)>, c: Content, sns: seq<nat>, youngest: nat, k: nat)
    requires Wellformed(c) && k < |sns| && Ascending(sns)
    requires Places(nodes) == CutPlaces(Targets(sns), RootOf(sns, youngest))
    requires forall i :: 0 <= i < |nodes| ==> nodes[i].1 == W(SlotsOf(c), nodes[i].0)
    ensures |TreeAt(c, sns[k] / 2048)| == 4096 && Covers(nodes, c, sns[k])
  {
    var sn := sns[k];
    var (x, y) := (LeafPlace(sn), PagePlace(sn));
    assert x in Targets(sns) && y in Targets(sns);
    TargetInNodes(nodes, c, sns, youngest, x);
    TargetInNodes(nodes, c, sns, youngest, y);
    NumberCovered(nodes, c, sn, W(SlotsOf(c), x), W(SlotsOf(c), y));
  }

  lemma NumberCovered(nodes: seq<(Place, Digest)>, c: Content, sn: nat, leaf: Digest, page: Digest)
    requires Wellformed(c) && leaf == W(SlotsOf(c), LeafPlace(sn)) && page == W(SlotsOf(c), PagePlace(sn))
    requires (LeafPlace(sn), leaf) in nodes && (PagePlace(sn), page) in nodes
    ensures |TreeAt(c, sn / 2048)| == 4096 && Covers(nodes, c, sn)
  {
    LeafOfNumber(c, sn);
    PageOfNumber(c, sn);
    CoveredBy(nodes, c, sn, LeafPlace(sn), PagePlace(sn), page);
  }

  lemma CoveredBy(nodes: seq<(Place, Digest)>, c: Content, sn: nat, x: Place, y: Place, page: Digest)
    requires |TreeAt(c, sn / 2048)| == 4096 && (x, TreeAt(c, sn / 2048)[2048 + sn % 2048]) in nodes
    requires (y, page) in nodes && ShowsBit(page, sn, BitsAt(c, sn / 2048)[sn % 2048])
    requires x == Place(0, 4096 * (sn / 2048) + sn % 2048)
    requires y == Place(8, 16 * (sn / 2048) + 8 + sn % 2048 / 256)
    ensures Covers(nodes, c, sn)
  {
  }

  lemma TargetInNodes(nodes: seq<(Place, Digest)>, c: Content, sns: seq<nat>, youngest: nat, x: Place)
    requires x in Targets(sns) && sns != [] && Ascending(sns)
    requires Places(nodes) == CutPlaces(Targets(sns), RootOf(sns, youngest))
    requires forall i :: 0 <= i < |nodes| ==> nodes[i].1 == W(SlotsOf(c), nodes[i].0)
    ensures (x, W(SlotsOf(c), x)) in nodes
  {
    var (ts, top) := (Targets(sns), TopOf(sns));
    TargetsAntichain(sns);
    TargetsBelowTop(sns, x);
    CutMembers(ts, top, x);
    TopNoTarget(sns);
    assert x in Places(nodes);
    var i :| 0 <= i < |nodes| && Places(nodes)[i] == x;
    assert nodes[i] == (x, W(SlotsOf(c), x));
  }

  lemma TopNoTarget(sns: seq<nat>)
    requires sns != [] && Ascending(sns)
    ensures TopOf(sns) !in Targets(sns)
  {
    if TopOf(sns) in Targets(sns) { TargetsBelowTop(sns, TopOf(sns)); }
  }

  /** `get_witness_from_tree`: the cut of the accessed numbers with the hashes of the tree. */
  method GetWitness(s: ProofBuild.Parts, upper: UpperTree.Tree, mtree: array<Digest>, file: TwigFile.File,
                    sns: seq<nat>,
                    ghost c: Content, ghost roots: seq<Digest>, ghost end: nat)
    returns (nodes: seq<(Place, Digest)>)
    requires Readied(s, upper, mtree, file, c, roots, end) && Ascending(sns)
    requires forall k :: 0 <= k < |sns| ==> end <= sns[k] / 2048 <= s.youngest && ProofBuild.Xor1(sns[k] / 2048) >= end
    ensures Places(nodes) == CutPlaces(Targets(sns), RootOf(sns, s.youngest))
    ensures forall k :: 0 <= k < |nodes| ==> nodes[k].1 == W(SlotsOf(c), nodes[k].0)
    ensures W(SlotsOf(c), TreeRoot(s.youngest)) == M(roots, upper.nul, MaxLevel(s.youngest), 0)
    ensures forall k {:trigger sns[k]} :: 0 <= k < |sns| ==>
              |TreeAt(c, sns[k] / 2048)| == 4096 && Covers(nodes, c, sns[k])
  {
    var list := WitnessPlaces(sns, s.youngest);
    forall p | p in list ensures Readable(p, s.youngest, end) { CutReadable(sns, s.youngest, end, p); }
    nodes := HashIter(s, upper, mtree, file, list, c, roots, end);
    UpperValue(c, roots, upper.nul, MaxLevel(s.youngest), 0);
    forall k | 0 <= k < |sns| ensures |TreeAt(c, sns[k] / 2048)| == 4096 && Covers(nodes, c, sns[k]) {
      WitnessCovers(nodes, c, sns, s.youngest, k);
    }
  }

  /** `hash_iter`, to its end. */
  method HashIter(s: ProofBuild.Parts, upper: UpperTree.Tree, mtree: array<Digest>, file: TwigFile.File,
                  list: seq<Place>,
                  ghost c: Content, ghost roots: seq<Digest>, ghost end: nat)
    returns (nodes: seq<(Place, Digest)>)
    requires Readied(s, upper, mtree, file, c, roots, end) && forall p :: p in list ==> Readable(p, s.youngest, end)
    ensures Places(nodes) == list && forall k :: 0 <= k < |nodes| ==> nodes[k].1 == W(SlotsOf(c), nodes[k].0)
  {
    nodes := [];
    var cache: map<nat, Digest> := map[];
    for i := 0 to |list|
      invariant Places(nodes) == list[..i] && forall k :: 0 <= k < |nodes| ==> nodes[k].1 == W(SlotsOf(c), nodes[k].0)
    {
      var d;
      d, cache := GetHashByNode(s, upper, mtree, file, list[i], cache, c, roots, end);
      nodes := nodes + [(list[i], d)];
    }
  }

  function Places(nodes: seq<(Place, Digest)>): (r: seq<Place>)
    ensures |r| == |nodes| && forall k :: 0 <= k < |r| ==> r[k] == nodes[k].0
  {
    seq(|nodes|, k requires 0 <= k < |nodes| => nodes[k].0)
  }
}
