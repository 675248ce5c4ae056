/** `flush_files` block after block: which active bits the trees of the twigs show. It adds to the upper tree a
    copy of the youngest twig that it took a block before, before both phases ran on that twig. */
module Flushing {
  import opened Basics
  import opened Merkle
  import opened ActiveBits
  import R = Recover
  import UpperTree

  // ---------------------------------------------------------------- one flush on values

  function Part(base: Bits, bits: Bits, t: nat, touched: set<nat>, q: nat): (r: seq<bool>)
    requires q < 4
    ensures |r| == 512
  {
    if 4 * t + q in touched then bits[512 * q..512 * q + 512] else base[512 * q..512 * q + 512]
  }

  /** What the trees of twig t show after both phases, when they showed `base` before. */
  function Shown(base: Bits, bits: Bits, t: nat, touched: set<nat>): Bits {
    Part(base, bits, t, touched, 0) + Part(base, bits, t, touched, 1)
    + Part(base, bits, t, touched, 2) + Part(base, bits, t, touched, 3)
  }

  lemma ShownPart(base: Bits, bits: Bits, t: nat, touched: set<nat>, q: nat)
    requires q < 4
    ensures Shown(base, bits, t, touched)[512 * q..512 * q + 512] == Part(base, bits, t, touched, q)
  {
    var p0 := Part(base, bits, t, touched, 0);
    var p1 := Part(base, bits, t, touched, 1);
    var p2 := Part(base, bits, t, touched, 2);
    var p3 := Part(base, bits, t, touched, 3);
    var s := p0 + p1 + p2 + p3;
    assert s[0..512] == p0 && s[512..1024] == p1 && s[1024..1536] == p2 && s[1536..2048] == p3;
    assert q == 0 || q == 1 || q == 2 || q == 3;
  }

  lemma Blockwise(a: Bits, b: Bits)
    requires forall q :: 0 <= q < 4 ==> a[512 * q..512 * q + 512] == b[512 * q..512 * q + 512]
    ensures a == b
  {
    assert a == a[512 * 0..512 * 0 + 512] + a[512 * 1..512 * 1 + 512] + a[512 * 2..512 * 2 + 512]
              + a[512 * 3..512 * 3 + 512];
    assert b == b[512 * 0..512 * 0 + 512] + b[512 * 1..512 * 1 + 512] + b[512 * 2..512 * 2 + 512]
              + b[512 * 3..512 * 3 + 512];
  }

  /** They show the present bits exactly when only touched blocks differed. */
  lemma ShownIff(base: Bits, bits: Bits, t: nat, touched: set<nat>)
    ensures Shown(base, bits, t, touched) == bits <==> OnlyTouched(base, bits, t, touched)
  {
    var r := Shown(base, bits, t, touched);
    forall q | 0 <= q < 4 ensures r[512 * q..512 * q + 512] == Part(base, bits, t, touched, q) {
      ShownPart(base, bits, t, touched, q);
    }
    if OnlyTouched(base, bits, t, touched) {
      forall q | 0 <= q < 4 ensures r[512 * q..512 * q + 512] == bits[512 * q..512 * q + 512] {
        assert r[512 * q..512 * q + 512] == Part(base, bits, t, touched, q);
      }
      Blockwise(r, bits);
    }
    if r == bits {
      forall q | 0 <= q < 4 && 4 * t + q !in touched
        ensures base[512 * q..512 * q + 512] == bits[512 * q..512 * q + 512]
      {
        assert r[512 * q..512 * q + 512] == Part(base, bits, t, touched, q);
      }
    }
  }

  /** The trees of a twig determine the bits. */
  lemma BitsDetermined(tw: TwigData, a: Bits, b: Bits)
    requires BitsRight(tw, a) && BitsRight(tw, b)
    ensures a == b
  {
    forall q | 0 <= q < 4 ensures a[512 * q..512 * q + 512] == b[512 * q..512 * q + 512] {
      assert L1(a, q) == tw.l1[q] == L1(b, q);
      var (x, y) := (a[512 * q..512 * q + 512], b[512 * q..512 * q + 512]);
      PageHalves(a, q);
      PageHalves(b, q);
      assert PageOf(a, 2 * q) == PageOf(b, 2 * q) && PageOf(a, 2 * q + 1) == PageOf(b, 2 * q + 1);
      assert x == x[..256] + x[256..] && y == y[..256] + y[256..];
    }
    Blockwise(a, b);
  }

  lemma PageHalves(a: Bits, q: nat)
    requires q < 4
    ensures PageOf(a, 2 * q) == Page(a[512 * q..512 * q + 512][..256])
    ensures PageOf(a, 2 * q + 1) == Page(a[512 * q..512 * q + 512][256..])
  {
    var x := a[512 * q..512 * q + 512];
    assert x[..256] == a[256 * (2 * q)..256 * (2 * q) + 256];
    assert x[256..] == a[256 * (2 * q + 1)..256 * (2 * q + 1) + 256];
  }

  /** A twig that showed `base` shows these bits after both phases; a touched one is closed. */
  lemma PhasesShow(tw: TwigData, base: Bits, bits: Bits, t: nat, touched: set<nat>,
                   list: seq<nat>, pairs: seq<nat>, ids: seq<nat>)
    requires BitsRight(tw, base) && (forall b :: b in list <==> b in touched)
    requires UpperTree.IsParents(list, pairs) && UpperTree.IsParents(pairs, ids)
    ensures var (tw', s) := (R.BothPhases(tw, bits, t, list, pairs, ids), Shown(base, bits, t, touched));
            && BitsRight(tw', s) && tw'.leftRoot == tw.leftRoot
            && if TouchedTwig(touched, t) then CheckTwig(tw', s) else tw' == tw
  {
    var s := Shown(base, bits, t, touched);
    ShownBlocks(base, bits, t, touched);
    SameSync(tw, bits, s, t, touched, list);
    PhasesRestore(tw, base, s, t, touched, list, pairs, ids);
  }

  /** The shown bits differ from `base` in touched blocks only, and from the present ones in the others only. */
  lemma ShownBlocks(base: Bits, bits: Bits, t: nat, touched: set<nat>)
    ensures OnlyTouched(base, Shown(base, bits, t, touched), t, touched)
    ensures forall q :: 0 <= q < 4 && 4 * t + q in touched ==> L1(bits, q) == L1(Shown(base, bits, t, touched), q)
  {
    var s := Shown(base, bits, t, touched);
    forall q | 0 <= q < 4 && 4 * t + q !in touched
      ensures base[512 * q..512 * q + 512] == s[512 * q..512 * q + 512]
    {
      ShownPart(base, bits, t, touched, q);
    }
    forall q | 0 <= q < 4 && 4 * t + q in touched ensures L1(bits, q) == L1(s, q) {
      ShownPart(base, bits, t, touched, q);
      PagesKept(bits, s, q);
    }
  }

  lemma SameSync(tw: TwigData, a: Bits, b: Bits, t: nat, touched: set<nat>, list: seq<nat>)
    requires Shaped(tw) && forall x :: x in list <==> x in touched
    requires forall q :: 0 <= q < 4 && 4 * t + q in touched ==> L1(a, q) == L1(b, q)
    ensures L1Synced(tw, a, t, list) == L1Synced(tw, b, t, list)
  {
    assert L1Synced(tw, a, t, list).l1 == L1Synced(tw, b, t, list).l1;
  }

  /** Touched twigs pass `check_twig` exactly when only touched blocks differed from what was there. */
  lemma CheckedIff(tw: TwigData, base: Bits, bits: Bits, t: nat, touched: set<nat>)
    requires CheckTwig(tw, Shown(base, bits, t, touched))
    ensures CheckTwig(tw, bits) <==> OnlyTouched(base, bits, t, touched)
  {
    ShownIff(base, bits, t, touched);
    if CheckTwig(tw, bits) { BitsDetermined(tw, Shown(base, bits, t, touched), bits); }
  }

  /** And otherwise they have a wrong root. */
  lemma RootRightIff(tw: TwigData, base: Bits, bits: Bits, t: nat, touched: set<nat>, right: TwigData)
    requires CheckTwig(tw, Shown(base, bits, t, touched)) && CheckTwig(right, bits) && right.leftRoot == tw.leftRoot
    ensures tw.twigRoot == right.twigRoot <==> OnlyTouched(base, bits, t, touched)
  {
    var s := Shown(base, bits, t, touched);
    ShownIff(base, bits, t, touched);
    if tw.twigRoot == right.twigRoot { RootDetermines(tw, s, right, bits); }
    if s == bits { SameBitsSameRoot(tw, right, bits); }
  }

  /** Equal roots, equal bits. */
  lemma RootDetermines(a: TwigData, x: Bits, b: TwigData, y: Bits)
    requires CheckTwig(a, x) && CheckTwig(b, y) && a.twigRoot == b.twigRoot
    ensures x == y
  {
    SameTrees(a.l1, b.l1);
    assert BitsRight(a, y);
    BitsDetermined(a, x, y);
  }

  lemma SameTrees(a: seq<Digest>, b: seq<Digest>)
    requires |a| == |b| == 4 && a[0] == b[0] && a[1] == b[1] && a[2] == b[2] && a[3] == b[3]
    ensures a == b
  {
  }

  lemma SameBitsSameRoot(a: TwigData, b: TwigData, bits: Bits)
    requires CheckTwig(a, bits) && CheckTwig(b, bits) && a.leftRoot == b.leftRoot
    ensures a.twigRoot == b.twigRoot
  {
    assert a.l1[0] == b.l1[0] && a.l1[1] == b.l1[1] && a.l1[2] == b.l1[2] && a.l1[3] == b.l1[3];
  }

  /** The trees of these twigs show these bits. */
  ghost predicate Shows(twigs: map<nat, TwigData>, shown: map<nat, Bits>) {
    forall t: nat {:trigger ShowsAt(twigs, shown, t)} :: t in shown ==> ShowsAt(twigs, shown, t)
  }
  ghost predicate ShowsAt(twigs: map<nat, TwigData>, shown: map<nat, Bits>, t: nat) {
    t in shown && t in twigs && BitsRight(twigs[t], shown[t])
  }

  /** All twigs but these have these left roots. */
  ghost predicate HaveRoots(twigs: map<nat, TwigData>, leftRoot: map<nat, Digest>, but: set<nat>) {
    forall t: nat {:trigger HasRoot(twigs, leftRoot, t)} :: t in leftRoot && t !in but ==> HasRoot(twigs, leftRoot, t)
  }
  ghost predicate HasRoot(twigs: map<nat, TwigData>, leftRoot: map<nat, Digest>, t: nat) {
    t in leftRoot && t in twigs && twigs[t].leftRoot == leftRoot[t]
  }

  function WithRoots(news: map<nat, TwigData>, leftRoot: map<nat, Digest>): (r: map<nat, TwigData>)
    requires news.Keys <= leftRoot.Keys
    ensures r.Keys == news.Keys
  {
    map t | t in news :: news[t].(leftRoot := leftRoot[t])
  }

  lemma RootsSet(news: map<nat, TwigData>, copied: map<nat, Bits>, leftRoot: map<nat, Digest>)
    requires news.Keys <= leftRoot.Keys && Shows(news, copied) && copied.Keys == news.Keys
    ensures Shows(WithRoots(news, leftRoot), copied)
    ensures forall t: nat :: t in news ==> HasRoot(WithRoots(news, leftRoot), leftRoot, t)
  {
    forall t: nat | t in copied ensures ShowsAt(WithRoots(news, leftRoot), copied, t) {
      assert ShowsAt(news, copied, t);
    }
  }

  lemma Added(twigs: map<nat, TwigData>, shown: map<nat, Bits>, news: map<nat, TwigData>, copied: map<nat, Bits>)
    requires AllShaped(twigs) && Shows(twigs, shown) && Shows(news, copied) && copied.Keys == news.Keys
    ensures AllShaped(twigs + news) && Shows(twigs + news, shown + copied)
  {
    var (all, bits) := (twigs + news, shown + copied);
    forall t: nat | t in bits ensures ShowsAt(all, bits, t) {
      if t in copied { assert ShowsAt(news, copied, t); } else { assert ShowsAt(twigs, shown, t); }
    }
    forall t | t in all ensures Shaped(all[t]) {
      if t in news { assert ShowsAt(news, copied, t); }
    }
  }

  lemma RootsAdded(twigs: map<nat, TwigData>, news: map<nat, TwigData>, leftRoot: map<nat, Digest>)
    requires HaveRoots(twigs, leftRoot, news.Keys)
    requires forall t: nat :: t in news ==> HasRoot(news, leftRoot, t)
    ensures HaveRoots(twigs + news, leftRoot, {})
  {
    forall t: nat | t in leftRoot ensures HasRoot(twigs + news, leftRoot, t) {
      if t in news { assert HasRoot(news, leftRoot, t); } else { assert HasRoot(twigs, leftRoot, t); }
    }
  }

  lemma RootChanged(twigs: map<nat, TwigData>, leftRoot: map<nat, Digest>, t: nat, d: Digest, but: set<nat>)
    requires HaveRoots(twigs, leftRoot, but) && t in but
    ensures HaveRoots(twigs, leftRoot[t := d], but)
  {
    forall u: nat | u in leftRoot[t := d] && u !in but ensures HasRoot(twigs, leftRoot[t := d], u) {
      assert HasRoot(twigs, leftRoot, u);
    }
  }

  lemma ShowsMore(news: map<nat, TwigData>, copied: map<nat, Bits>, t: nat, tw: TwigData, bits: Bits)
    requires Shows(news, copied) && BitsRight(tw, bits)
    ensures Shows(news[t := tw], copied[t := bits])
  {
    var (news', copied') := (news[t := tw], copied[t := bits]);
    forall u: nat | u in copied' ensures ShowsAt(news', copied', u) {
      if u != t { assert ShowsAt(news, copied, u); }
    }
  }

  lemma ShowsOne(news: map<nat, TwigData>, copied: map<nat, Bits>, t: nat)
    requires Shows(news, copied) && t in copied
    ensures t in news && Shows(map[t := news[t]], map[t := copied[t]])
  {
    assert ShowsAt(news, copied, t);
  }

  /** What the trees show after a flush. */
  ghost function AllShown(base: map<nat, Bits>, bits: map<nat, Bits>, touched: set<nat>): (r: map<nat, Bits>)
    requires bits.Keys <= base.Keys
    ensures r.Keys == bits.Keys
  {
    map t | t in bits :: Shown(base[t], bits[t], t, touched)
  }

  /** After a flush the twigs show those bits and keep their left roots; the touched ones are closed, and pass
      `check_twig` exactly when they differ from what they showed before in touched blocks only. */
  ghost predicate AllFlushed(twigs: map<nat, TwigData>, leftRoot: map<nat, Digest>, base: map<nat, Bits>,
                             bits: map<nat, Bits>, touched: set<nat>) {
    forall t: nat {:trigger Flushed(twigs, leftRoot, base, bits, touched, t)} ::
      t in bits ==> Flushed(twigs, leftRoot, base, bits, touched, t)
  }
  ghost predicate Flushed(twigs: map<nat, TwigData>, leftRoot: map<nat, Digest>, base: map<nat, Bits>,
                          bits: map<nat, Bits>, touched: set<nat>, t: nat) {
    && t in bits && t in base && HasRoot(twigs, leftRoot, t)
    && BitsRight(twigs[t], Shown(base[t], bits[t], t, touched))
    && (TouchedTwig(touched, t) ==>
          && twigs[t].twigRoot == Node(11, leftRoot[t], twigs[t].l3)
          && (CheckTwig(twigs[t], bits[t]) <==> OnlyTouched(base[t], bits[t], t, touched)))
  }

  lemma AllFlush(base: map<nat, Bits>, bits: map<nat, Bits>, touched: set<nat>, was: map<nat, TwigData>,
                 twigs: map<nat, TwigData>, leftRoot: map<nat, Digest>, list: seq<nat>, pairs: seq<nat>, ids: seq<nat>)
    requires bits.Keys <= base.Keys && bits.Keys <= leftRoot.Keys && was.Keys == twigs.Keys
    requires Shows(was, base) && HaveRoots(was, leftRoot, {})
    requires forall t {:trigger bits[t]} :: t in bits ==>
               t in was && Shaped(was[t]) && twigs[t] == R.BothPhases(was[t], bits[t], t, list, pairs, ids)
    requires (forall b :: b in list <==> b in touched)
    requires UpperTree.IsParents(list, pairs) && UpperTree.IsParents(pairs, ids)
    ensures AllFlushed(twigs, leftRoot, base, bits, touched)
  {
    forall t: nat | t in bits ensures Flushed(twigs, leftRoot, base, bits, touched, t) {
      assert bits[t] == bits[t] && ShowsAt(was, base, t) && HasRoot(was, leftRoot, t);
      PhasesShow(was[t], base[t], bits[t], t, touched, list, pairs, ids);
      if TouchedTwig(touched, t) { CheckedIff(twigs[t], base[t], bits[t], t, touched); }
    }
  }

  lemma FlushedShows(twigs: map<nat, TwigData>, leftRoot: map<nat, Digest>, base: map<nat, Bits>,
                     bits: map<nat, Bits>, touched: set<nat>, youngest: nat)
    requires bits.Keys <= base.Keys && leftRoot.Keys == bits.Keys && AllFlushed(twigs, leftRoot, base, bits, touched)
    ensures Shows(twigs, AllShown(base, bits, touched)) && HaveRoots(twigs, leftRoot, {youngest})
  {
    forall t: nat | t in bits ensures ShowsAt(twigs, AllShown(base, bits, touched), t) && HasRoot(twigs, leftRoot, t) {
      assert Flushed(twigs, leftRoot, base, bits, touched, t);
    }
  }

  /** What the upper tree has to sync: the parents of the touched twigs, in increasing order. */
  ghost predicate ParentsOf(touched: set<nat>, parents: seq<nat>) {
    && UpperTree.Increasing(parents)
    && forall n: nat :: n in parents <==> TouchedTwig(touched, 2 * n) || TouchedTwig(touched, 2 * n + 1)
  }

  // ---------------------------------------------------------------- the object

  /** The twigs of a tree: those in the upper tree and the new ones, the youngest of all among them, that the next
      flush adds to the upper tree. */
  class Flusher {
    const data: Twigs
    var news: map<nat, TwigData>
    /** the bits that the trees of the twigs show, there and here */
    ghost var shown: map<nat, Bits>
    ghost var copied: map<nat, Bits>

    ghost predicate Valid()
      reads this, data
    {
      AllShaped(data.twigs) && Shows(data.twigs, shown) && Shows(news, copied) && copied.Keys == news.Keys
    }

    /** The twigs are those of the tree, with its left roots. */
    ghost predicate Fits(tree: R.Tree)
      reads this, data, tree
    {
      && tree.youngest in news && news.Keys <= tree.leftRoot.Keys && tree.leftRoot.Keys == tree.bits.Keys
      && tree.bits.Keys <= shown.Keys + news.Keys && HaveRoots(data.twigs, tree.leftRoot, news.Keys)
    }

    /** `new`: only the empty twig 0. */
    constructor (nullTwig: TwigData)
      requires BitsRight(nullTwig, R.NoBits())
      ensures Valid() && fresh(data) && news == map[0 := nullTwig] && data.twigs == map[0 := nullTwig]
      ensures copied == map[0 := R.NoBits()] && shown == map[0 := R.NoBits()]
    {
      data := new Twigs(map[0 := nullTwig]);
      news := map[0 := nullTwig];
      copied, shown := map[0 := R.NoBits()], map[0 := R.NoBits()];
    }

    /** After a restart the copy is one of the youngest twig after its sync. */
    constructor Recovered(twigs: map<nat, TwigData>, youngest: nat, ghost bits: map<nat, Bits>)
      requires AllShaped(twigs) && Shows(twigs, bits) && youngest in bits && youngest in twigs
      ensures Valid() && fresh(data) && data.twigs == twigs && news == map[youngest := twigs[youngest]]
      ensures shown == bits && copied == map[youngest := bits[youngest]]
    {
      data := new Twigs(twigs);
      news := map[youngest := twigs[youngest]];
      copied, shown := map[youngest := bits[youngest]], bits;
      ShowsOne(twigs, bits, youngest);
    }

    /** The end of `append_entry` for the last entry of a twig. */
    method StartTwig(t: nat, nullTwig: TwigData)
      requires Valid() && BitsRight(nullTwig, R.NoBits())
      modifies this`news, this`copied
      ensures Valid() && news == old(news)[t := nullTwig] && copied == old(copied)[t := R.NoBits()]
    {
      ShowsMore(news, copied, t, nullTwig, R.NoBits());
      news := news[t := nullTwig];
      copied := copied[t := R.NoBits()];
    }

    /** `flush_files` with the phases that follow it: the trees of a twig show its present bits in the touched blocks
        and what they showed before in the others; before means, for a new twig, in the copy. */
    method FlushFiles(tree: R.Tree, ghost log: seq<R.LogEntry>, ghost n: nat, ghost oldest: nat)
      returns (parents: seq<nat>)
      requires Valid() && Fits(tree) && tree.Living(log, n, oldest) && tree.Tracked()
      modifies this, data, tree`changeStart, tree`changeEnd, tree`leftRoot, tree.mtree
      ensures Valid() && Fits(tree) && tree.Living(log, n, oldest) && tree.Tracked()
      ensures news.Keys == {tree.youngest} && copied == map[tree.youngest := old(copied)[tree.youngest]]
      ensures shown == AllShown(old(shown) + old(copied), tree.bits, tree.touched)
      ensures AllFlushed(data.twigs, tree.leftRoot, old(shown) + old(copied), tree.bits, tree.touched)
      ensures ParentsOf(tree.touched, parents)
    {
      Prepare(tree, log, n, oldest);
      parents := SyncAndKeep(tree, log, n, oldest);
    }

    /** Both phases, and the copy for the next block. */
    method SyncAndKeep(tree: R.Tree, ghost log: seq<R.LogEntry>, ghost n: nat, ghost oldest: nat)
      returns (parents: seq<nat>)
      requires tree.Living(log, n, oldest) && tree.Tracked() && Valid()
      requires tree.bits.Keys <= shown.Keys && tree.leftRoot.Keys == tree.bits.Keys
      requires HaveRoots(data.twigs, tree.leftRoot, {}) && tree.youngest in news && tree.youngest in tree.leftRoot
      modifies this, data
      ensures tree.Living(log, n, oldest) && Valid() && Fits(tree) && news.Keys == {tree.youngest}
      ensures copied == map[tree.youngest := old(copied)[tree.youngest]]
      ensures shown == AllShown(old(shown), tree.bits, tree.touched)
      ensures AllFlushed(data.twigs, tree.leftRoot, old(shown), tree.bits, tree.touched)
      ensures ParentsOf(tree.touched, parents)
    {
      parents := Sync(tree);
      Keep(tree.youngest, tree.leftRoot, tree.bits, tree.touched);
    }

    /** Only the copy of the youngest twig stays for the next block. */
    method Keep(youngest: nat, ghost leftRoot: map<nat, Digest>, ghost bits: map<nat, Bits>, ghost touched: set<nat>)
      requires AllShaped(data.twigs) && Shows(news, copied) && copied.Keys == news.Keys && youngest in news
      requires bits.Keys <= shown.Keys && leftRoot.Keys == bits.Keys
      requires AllFlushed(data.twigs, leftRoot, shown, bits, touched)
      modifies this
      ensures Valid() && news.Keys == {youngest} && copied == map[youngest := old(copied)[youngest]]
      ensures shown == AllShown(old(shown), bits, touched) && HaveRoots(data.twigs, leftRoot, {youngest})
    {
      FlushedShows(data.twigs, leftRoot, shown, bits, touched, youngest);
      ShowsOne(news, copied, youngest);
      news := map[youngest := news[youngest]];
      copied := map[youngest := copied[youngest]];
      shown := AllShown(shown, bits, touched);
    }

    /** The left root of the youngest twig, then the new twigs in the upper tree. */
    method Prepare(tree: R.Tree, ghost log: seq<R.LogEntry>, ghost n: nat, ghost oldest: nat)
      requires Valid() && Fits(tree) && tree.Living(log, n, oldest)
      modifies this, data, tree`changeStart, tree`changeEnd, tree`leftRoot, tree.mtree
      ensures Valid() && tree.Living(log, n, oldest) && news.Keys == old(news.Keys) && copied == old(copied)
      ensures shown == old(shown) + old(copied) && tree.bits.Keys <= shown.Keys && tree.leftRoot.Keys == tree.bits.Keys
      ensures HaveRoots(data.twigs, tree.leftRoot, {})
    {
      ghost var roots := tree.leftRoot;
      tree.Settle(log, n, oldest);
      RootChanged(data.twigs, roots, tree.youngest, tree.leftRoot[tree.youngest], news.Keys);
      AddTwigs(tree.leftRoot);
    }

    method AddTwigs(leftRoot: map<nat, Digest>)
      requires Valid() && news.Keys <= leftRoot.Keys && HaveRoots(data.twigs, leftRoot, news.Keys)
      modifies this, data
      ensures Valid() && news.Keys == old(news.Keys) && copied == old(copied) && shown == old(shown) + old(copied)
      ensures HaveRoots(data.twigs, leftRoot, {})
    {
      RootsSet(news, copied, leftRoot);
      news := WithRoots(news, leftRoot);
      RootsAdded(data.twigs, news, leftRoot);
      Added(data.twigs, shown, news, copied);
      data.twigs := data.twigs + news;
      shown := shown + copied;
    }

    /** Both phases. */
    method Sync(tree: R.Tree) returns (parents: seq<nat>)
      requires Valid() && tree.Tracked() && tree.bits.Keys <= shown.Keys && tree.leftRoot.Keys == tree.bits.Keys
      requires HaveRoots(data.twigs, tree.leftRoot, {})
      modifies data
      ensures AllShaped(data.twigs)
      ensures AllFlushed(data.twigs, tree.leftRoot, shown, tree.bits, tree.touched)
      ensures ParentsOf(tree.touched, parents)
    {
      ghost var was := data.twigs;
      ShownThere(was, shown, tree.bits.Keys);
      var list, pairs, ids;
      list, pairs, ids, parents := tree.RunPhases(data);
      AllFlush(shown, tree.bits, tree.touched, was, data.twigs, tree.leftRoot, list, pairs, ids);
      ParentsOfTouched(tree.touched, list, pairs, ids, parents);
    }
  }

  lemma ShownThere(twigs: map<nat, TwigData>, shown: map<nat, Bits>, keys: set<nat>)
    requires Shows(twigs, shown) && keys <= shown.Keys
    ensures keys <= twigs.Keys
  {
    forall t | t in keys ensures t in twigs { assert ShowsAt(twigs, shown, t); }
  }

  // ---------------------------------------------------------------- one twig over many blocks

  /** A block for a twig: its bits, the touched blocks of 512 bits, and whether the copy was added again. */
  datatype Block = Block(bits: Bits, touched: set<nat>, again: bool)

  /** What the trees of twig t show after these blocks, when the copy shows `seed`. */
  ghost function After(seed: Bits, t: nat, blocks: seq<Block>): Bits {
    if blocks == [] then seed
    else
      var (init, last) := (blocks[..|blocks| - 1], blocks[|blocks| - 1]);
      Shown(if last.again then seed else After(seed, t, init), last.bits, t, last.touched)
  }

  /** A flush takes every twig one block further. */
  lemma FlushIsNext(shown: map<nat, Bits>, copied: map<nat, Bits>, bits: map<nat, Bits>, touched: set<nat>,
                    seed: Bits, t: nat, blocks: seq<Block>)
    requires t in bits && bits.Keys <= (shown + copied).Keys
    requires if t in copied then copied[t] == seed else shown[t] == After(seed, t, blocks)
    ensures AllShown(shown + copied, bits, touched)[t]
            == After(seed, t, blocks + [Block(bits[t], touched, t in copied)])
  {
    var all := blocks + [Block(bits[t], touched, t in copied)];
    assert all[..|all| - 1] == blocks;
  }

  /** The copy is added in the first m blocks, while the twig is the youngest, and bits change in touched blocks. */
  ghost predicate LifeOf(t: nat, blocks: seq<Block>, m: nat) {
    && 0 < m <= |blocks|
    && (forall i :: 0 <= i < |blocks| ==> (blocks[i].again <==> i < m))
    && forall i :: 0 < i < |blocks| ==> OnlyTouched(blocks[i - 1].bits, blocks[i].bits, t, blocks[i].touched)
  }

  ghost predicate TouchedSince(blocks: seq<Block>, from: nat, b: nat) {
    exists i :: from <= i < |blocks| && b in blocks[i].touched
  }

  ghost predicate SameAt(a: Bits, b: Bits, q: nat)
    requires q < 4
  {
    a[512 * q..512 * q + 512] == b[512 * q..512 * q + 512]
  }

  lemma ShownSame(base: Bits, bits: Bits, t: nat, touched: set<nat>, q: nat)
    requires q < 4
    ensures SameAt(Shown(base, bits, t, touched), if 4 * t + q in touched then bits else base, q)
  {
    ShownPart(base, bits, t, touched, q);
  }

  lemma SameTwice(a: Bits, b: Bits, c: Bits, q: nat)
    requires q < 4 && SameAt(a, b, q) && SameAt(b, c, q)
    ensures SameAt(a, c, q)
  {
  }

  /** A part of the twig is shown as it is if it was touched since the copy was added for the last time, else as it
      is in the copy. */
  lemma {:induction false} PartShown(seed: Bits, t: nat, blocks: seq<Block>, m: nat, q: nat)
    requires LifeOf(t, blocks, m) && q < 4
    ensures SameAt(After(seed, t, blocks),
                   if TouchedSince(blocks, m - 1, 4 * t + q) then blocks[|blocks| - 1].bits else seed, q)
    decreases |blocks|
  {
    var (n, b) := (|blocks| - 1, 4 * t + q);
    var (init, last) := (blocks[..n], blocks[n]);
    var base := if last.again then seed else After(seed, t, init);
    ShownSame(base, last.bits, t, last.touched, q);
    SinceLast(blocks, m - 1, b);
    if b !in last.touched && m <= n {
      EarlierLife(t, blocks, m, q);
      PartShown(seed, t, init, m, q);
      var then_ := if TouchedSince(init, m - 1, b) then init[n - 1].bits else seed;
      SameTwice(After(seed, t, blocks), base, then_, q);
      if TouchedSince(init, m - 1, b) { SameTwice(After(seed, t, blocks), then_, last.bits, q); }
    } else if b !in last.touched {
      NothingSince(init, m - 1, b);
    }
  }

  lemma NothingSince(blocks: seq<Block>, from: nat, b: nat)
    requires from >= |blocks|
    ensures !TouchedSince(blocks, from, b)
  {
  }

  lemma EarlierLife(t: nat, blocks: seq<Block>, m: nat, q: nat)
    requires LifeOf(t, blocks, m) && m < |blocks| && q < 4
    ensures LifeOf(t, blocks[..|blocks| - 1], m) && !blocks[|blocks| - 1].again
    ensures 4 * t + q !in blocks[|blocks| - 1].touched ==>
              SameAt(blocks[|blocks| - 2].bits, blocks[|blocks| - 1].bits, q)
  {
  }

  lemma SinceLast(blocks: seq<Block>, from: nat, b: nat)
    requires from < |blocks|
    ensures TouchedSince(blocks, from, b) <==>
              b in blocks[|blocks| - 1].touched || TouchedSince(blocks[..|blocks| - 1], from, b)
  {
    var init := blocks[..|blocks| - 1];
    if TouchedSince(init, from, b) {
      var i :| from <= i < |init| && b in init[i].touched;
      assert b in blocks[i].touched;
    }
    if TouchedSince(blocks, from, b) && b !in blocks[|blocks| - 1].touched {
      var i :| from <= i < |blocks| && b in blocks[i].touched;
      assert b in init[i].touched;
    }
  }

  /** This part was touched since then, or is as it is in the copy. */
  ghost predicate PartRight(seed: Bits, t: nat, blocks: seq<Block>, m: nat, q: nat)
    requires 0 < m <= |blocks| && q < 4
  {
    TouchedSince(blocks, m - 1, 4 * t + q) || SameAt(seed, blocks[|blocks| - 1].bits, q)
  }

  /** So the trees of the twig are right exactly when each part is. */
  lemma TwigRightIff(seed: Bits, t: nat, blocks: seq<Block>, m: nat)
    requires LifeOf(t, blocks, m)
    ensures After(seed, t, blocks) == blocks[|blocks| - 1].bits <==>
            forall q {:trigger PartRight(seed, t, blocks, m, q)} :: 0 <= q < 4 ==> PartRight(seed, t, blocks, m, q)
  {
    var (r, bits) := (After(seed, t, blocks), blocks[|blocks| - 1].bits);
    forall q | 0 <= q < 4
      ensures PartRight(seed, t, blocks, m, q) <==> r[512 * q..512 * q + 512] == bits[512 * q..512 * q + 512]
    {
      PartShown(seed, t, blocks, m, q);
    }
    if forall q {:trigger PartRight(seed, t, blocks, m, q)} :: 0 <= q < 4 ==> PartRight(seed, t, blocks, m, q) {
      assert PartRight(seed, t, blocks, m, 0) && PartRight(seed, t, blocks, m, 1);
      assert PartRight(seed, t, blocks, m, 2) && PartRight(seed, t, blocks, m, 3);
      Blockwise(r, bits);
    }
  }

  /** An example: 512 entries in one block and one more in the next. The first part of twig 0 was not
      touched in the second block, and the tree over it is that of the empty twig again. */
  method SecondBlock(nullTwig: TwigData, nullTree: seq<Digest>, log: seq<R.LogEntry>)
    returns (f: Flusher, tree: R.Tree)
    requires BitsRight(nullTwig, R.NoBits()) && R.Dirty(nullTree, -1, 0)
    requires |log| == 513 && R.WellFormed(log) && forall i :: 0 <= i < 513 ==> log[i].dsns == []
    ensures 0 in f.data.twigs && 0 in tree.bits && 0 in tree.leftRoot && !CheckTwig(f.data.twigs[0], tree.bits[0])
    ensures forall right {:trigger CheckTwig(right, tree.bits[0])} ::
              CheckTwig(right, tree.bits[0]) && right.leftRoot == tree.leftRoot[0] ==>
              right.twigRoot != f.data.twigs[0].twigRoot
  {
    tree := StartTree(nullTree, log);
    f := StartFlusher(nullTwig);
    TwoBlocks(f, tree, log);
    FirstMissing(tree.bits, log, tree.touched);
    WrongRoot(f.data.twigs[0], tree.bits[0], tree.touched);
  }

  method TwoBlocks(f: Flusher, tree: R.Tree, log: seq<R.LogEntry>)
    requires |log| == 513 && R.WellFormed(log) && forall i :: 0 <= i < |log| ==> log[i].dsns == []
    requires InBlock(tree, log, 0, 0) && Empty(f)
    modifies f, f.data, tree, tree.mtree
    ensures InBlock(tree, log, 512, 513) && 0 in tree.bits && 0 in f.data.twigs
    ensures CheckTwig(f.data.twigs[0], Shown(R.NoBits(), tree.bits[0], 0, tree.touched))
    ensures 0 in tree.leftRoot && f.data.twigs[0].leftRoot == tree.leftRoot[0]
  {
    FirstBlock(f, tree, log, 512);
    OneBlock(f, tree, log, 512, 513);
  }

  method FirstBlock(f: Flusher, tree: R.Tree, log: seq<R.LogEntry>, n: nat)
    requires 0 < n <= |log| < 2048 && R.WellFormed(log) && forall i :: 0 <= i < |log| ==> log[i].dsns == []
    requires InBlock(tree, log, 0, 0) && Empty(f)
    modifies f, f.data, tree, tree.mtree
    ensures InBlock(tree, log, n, n) && Empty(f)
  {
    OneBlock(f, tree, log, 0, n);
    NextBlock(tree, log, n);
  }

  lemma WrongRoot(tw: TwigData, bits: Bits, touched: set<nat>)
    requires CheckTwig(tw, Shown(R.NoBits(), bits, 0, touched)) && !OnlyTouched(R.NoBits(), bits, 0, touched)
    ensures !CheckTwig(tw, bits)
    ensures forall right {:trigger CheckTwig(right, bits)} ::
              CheckTwig(right, bits) && right.leftRoot == tw.leftRoot ==> right.twigRoot != tw.twigRoot
  {
    CheckedIff(tw, R.NoBits(), bits, 0, touched);
    forall right | CheckTwig(right, bits) && right.leftRoot == tw.leftRoot ensures right.twigRoot != tw.twigRoot {
      RootRightIff(tw, R.NoBits(), bits, 0, touched, right);
    }
  }

  method StartTree(nullTree: seq<Digest>, log: seq<R.LogEntry>) returns (tree: R.Tree)
    requires R.Dirty(nullTree, -1, 0)
    ensures fresh(tree) && fresh(tree.mtree) && InBlock(tree, log, 0, 0)
  {
    tree := new R.Tree(0, nullTree, log);
    NothingLive(tree, log);
  }

  method StartFlusher(nullTwig: TwigData) returns (f: Flusher)
    requires BitsRight(nullTwig, R.NoBits())
    ensures fresh(f) && fresh(f.data) && Empty(f)
  {
    f := new Flusher(nullTwig);
  }

  lemma NothingLive(tree: R.Tree, log: seq<R.LogEntry>)
    requires tree.Twigs(log, 0, 0) && forall s: nat {:trigger R.BitIn(tree.bits, s)} :: !R.BitIn(tree.bits, s)
    ensures tree.Living(log, 0, 0)
  {
  }

  method NextBlock(tree: R.Tree, log: seq<R.LogEntry>, n: nat)
    requires InBlock(tree, log, 0, n)
    modifies tree, tree.mtree
    ensures InBlock(tree, log, n, n)
  {
    tree.EndBlock(0, 0, log, n);
  }

  /** There is only twig 0, and its copy is that of the empty twig. */
  ghost predicate Empty(f: Flusher)
    reads f, f.data
  {
    f.Valid() && f.news.Keys == {0} && 0 in f.shown && f.copied == map[0 := R.NoBits()]
  }

  lemma FirstMissing(bits: map<nat, Bits>, log: seq<R.LogEntry>, touched: set<nat>)
    requires |log| == 513 && R.LiveIn(bits, log, 513, 0) && forall i :: 0 <= i < 513 ==> log[i].dsns == []
    requires touched == BlocksOf(512, 513)
    ensures 0 in bits && !OnlyTouched(R.NoBits(), bits[0], 0, touched)
  {
    FirstBitSet(bits, log);
    assert BlocksOf(512, 513) == BlocksOf(512, 512) + {1};
    FirstDiffers(bits[0], touched);
  }

  lemma FirstBitSet(bits: map<nat, Bits>, log: seq<R.LogEntry>)
    requires log != [] && R.LiveIn(bits, log, |log|, 0) && forall i :: 0 <= i < |log| ==> log[i].dsns == []
    ensures 0 in bits && bits[0][0]
  {
    R.LiveMeaning(log, |log|, 0);
    assert R.BitIn(bits, 0);
  }

  lemma FirstDiffers(bits: Bits, touched: set<nat>)
    requires bits[0] && 0 !in touched
    ensures !OnlyTouched(R.NoBits(), bits, 0, touched)
  {
    assert bits[512 * 0..512 * 0 + 512][0] && !R.NoBits()[512 * 0..512 * 0 + 512][0];
  }

  /** The blocks of 512 bits of these numbers. */
  ghost function BlocksOf(a: nat, b: nat): set<nat> { if a >= b then {} else BlocksOf(a, b - 1) + {(b - 1) / 512} }

  /** Append entries a to b, all of twig 0, and flush. */
  method OneBlock(f: Flusher, tree: R.Tree, log: seq<R.LogEntry>, a: nat, b: nat)
    requires a < b <= |log| < 2048 && R.WellFormed(log) && forall i :: 0 <= i < |log| ==> log[i].dsns == []
    requires InBlock(tree, log, a, a) && Empty(f)
    modifies f, f.data, tree, tree.mtree
    ensures InBlock(tree, log, a, b) && Empty(f)
    ensures 0 in tree.bits && 0 in f.data.twigs
    ensures CheckTwig(f.data.twigs[0], Shown(R.NoBits(), tree.bits[0], 0, tree.touched))
    ensures 0 in tree.leftRoot && f.data.twigs[0].leftRoot == tree.leftRoot[0]
  {
    AppendAll(tree, log, a, b);
    FitsThere(f, tree, log, b);
    TouchedHere(a, b);
    var parents := f.FlushFiles(tree, log, b, 0);
    assert Flushed(f.data.twigs, tree.leftRoot, old(f.shown) + old(f.copied), tree.bits, tree.touched, 0);
  }

  method AppendAll(tree: R.Tree, log: seq<R.LogEntry>, a: nat, b: nat)
    requires a < b <= |log| < 2048 && R.WellFormed(log) && forall i :: 0 <= i < |log| ==> log[i].dsns == []
    requires InBlock(tree, log, a, a)
    modifies tree, tree.mtree
    ensures InBlock(tree, log, a, b)
  {
    for k := a to b
      invariant InBlock(tree, log, a, k)
    {
      AppendOne(tree, log[k], log, a, k);
    }
  }

  method AppendOne(tree: R.Tree, e: R.LogEntry, log: seq<R.LogEntry>, a: nat, k: nat)
    requires a <= k < |log| < 2048 && e == log[k] && R.WellFormedAt(e, k) && e.dsns == []
    requires InBlock(tree, log, a, k)
    modifies tree, tree.mtree
    ensures InBlock(tree, log, a, k + 1)
  {
    tree.AppendEntry(e, log, k, 0);
  }

  /** The tree in a block that began with entry a. */
  ghost predicate InBlock(tree: R.Tree, log: seq<R.LogEntry>, a: nat, k: nat)
    reads tree, tree.mtree
  {
    tree.Living(log, k, 0) && tree.Tracked() && tree.Announced() && tree.touched == BlocksOf(a, k)
  }

  lemma FitsThere(f: Flusher, tree: R.Tree, log: seq<R.LogEntry>, b: nat)
    requires b <= |log| < 2048 && tree.Living(log, b, 0) && f.Valid() && f.news.Keys == {0} && 0 in f.shown
    ensures f.Fits(tree) && tree.bits.Keys == {0} && tree.youngest == 0
  {
    assert forall t :: t in tree.bits ==> t == 0;
  }

  lemma TouchedHere(a: nat, b: nat)
    requires a < b <= 2048
    ensures TouchedTwig(BlocksOf(a, b), 0)
  {
    assert (b - 1) / 512 in BlocksOf(a, b) && (b - 1) / 512 / 4 == 0;
  }
}
