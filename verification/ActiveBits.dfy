/** The tree over a twig's active bits and the two sync phases that bring the touched twigs back
    in line with their bits. */
module ActiveBits {
  import opened Basics
  import opened Merkle
  import opened UpperTree

  /** One bit per leaf of a twig. */
  type Bits = s: seq<bool> | |s| == 2048 witness seq(2048, _ => false)

  /** The small tree beside a twig's leaf tree. */
  datatype TwigData = TwigData(l1: seq<Digest>, l2: seq<Digest>, l3: Digest, leftRoot: Digest, twigRoot: Digest)

  predicate Shaped(tw: TwigData) { |tw.l1| == 4 && |tw.l2| == 2 }

  /** `get_bits(p, 32)`: 256 bits, hashed as they are. */
  function PageOf(bits: Bits, p: nat): Digest
    requires p < 8
  {
    Page(bits[256 * p..256 * p + 256])
  }

  /** A page of 256 bits in which the bit of sn has this value. */
  ghost predicate ShowsBit(d: Digest, sn: nat, active: bool) {
    d.Page? && |d.bits| == 256 && d.bits[sn % 256] == active
  }

  /** The page of a serial number has its active bit at sn % 256. */
  lemma PageBit(bits: Bits, sn: nat)
    ensures ShowsBit(PageOf(bits, sn % 2048 / 256), sn, bits[sn % 2048])
  {
    var (p, o) := (sn % 2048 / 256, sn % 256);
    PageSplit(sn, sn / 2048, p, o);
    assert bits[256 * p..256 * p + 256][o] == bits[256 * p + o];
  }

  lemma PageSplit(sn: nat, t: nat, p: nat, o: nat)
    requires t == sn / 2048 && p == sn % 2048 / 256 && o == sn % 256
    ensures p < 8 && 256 * p + o == sn % 2048
  {
    var r := sn % 2048 - 256 * p;
    assert sn == 256 * (8 * t + p) + r && 0 <= r < 256;
  }

  function L1(bits: Bits, q: nat): Digest
    requires q < 4
  {
    Node(8, PageOf(bits, 2 * q), PageOf(bits, 2 * q + 1))
  }

  function SyncL1(tw: TwigData, q: nat, bits: Bits): TwigData
    requires Shaped(tw) && q < 4
  {
    tw.(l1 := tw.l1[q := L1(bits, q)])
  }

  function SyncL2(tw: TwigData, h: nat): TwigData
    requires Shaped(tw) && h < 2
  {
    tw.(l2 := tw.l2[h := Node(9, tw.l1[2 * h], tw.l1[2 * h + 1])])
  }

  function SyncL3(tw: TwigData): TwigData
    requires Shaped(tw)
  {
    tw.(l3 := Node(10, tw.l2[0], tw.l2[1]))
  }

  function SyncTop(tw: TwigData): TwigData { tw.(twigRoot := Node(11, tw.leftRoot, tw.l3)) }

  /** The three levels over the bits are right. */
  ghost predicate BitsRight(tw: TwigData, bits: Bits) {
    && Shaped(tw)
    && (forall q :: 0 <= q < 4 ==> tw.l1[q] == L1(bits, q))
    && tw.l2[0] == Node(9, tw.l1[0], tw.l1[1]) && tw.l2[1] == Node(9, tw.l1[2], tw.l1[3])
    && tw.l3 == Node(10, tw.l2[0], tw.l2[1])
  }

  /** `check_twig`. */
  ghost predicate CheckTwig(tw: TwigData, bits: Bits) {
    BitsRight(tw, bits) && tw.twigRoot == Node(11, tw.leftRoot, tw.l3)
  }

  /** The two bit strings agree outside the touched 512-bit blocks of twig t. */
  ghost predicate OnlyTouched(a: Bits, b: Bits, t: nat, touched: set<nat>) {
    forall q :: 0 <= q < 4 && 4 * t + q !in touched ==> a[512 * q..512 * q + 512] == b[512 * q..512 * q + 512]
  }

  ghost predicate AllShaped(twigs: map<nat, TwigData>) { forall t :: t in twigs ==> Shaped(twigs[t]) }

  // ---------------------------------------------------------------- what the phases compute

  /** Phase 1: the listed 512-bit blocks rehashed. */
  ghost function L1Synced(tw: TwigData, bits: Bits, t: nat, list: seq<nat>): TwigData
    requires Shaped(tw)
  {
    tw.(l1 := seq(4, q requires 0 <= q < 4 => if 4 * t + q in list then L1(bits, q) else tw.l1[q]))
  }

  /** Phase 2, first half: the listed pairs of blocks rehashed. */
  ghost function L2Synced(tw: TwigData, t: nat, list: seq<nat>): TwigData
    requires Shaped(tw)
  {
    tw.(l2 := seq(2, h requires 0 <= h < 2 => if 2 * t + h in list then Node(9, tw.l1[2 * h], tw.l1[2 * h + 1])
        else tw.l2[h]))
  }

  /** Phase 2, second half: the listed twigs closed. */
  ghost function TopSynced(tw: TwigData, t: nat, list: seq<nat>): TwigData
    requires Shaped(tw)
  {
    if t in list then SyncTop(SyncL3(tw)) else tw
  }

  lemma L1More(tw: TwigData, bits: Bits, t: nat, list: seq<nat>, i: nat)
    requires Shaped(tw)
    ensures L1Synced(tw, bits, t, list + [i])
            == if t == i / 4 then SyncL1(L1Synced(tw, bits, t, list), i % 4, bits) else L1Synced(tw, bits, t, list)
  {
    var (a, b) := (L1Synced(tw, bits, t, list + [i]), L1Synced(tw, bits, t, list));
    assert a.l1 == if t == i / 4 then b.l1[i % 4 := L1(bits, i % 4)] else b.l1;
  }

  lemma L2More(tw: TwigData, t: nat, list: seq<nat>, i: nat)
    requires Shaped(tw)
    ensures L2Synced(tw, t, list + [i])
            == if t == i / 2 then SyncL2(L2Synced(tw, t, list), i % 2) else L2Synced(tw, t, list)
  {
    var (a, b) := (L2Synced(tw, t, list + [i]), L2Synced(tw, t, list));
    assert a.l2 == if t == i / 2 then b.l2[i % 2 := Node(9, tw.l1[2 * (i % 2)], tw.l1[2 * (i % 2) + 1])] else b.l2;
  }

  /** `sort` of the touched blocks. */
  method SortSet(s: set<nat>) returns (list: seq<nat>)
    ensures Increasing(list) && forall x :: x in list <==> x in s
  {
    list := [];
    var rest := s;
    while rest != {}
      invariant rest <= s && Increasing(list) && (forall x :: x in list <==> x in s - rest)
      invariant forall i, y :: 0 <= i < |list| && y in rest ==> list[i] < y
      decreases rest
    {
      var least := Least(rest);
      list := list + [least];
      rest := rest - {least};
    }
  }

  class Twigs {
    var twigs: map<nat, TwigData>

    constructor (twigs: map<nat, TwigData>)
      ensures this.twigs == twigs
    {
      this.twigs := twigs;
    }

    /** `sync_mt_for_active_bits_phase1`. */
    method Phase1(touched: set<nat>, bits: map<nat, Bits>) returns (list: seq<nat>, parents: seq<nat>)
      requires AllShaped(twigs) && forall b :: b in touched ==> b / 4 in twigs && b / 4 in bits
      modifies this
      ensures Increasing(list) && (forall b :: b in list <==> b in touched) && IsParents(list, parents)
      ensures twigs.Keys == old(twigs.Keys) && AllShaped(twigs)
      ensures forall t ::
                t in twigs ==> twigs[t] == if t in bits then L1Synced(old(twigs)[t], bits[t], t, list)
                    else old(twigs)[t]
    {
      list := SortSet(touched);
      for k := 0 to |list|
        invariant twigs.Keys == old(twigs.Keys) && AllShaped(twigs)
        invariant forall t ::
                    t in twigs ==> twigs[t] == if t in bits then L1Synced(old(twigs)[t], bits[t], t, list[..k])
                        else old(twigs)[t]
      {
        assert list[k] in list && list[..k + 1] == list[..k] + [list[k]];
        var t := list[k] / 4;
        forall u | u in twigs && u in bits
          ensures L1Synced(old(twigs)[u], bits[u], u, list[..k + 1])
                  == if u == t then SyncL1(twigs[u], list[k] % 4, bits[u]) else twigs[u]
        {
          L1More(old(twigs)[u], bits[u], u, list[..k], list[k]);
        }
        twigs := twigs[t := SyncL1(twigs[t], list[k] % 4, bits[t])];
      }
      assert list[..|list|] == list;
      parents := Halve(list);
    }

    /** `sync_mt_for_active_bits_phase2`. */
    method Phase2(list: seq<nat>) returns (ids: seq<nat>, parents: seq<nat>)
      requires AllShaped(twigs) && Increasing(list) && forall i :: i in list ==> i / 2 in twigs
      modifies this
      ensures IsParents(list, ids) && IsParents(ids, parents)
      ensures twigs.Keys == old(twigs.Keys)
      ensures forall t :: t in twigs ==> twigs[t] == TopSynced(L2Synced(old(twigs)[t], t, list), t, ids)
    {
      SyncPairs(list);
      ids := Halve(list);
      CloseTwigs(ids);
      parents := Halve(ids);
    }

    method SyncPairs(list: seq<nat>)
      requires AllShaped(twigs) && forall i :: i in list ==> i / 2 in twigs
      modifies this
      ensures twigs.Keys == old(twigs.Keys) && AllShaped(twigs)
      ensures forall t :: t in twigs ==> twigs[t] == L2Synced(old(twigs)[t], t, list)
    {
      for k := 0 to |list|
        invariant twigs.Keys == old(twigs.Keys) && AllShaped(twigs)
        invariant forall t :: t in twigs ==> twigs[t] == L2Synced(old(twigs)[t], t, list[..k])
      {
        assert list[k] in list && list[..k + 1] == list[..k] + [list[k]];
        var t := list[k] / 2;
        forall u | u in twigs
          ensures L2Synced(old(twigs)[u], u, list[..k + 1]) == if u == t then SyncL2(twigs[u], list[k] % 2)
              else twigs[u]
        {
          L2More(old(twigs)[u], u, list[..k], list[k]);
        }
        twigs := twigs[t := SyncL2(twigs[t], list[k] % 2)];
      }
      assert list[..|list|] == list;
    }

    method CloseTwigs(ids: seq<nat>)
      requires AllShaped(twigs) && Increasing(ids) && forall i :: i in ids ==> i in twigs
      modifies this
      ensures twigs.Keys == old(twigs.Keys)
      ensures forall t :: t in twigs ==> twigs[t] == TopSynced(old(twigs)[t], t, ids)
    {
      for k := 0 to |ids|
        invariant twigs.Keys == old(twigs.Keys) && AllShaped(twigs)
        invariant forall t :: t in twigs ==> twigs[t] == TopSynced(old(twigs)[t], t, ids[..k])
      {
        assert ids[k] in ids && ids[..k + 1] == ids[..k] + [ids[k]];
        twigs := twigs[ids[k] := SyncTop(SyncL3(twigs[ids[k]]))];
      }
      assert ids[..|ids|] == ids;
    }
  }

  // ---------------------------------------------------------------- the phases together

  /** Untouched blocks have unchanged pages. */
  lemma PagesKept(a: Bits, b: Bits, q: nat)
    requires q < 4 && a[512 * q..512 * q + 512] == b[512 * q..512 * q + 512]
    ensures L1(a, q) == L1(b, q)
  {
    var (x, y) := (a[512 * q..512 * q + 512], b[512 * q..512 * q + 512]);
    assert a[512 * q..512 * q + 256] == x[..256] && a[512 * q + 256..512 * q + 512] == x[256..];
    assert b[512 * q..512 * q + 256] == y[..256] && b[512 * q + 256..512 * q + 512] == y[256..];
  }

  /** After phase 1 the first level is right everywhere. */
  lemma FirstLevelRight(tw: TwigData, bits0: Bits, bits: Bits, t: nat, list: seq<nat>, touched: set<nat>)
    requires BitsRight(tw, bits0) && OnlyTouched(bits0, bits, t, touched) && forall b :: b in list <==> b in touched
    ensures forall q :: 0 <= q < 4 ==> L1Synced(tw, bits, t, list).l1[q] == L1(bits, q)
  {
    forall q | 0 <= q < 4 ensures L1Synced(tw, bits, t, list).l1[q] == L1(bits, q) {
      if 4 * t + q !in list { PagesKept(bits0, bits, q); }
    }
  }

  /** Some touched block belongs to twig t. */
  ghost predicate TouchedTwig(touched: set<nat>, t: nat) { exists b :: b in touched && b / 4 == t }

  lemma FourBlocks(touched: set<nat>, t: nat)
    ensures TouchedTwig(touched, t) <==>
              4 * t in touched || 4 * t + 1 in touched || 4 * t + 2 in touched || 4 * t + 3 in touched
  {
    if b :| b in touched && b / 4 == t {
      assert b == 4 * t || b == 4 * t + 1 || b == 4 * t + 2 || b == 4 * t + 3;
    }
    assert (4 * t) / 4 == t && (4 * t + 1) / 4 == t && (4 * t + 2) / 4 == t && (4 * t + 3) / 4 == t;
  }

  lemma IdTouched(touched: set<nat>, list: seq<nat>, pairs: seq<nat>, ids: seq<nat>, t: nat)
    requires (forall b :: b in list <==> b in touched) && IsParents(list, pairs) && IsParents(pairs, ids)
    ensures t in ids <==> TouchedTwig(touched, t)
  {
    FourBlocks(touched, t);
    ParentListed(pairs, ids, t);
    PairListed(touched, list, pairs, 2 * t, 4 * t);
    PairListed(touched, list, pairs, 2 * t + 1, 4 * t + 2);
  }

  /** Both phases: a touched twig satisfies `check_twig` for its new bits, whatever its leaf root
      has become; any other twig is left as it was, and was right already. */
  lemma PhasesRestore(tw: TwigData, bits0: Bits, bits: Bits, t: nat, touched: set<nat>,
                      list: seq<nat>, pairs: seq<nat>, ids: seq<nat>)
    requires BitsRight(tw, bits0) && OnlyTouched(bits0, bits, t, touched) && (forall b :: b in list <==> b in touched)
    requires IsParents(list, pairs) && IsParents(pairs, ids)
    ensures var tw' := TopSynced(L2Synced(L1Synced(tw, bits, t, list), t, pairs), t, ids);
            if TouchedTwig(touched, t) then CheckTwig(tw', bits) else tw' == tw && BitsRight(tw, bits)
  {
    BlocksListed(touched, t, list, pairs, ids);
    FirstLevelRight(tw, bits0, bits, t, list, touched);
    if TouchedTwig(touched, t) {
      AssembleTwig(tw, bits, t, list, pairs, ids);
    } else {
      LeftAlone(tw, bits, t, list, pairs, ids);
    }
  }

  lemma BlocksListed(touched: set<nat>, t: nat, list: seq<nat>, pairs: seq<nat>, ids: seq<nat>)
    requires (forall b :: b in list <==> b in touched) && IsParents(list, pairs) && IsParents(pairs, ids)
    ensures BlocksTouched(touched, t, list, pairs, ids)
  {
    PairListed(touched, list, pairs, 2 * t, 4 * t);
    PairListed(touched, list, pairs, 2 * t + 1, 4 * t + 2);
    IdTouched(touched, list, pairs, ids, t);
    FourBlocks(touched, t);
  }

  lemma PairListed(touched: set<nat>, list: seq<nat>, pairs: seq<nat>, n: nat, b: nat)
    requires (forall x :: x in list <==> x in touched) && IsParents(list, pairs) && b == 2 * n
    ensures n in pairs <==> b in list || b + 1 in list
  {
    ParentListed(list, pairs, n);
  }

  /** A pair is listed iff one of its blocks is, a twig iff one of its four. */
  ghost predicate BlocksTouched(touched: set<nat>, t: nat, list: seq<nat>, pairs: seq<nat>, ids: seq<nat>) {
    && (2 * t in pairs <==> 4 * t in list || 4 * t + 1 in list)
    && (2 * t + 1 in pairs <==> 4 * t + 2 in list || 4 * t + 3 in list)
    && (t in ids <==> TouchedTwig(touched, t))
    && (TouchedTwig(touched, t) <==> 4 * t in list || 4 * t + 1 in list || 4 * t + 2 in list || 4 * t + 3 in list)
  }

  lemma LeftAlone(tw: TwigData, bits: Bits, t: nat, list: seq<nat>, pairs: seq<nat>, ids: seq<nat>)
    requires Shaped(tw) && t !in ids && 2 * t !in pairs && 2 * t + 1 !in pairs
    requires 4 * t !in list && 4 * t + 1 !in list && 4 * t + 2 !in list && 4 * t + 3 !in list
    ensures L1Synced(tw, bits, t, list) == tw
    ensures TopSynced(L2Synced(L1Synced(tw, bits, t, list), t, pairs), t, ids) == tw
  {
    assert L1Synced(tw, bits, t, list).l1 == tw.l1;
    assert L2Synced(tw, t, pairs).l2 == tw.l2;
  }

  /** Once the first level is right and every changed pair is listed, the levels above follow. */
  lemma AssembleTwig(tw: TwigData, bits: Bits, t: nat, list: seq<nat>, pairs: seq<nat>, ids: seq<nat>)
    requires Shaped(tw) && tw.l2[0] == Node(9, tw.l1[0], tw.l1[1]) && tw.l2[1] == Node(9, tw.l1[2], tw.l1[3])
    requires forall q :: 0 <= q < 4 ==> L1Synced(tw, bits, t, list).l1[q] == L1(bits, q)
    requires 2 * t in pairs <==> 4 * t in list || 4 * t + 1 in list
    requires 2 * t + 1 in pairs <==> 4 * t + 2 in list || 4 * t + 3 in list
    ensures t in ids ==> CheckTwig(TopSynced(L2Synced(L1Synced(tw, bits, t, list), t, pairs), t, ids), bits)
  {
    var a := L1Synced(tw, bits, t, list);
    var b := L2Synced(a, t, pairs);
    assert a.l1[0] == L1(bits, 0) && a.l1[1] == L1(bits, 1) && a.l1[2] == L1(bits, 2) && a.l1[3] == L1(bits, 3);
    assert b.l2[0] == Node(9, a.l1[0], a.l1[1]);
    assert b.l2[1] == Node(9, a.l1[2], a.l1[3]);
  }

  /** What phase 2 hands on is the increasing list of the parents of touched twigs. */
  lemma ParentsOfTouched(touched: set<nat>, list: seq<nat>, pairs: seq<nat>, ids: seq<nat>, parents: seq<nat>)
    requires (forall b :: b in list <==> b in touched) && IsParents(list, pairs) && IsParents(pairs, ids)
    requires IsParents(ids, parents)
    ensures Increasing(parents)
    ensures forall n: nat :: n in parents <==> TouchedTwig(touched, 2 * n) || TouchedTwig(touched, 2 * n + 1)
  {
    forall n: nat ensures n in parents <==> TouchedTwig(touched, 2 * n) || TouchedTwig(touched, 2 * n + 1) {
      IdTouched(touched, list, pairs, ids, 2 * n);
      IdTouched(touched, list, pairs, ids, 2 * n + 1);
      ParentListed(ids, parents, n);
    }
  }

  lemma ParentListed(ids: seq<nat>, parents: seq<nat>, n: nat)
    requires IsParents(ids, parents)
    ensures n in parents <==> 2 * n in ids || 2 * n + 1 in ids
  {
    if n in parents {
      var t :| t in ids && t / 2 == n;
      assert t == 2 * n || t == 2 * n + 1;
    }
    assert 2 * n in ids ==> (2 * n) / 2 in parents;
    assert 2 * n + 1 in ids ==> (2 * n + 1) / 2 in parents;
  }
}
