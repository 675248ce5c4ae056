/** Which nodes a witness must contain: the construction of the cut from the serial numbers. */
module WitnessBuild {
  import opened Basics
  import opened Merkle
  import opened Witness

  /** A position in the binary tree over leaf slots: twig t owns 4096 level-0 slots, the first
      2048 for entries; the second half holds eight 256-bit pages at level 8. */
  datatype Place = Place(level: nat, nth: nat)

  /** `sn_to_level0nth` */
  function SnToLevel0(sn: nat): nat { sn / 2048 * 4096 + sn % 2048 }

  /** `level0nth_to_level8nth` */
  function Level0ToLevel8(x: nat): nat { 16 * (x / 4096) + 8 + (x / 256) % 8 }

  function Sibling(p: Place): Place { p.(nth := if p.nth % 2 == 0 then p.nth + 1 else p.nth - 1) }

  function Up(p: Place, level: nat): Place
    requires p.level <= level
  {
    Place(level, Shr(p.nth, level - p.level))
  }

  /** p lies at or below q. */
  predicate Under(p: Place, q: Place) { p.level <= q.level && Up(p, q.level) == q }

  /** Some target lies at or below p. */
  ghost predicate Anc(targets: set<Place>, p: Place) { exists x :: x in targets && Under(x, p) }

  /** No target lies below another one. */
  ghost predicate Antichain(targets: set<Place>) {
    forall x, y :: x in targets && y in targets && Under(x, y) ==> x == y
  }

  /** The cut that isolates the targets: nodes above a target are split, others are taken whole. */
  ghost function CutPlaces(targets: set<Place>, p: Place): seq<Place>
    decreases p.level
  {
    if p.level == 0 || p in targets || !Anc(targets, p) then [p]
    else CutPlaces(targets, Place(p.level - 1, 2 * p.nth)) + CutPlaces(targets, Place(p.level - 1, 2 * p.nth + 1))
  }

  /** What such a cut of the node `top` contains. */
  ghost predicate InCut(targets: set<Place>, top: Place, p: Place) {
    && Under(p, top)
    && if p == top then p.level == 0 || p in targets || !Anc(targets, p)
       else Anc(targets, top) && top !in targets && (p in targets || (!Anc(targets, p) && Anc(targets, Sibling(p))))
  }

  lemma UnderTrans(p: Place, q: Place, r: Place)
    requires Under(p, q) && q.level <= r.level
    ensures Under(p, r) <==> Under(q, r)
  {
    ShrAdd(p.nth, q.level - p.level, r.level - q.level);
  }

  /** A place below a node is that node or lies below exactly one of its children. */
  lemma UnderChild(p: Place, q: Place)
    requires q.level > 0
    ensures var (l, r) := (Place(q.level - 1, 2 * q.nth), Place(q.level - 1, 2 * q.nth + 1));
            && (Under(p, q) <==> p == q || Under(p, l) || Under(p, r))
            && !(Under(p, l) && Under(p, r)) && !(p == q && (Under(p, l) || Under(p, r)))
  {
    if p.level < q.level {
      assert Shr(p.nth, q.level - p.level) == Shr(p.nth, q.level - 1 - p.level) / 2;
    }
  }

  /** Below a split node some child is above a target. */
  lemma AncChild(targets: set<Place>, q: Place)
    requires q.level > 0 && q !in targets
    ensures var (l, r) := (Place(q.level - 1, 2 * q.nth), Place(q.level - 1, 2 * q.nth + 1));
            Anc(targets, q) <==> Anc(targets, l) || Anc(targets, r)
  {
    var (l, r) := (Place(q.level - 1, 2 * q.nth), Place(q.level - 1, 2 * q.nth + 1));
    if x :| x in targets && Under(x, q) { UnderChild(x, q); }
    if x :| x in targets && Under(x, l) { UnderChild(x, q); }
    if x :| x in targets && Under(x, r) { UnderChild(x, q); }
  }

  /** A node with a cut place properly below it is above a target and no target itself. */
  lemma CutBelow(targets: set<Place>, c: Place, p: Place)
    requires Antichain(targets) && Under(p, c) && p != c
    requires p in targets || Anc(targets, Sibling(p))
    ensures Anc(targets, c) && c !in targets
  {
    var x;
    if p in targets {
      x := p;
    } else {
      x :| x in targets && Under(x, Sibling(p));
      SiblingUnder(p, c);
      UnderTrans(x, Sibling(p), c);
    }
    assert Under(x, c) && x != c;
  }

  lemma SiblingUnder(p: Place, c: Place)
    requires Under(p, c) && p.level < c.level
    ensures Under(Sibling(p), c)
  {
    ShrFirst(p.nth, c.level - p.level);
    ShrFirst(Sibling(p).nth, c.level - p.level);
  }

  /** The cut contains the targets, and the siblings of path nodes that are not on a path. */
  lemma {:induction false} CutMembers(targets: set<Place>, top: Place, p: Place)
    requires Antichain(targets)
    ensures p in CutPlaces(targets, top) <==> InCut(targets, top, p)
    decreases top.level
  {
    if top.level > 0 && top !in targets && Anc(targets, top) {
      var (l, r) := (Place(top.level - 1, 2 * top.nth), Place(top.level - 1, 2 * top.nth + 1));
      CutMembers(targets, l, p);
      CutMembers(targets, r, p);
      UnderChild(p, top);
      AncChild(targets, top);
      assert Sibling(l) == r && Sibling(r) == l;
      if Under(p, l) { InCutChild(targets, top, l, p); } else if Under(p, r) { InCutChild(targets, top, r, p); }
    }
  }

  /** Below a split node, being in the cut of the child is being in the cut of the node. */
  lemma InCutChild(targets: set<Place>, top: Place, c: Place, p: Place)
    requires Antichain(targets) && top.level > 0 && top !in targets && Anc(targets, top)
    requires c.level == top.level - 1 && c.nth / 2 == top.nth && Under(p, c) && p != top && Under(p, top)
    requires Anc(targets, c) || Anc(targets, Sibling(c))
    ensures InCut(targets, c, p) <==> InCut(targets, top, p)
  {
    if p == c {
      if c in targets { assert Under(c, c); }
      if c.level == 0 && Anc(targets, c) {
        var x :| x in targets && Under(x, c);
        assert x == c;
      }
    } else if p in targets || (!Anc(targets, p) && Anc(targets, Sibling(p))) {
      CutBelow(targets, c, p);
    }
  }

  /** Where a place starts among the level-0 slots. */
  function Start(p: Place): nat { Shl(p.nth, p.level) }

  ghost predicate SortedPlaces(s: seq<Place>) { forall i, j :: 0 <= i < j < |s| ==> Start(s[i]) < Start(s[j]) }

  lemma {:induction false} ShlMonotone(a: nat, b: nat, k: nat)
    ensures Shl(a, k) < Shl(b, k) <==> a < b
  {
    if k > 0 { ShlMonotone(a, b, k - 1); }
  }

  ghost predicate Within(s: seq<Place>, lo: nat, hi: nat) { forall p :: p in s ==> lo <= Start(p) < hi }

  lemma SortedConcat(a: seq<Place>, b: seq<Place>, lo: nat, mid: nat, hi: nat)
    requires SortedPlaces(a) && SortedPlaces(b) && Within(a, lo, mid) && Within(b, mid, hi) && lo <= mid <= hi
    ensures SortedPlaces(a + b) && Within(a + b, lo, hi)
  {
    forall i, j | 0 <= i < j < |a + b| ensures Start((a + b)[i]) < Start((a + b)[j]) {
      if i < |a| <= j { assert a[i] in a && b[j - |a|] in b; }
    }
  }

  /** The slots right after a place. */
  function End(p: Place): nat { Shl(p.nth + 1, p.level) }

  lemma Halves(p: Place)
    requires p.level > 0
    ensures var (l, r) := (Place(p.level - 1, 2 * p.nth), Place(p.level - 1, 2 * p.nth + 1));
            Start(p) == Start(l) <= End(l) == Start(r) <= End(r) == End(p)
  {
    ShlFirst(p.nth, p.level);
    ShlFirst(p.nth + 1, p.level);
    assert 2 * p.nth + 1 + 1 == 2 * (p.nth + 1);
    ShlMonotone(2 * p.nth, 2 * p.nth + 1, p.level - 1);
    ShlMonotone(2 * p.nth + 1, 2 * p.nth + 2, p.level - 1);
  }

  /** A cut lists its places from left to right, within the bounds of the node cut. */
  lemma {:induction false} CutSorted(targets: set<Place>, top: Place)
    ensures SortedPlaces(CutPlaces(targets, top)) && Within(CutPlaces(targets, top), Start(top), End(top))
    decreases top.level
  {
    if top.level == 0 || top in targets || !Anc(targets, top) {
      ShlMonotone(top.nth, top.nth + 1, top.level);
    } else {
      var (l, r) := (Place(top.level - 1, 2 * top.nth), Place(top.level - 1, 2 * top.nth + 1));
      CutSorted(targets, l);
      CutSorted(targets, r);
      Halves(top);
      SortedConcat(CutPlaces(targets, l), CutPlaces(targets, r), Start(l), Start(r), End(r));
    }
  }

  /** Sorting has one outcome. */
  lemma {:induction false} SortedUnique(a: seq<Place>, b: seq<Place>)
    requires SortedPlaces(a) && SortedPlaces(b) && forall p :: p in a <==> p in b
    ensures a == b
    decreases |a|
  {
    assert b == [] || b[0] in b;
    if a != [] {
      assert a[0] in a;
      assert a[0] in b;
      assert b[0] in b;
      assert b[0] in a;
      assert a[0] == b[0];
      forall p ensures p in a[1..] <==> p in b[1..] {
        assert p in a[1..] ==> p in a;
        assert p in b[1..] ==> p in b;
      }
      SortedUnique(a[1..], b[1..]);
    }
  }

  // ---------------------------------------------------------------- collecting the nodes

  /** x, and the siblings of its ancestors-or-self below level `max`. */
  ghost predicate OnPath(x: Place, max: nat, p: Place) {
    p == x || (x.level <= p.level < max && Under(x, Sibling(p)))
  }

  /** `_get_pos_list`, called with the level below the root. */
  method GetPosList(max: nat, included: set<Place>, x: Place) returns (s: set<Place>)
    requires x.level <= max
    ensures forall p :: p in s <==> p in included || OnPath(x, max, p)
  {
    s := included + {x};
    var nth := x.nth;
    for level := x.level to max
      invariant nth == Shr(x.nth, level - x.level)
      invariant forall p :: p in s <==> p in included || OnPath(x, level, p)
    {
      var sib := Sibling(Place(level, nth));
      forall p ensures OnPath(x, level + 1, p) <==> OnPath(x, level, p) || p == sib {
        if p.level == level && Sibling(p) == Place(level, nth) { assert p == sib; }
      }
      s := s + {sib};
      nth := nth / 2;
    }
  }

  /** The proper ancestors of x up to level `max`. */
  ghost predicate Above(x: Place, max: nat, p: Place) { x.level < p.level <= max && Under(x, p) }

  /** One round of the clean-up. */
  method RemoveAncestors(max: nat, included: set<Place>, x: Place) returns (s: set<Place>)
    requires x.level <= max
    ensures forall p :: p in s <==> p in included && !Above(x, max, p)
  {
    s := included;
    var nth := x.nth;
    for level := x.level to max
      invariant nth == Shr(x.nth, level - x.level)
      invariant forall p :: p in s <==> p in included && !Above(x, level, p)
    {
      nth := nth / 2;
      s := s - {Place(level + 1, nth)};
    }
  }

  function LeafPlace(sn: nat): Place { Place(0, SnToLevel0(sn)) }
  function PagePlace(sn: nat): Place { Place(8, Level0ToLevel8(SnToLevel0(sn))) }

  /** The leaf and the page of active bits of every serial number. */
  function Targets(sns: seq<nat>): (r: set<Place>)
    ensures forall p :: p in r <==> exists k :: 0 <= k < |sns| && (p == LeafPlace(sns[k]) || p == PagePlace(sns[k]))
  {
    if sns == [] then {} else Targets(sns[..|sns| - 1]) + {LeafPlace(sns[|sns| - 1]), PagePlace(sns[|sns| - 1])}
  }

  ghost predicate Collected(targets: set<Place>, max: nat, p: Place) { exists x :: x in targets && OnPath(x, max, p) }
  ghost predicate Removed(targets: set<Place>, max: nat, p: Place) { exists x :: x in targets && Above(x, max, p) }

  lemma CollectedMore(targets: set<Place>, x: Place, max: nat, p: Place)
    ensures Collected(targets + {x}, max, p) <==> Collected(targets, max, p) || OnPath(x, max, p)
    ensures Removed(targets + {x}, max, p) <==> Removed(targets, max, p) || Above(x, max, p)
  {
    assert x in targets + {x};
    forall y | y in targets ensures y in targets + {x} {}
  }

  // ---------------------------------------------------------------- geometry of twigs

  /** Entries sit in the left half of their twig, pages in the right half at level 8. */
  ghost predicate LeafOfTwig(x: Place, t: nat) {
    x.level == 0 && IsShr(x.nth, 12, t) && IsShr(x.nth, 11, 2 * t) && exists q: nat :: IsShr(x.nth, 8, q) && q % 16 < 8
  }
  predicate PageOfTwig(x: Place, t: nat) { x.level == 8 && x.nth % 16 >= 8 && IsShr(x.nth, 4, t) }

  lemma TargetShape(sn: nat)
    ensures LeafOfTwig(LeafPlace(sn), sn / 2048) && PageOfTwig(PagePlace(sn), sn / 2048)
  {
    var (t, o) := (sn / 2048, sn % 2048);
    LeafShape(LeafPlace(sn), t, o);
    assert Level0ToLevel8(t * 4096 + o) == 16 * t + 8 + o / 256 by { SlotParts(t, o); }
    PageShape(PagePlace(sn), t, o / 256);
  }

  lemma PageShape(x: Place, t: nat, r: nat)
    requires x.level == 8 && x.nth == 16 * t + 8 + r && r < 8
    ensures PageOfTwig(x, t)
  {
    assert x.nth / 16 == t && x.nth % 16 == 8 + r;
    ShrFour(x.nth);
  }

  lemma LeafShape(x: Place, t: nat, o: nat)
    requires x.level == 0 && x.nth == t * 4096 + o && o < 2048
    ensures LeafOfTwig(x, t)
  {
    var n := x.nth;
    assert IsShr(n, 8, n / 256) && IsShr(n, 12, t) && IsShr(n, 11, 2 * t) by {
      ShrBytes(n);
      SlotParts(t, o);
    }
    assert n / 256 == 16 * t + o / 256 by { SlotParts(t, o); }
    LowNibble(n / 256, t, o / 256);
  }

  lemma TargetTwig(sns: seq<nat>, x: Place) returns (t: nat)
    requires x in Targets(sns)
    ensures LeafOfTwig(x, t) || PageOfTwig(x, t)
    ensures Ascending(sns) ==> t <= sns[|sns| - 1] / 2048
  {
    var k :| 0 <= k < |sns| && (x == LeafPlace(sns[k]) || x == PagePlace(sns[k]));
    TargetShape(sns[k]);
    t := sns[k] / 2048;
  }

  lemma LowNibble(q: nat, t: nat, r: nat)
    requires q == 16 * t + r && r < 16
    ensures q % 16 == r
  {
  }

  lemma SlotParts(t: nat, o: nat)
    requires o < 2048
    ensures var x := t * 4096 + o;
            && x / 4096 == t && x / 2048 == 2 * t && x / 256 == 16 * t + o / 256
            && Level0ToLevel8(x) == 16 * t + 8 + o / 256
  {
    assert (t * 4096 + o) / 4096 == t;
    assert (t * 4096 + o) / 2048 == 2 * t;
    PagePart(t, o / 256, o % 256, t * 4096 + o);
  }

  lemma PagePart(t: nat, r: nat, low: nat, x: nat)
    requires x == 4096 * t + 256 * r + low && low < 256 && r < 8
    ensures x / 256 == 16 * t + r && (x / 256) % 8 == r
  {
    LowBits(x / 256, 2 * t, r);
  }

  lemma LowBits(y: nat, u: nat, r: nat)
    requires y == 8 * u + r && r < 8
    ensures y % 8 == r
  {
  }

  lemma NoLeafUnderPage(x: Place, t: nat, y: Place, u: nat)
    requires LeafOfTwig(x, t) && PageOfTwig(y, u)
    ensures !Under(x, y)
  {
    var q: nat :| IsShr(x.nth, 8, q) && q % 16 < 8;
  }

  lemma TargetsAntichain(sns: seq<nat>)
    ensures Antichain(Targets(sns))
  {
    forall x, y | x in Targets(sns) && y in Targets(sns) && Under(x, y) ensures x == y {
      var t := TargetTwig(sns, x);
      var u := TargetTwig(sns, y);
      if LeafOfTwig(x, t) && PageOfTwig(y, u) { NoLeafUnderPage(x, t, y, u); }
    }
  }

  ghost predicate Ascending(sns: seq<nat>) { forall i, j :: 0 <= i <= j < |sns| ==> sns[i] <= sns[j] }

  /** The root of the smallest tree that holds the twig of the last serial number. */
  function TopOf(sns: seq<nat>): Place
    requires sns != []
  {
    Place(MaxLevel(sns[|sns| - 1] / 2048), 0)
  }

  lemma VanishesAt(n: nat, a: nat, u: nat, t: nat)
    requires IsShr(n, a, u) && u <= t
    ensures Shr(n, a + BitLen(t)) == 0
  {
    ShrMonotone(u, t, BitLen(t));
    ShrVanishes(t, BitLen(t));
    ShrAdd(n, a, BitLen(t));
  }

  lemma BelowRoot(x: Place, t: nat, u: nat)
    requires (LeafOfTwig(x, t) || PageOfTwig(x, t)) && t <= u
    ensures x.level <= 8 && Under(x, Place(MaxLevel(u), 0))
  {
    if x.level == 0 { VanishesAt(x.nth, 12, t, u); } else { VanishesAt(x.nth, 4, t, u); }
  }

  lemma TargetsBelowTop(sns: seq<nat>, x: Place)
    requires Ascending(sns) && x in Targets(sns)
    ensures x.level <= 8 && Under(x, TopOf(sns))
  {
    var t := TargetTwig(sns, x);
    BelowRoot(x, t, sns[|sns| - 1] / 2048);
  }

  /** Collecting the path siblings and removing the ancestors leaves exactly the cut. */
  lemma CollectedIsCut(sns: seq<nat>, p: Place)
    requires sns != [] && Ascending(sns)
    ensures var (ts, max) := (Targets(sns), TopOf(sns).level);
            Collected(ts, max, p) && !Removed(ts, max, p) <==> InCut(ts, TopOf(sns), p)
  {
    var (ts, top) := (Targets(sns), TopOf(sns));
    TargetsAntichain(sns);
    assert LeafPlace(sns[0]) in ts;
    forall x | x in ts ensures x.level <= 8 && Under(x, top) { TargetsBelowTop(sns, x); }
    assert Anc(ts, top) && top !in ts;
    if Collected(ts, top.level, p) && !Removed(ts, top.level, p) {
      CollectedInCut(ts, top, p);
    }
    if InCut(ts, top, p) {
      CutCollected(ts, top, p);
    }
  }

  lemma CollectedInCut(ts: set<Place>, top: Place, p: Place)
    requires Anc(ts, top) && top !in ts && Collected(ts, top.level, p) && !Removed(ts, top.level, p)
    requires forall x :: x in ts ==> x.level < top.level && Under(x, top)
    ensures InCut(ts, top, p)
  {
    var x :| x in ts && OnPath(x, top.level, p);
    if p != x {
      UnderTrans(x, Sibling(p), top);
      SiblingUnder(Sibling(p), top);
      assert Sibling(Sibling(p)) == p;
      if y :| y in ts && Under(y, p) { assert Above(y, top.level, p) || y == p; }
    }
  }

  lemma CutCollected(ts: set<Place>, top: Place, p: Place)
    requires Anc(ts, top) && top !in ts && InCut(ts, top, p) && Antichain(ts)
    requires forall x :: x in ts ==> x.level < top.level && Under(x, top)
    ensures Collected(ts, top.level, p) && !Removed(ts, top.level, p)
  {
    if p in ts {
      assert OnPath(p, top.level, p);
    } else {
      var x :| x in ts && Under(x, Sibling(p));
      assert OnPath(x, top.level, p);
    }
  }

  /** The collecting half of `get_witness_from_tree`. */
  method GetPosSet(sns: seq<nat>) returns (s: set<Place>)
    requires sns != [] && Ascending(sns)
    ensures forall p :: p in s <==> InCut(Targets(sns), TopOf(sns), p)
  {
    var max := TopOf(sns).level;
    s := {};
    for i := 0 to |sns|
      invariant forall p :: p in s <==> Collected(Targets(sns[..i]), max, p)
    {
      ghost var ts := Targets(sns[..i]);
      s := GetPosList(max, s, LeafPlace(sns[i]));
      s := GetPosList(max, s, PagePlace(sns[i]));
      TargetsMore(sns, i, max);
    }
    assert sns[..|sns|] == sns;
    ghost var all := s;
    for i := 0 to |sns|
      invariant forall p :: p in s <==> p in all && !Removed(Targets(sns[..i]), max, p)
    {
      s := RemoveAncestors(max, s, LeafPlace(sns[i]));
      s := RemoveAncestors(max, s, PagePlace(sns[i]));
      TargetsMore(sns, i, max);
    }
    assert sns[..|sns|] == sns;
    forall p ensures p in s <==> InCut(Targets(sns), TopOf(sns), p) { CollectedIsCut(sns, p); }
  }

  lemma TargetsMore(sns: seq<nat>, i: nat, max: nat)
    requires i < |sns|
    ensures forall p :: Collected(Targets(sns[..i + 1]), max, p)
              <==> Collected(Targets(sns[..i]), max, p) || OnPath(LeafPlace(sns[i]), max,
                  p) || OnPath(PagePlace(sns[i]), max, p)
    ensures forall p :: Removed(Targets(sns[..i + 1]), max, p)
              <==> Removed(Targets(sns[..i]), max, p) || Above(LeafPlace(sns[i]), max, p) || Above(PagePlace(sns[i]),
                  max, p)
  {
    var (ts, l, r) := (Targets(sns[..i]), LeafPlace(sns[i]), PagePlace(sns[i]));
    assert sns[..i + 1][..i] == sns[..i];
    assert Targets(sns[..i + 1]) == ts + {l} + {r};
    forall p
      ensures Collected(ts + {l} + {r}, max, p) <==> Collected(ts, max, p) || OnPath(l, max, p) || OnPath(r, max, p)
      ensures Removed(ts + {l} + {r}, max, p) <==> Removed(ts, max, p) || Above(l, max, p) || Above(r, max, p)
    {
      CollectedMore(ts, l, max, p);
      CollectedMore(ts + {l}, r, max, p);
    }
  }

  // ---------------------------------------------------------------- sorting

  /** `_sort_pos_list`; the order in which the hash set yields its elements is arbitrary. */
  method SortPosList(s: set<Place>) returns (list: seq<Place>)
    ensures (forall p :: p in list <==> p in s) && InOrder(list)
  {
    var rest := s;
    list := [];
    while rest != {}
      invariant rest <= s && forall p :: p in list <==> p in s - rest
      invariant InOrder(list)
      decreases |rest|
    {
      var p :| p in rest;
      var k := |list|;
      while k > 0 && Start(list[k - 1]) > Start(p)
        invariant 0 <= k <= |list| && forall j :: k <= j < |list| ==> Start(p) <= Start(list[j])
      {
        k := k - 1;
      }
      ghost var was := list;
      list := list[..k] + [p] + list[k..];
      InsertedInOrder(was, k, p);
      rest := rest - {p};
    }
  }

  ghost predicate InOrder(list: seq<Place>) {
    forall i, j :: 0 <= i < j < |list| ==> Start(list[i]) <= Start(list[j]) && list[i] != list[j]
  }

  lemma InsertedPair(list: seq<Place>, k: nat, p: Place, r: seq<Place>, i: nat, j: nat)
    requires k <= |list| && InOrder(list) && p !in list && r == list[..k] + [p] + list[k..] && i < j < |r|
    requires (k > 0 ==> Start(list[k - 1]) <= Start(p)) && forall x :: k <= x < |list| ==> Start(p) <= Start(list[x])
    ensures Start(r[i]) <= Start(r[j]) && r[i] != r[j]
  {
    assert r[i] == if i < k then list[i] else if i == k then p else list[i - 1];
    assert r[j] == if j < k then list[j] else if j == k then p else list[j - 1];
    assert i < k - 1 ==> Start(list[i]) <= Start(list[k - 1]);
  }

  lemma InsertedMember(list: seq<Place>, k: nat, p: Place, q: Place)
    requires k <= |list|
    ensures q in list[..k] + [p] + list[k..] <==> q in list || q == p
  {
    assert list == list[..k] + list[k..];
  }

  lemma InsertedInOrder(list: seq<Place>, k: nat, p: Place)
    requires k <= |list| && InOrder(list) && p !in list
    requires (k > 0 ==> Start(list[k - 1]) <= Start(p)) && forall j :: k <= j < |list| ==> Start(p) <= Start(list[j])
    ensures var r := list[..k] + [p] + list[k..]; InOrder(r) && forall q :: q in r <==> q in list || q == p
  {
    var r := list[..k] + [p] + list[k..];
    forall q ensures q in r <==> q in list || q == p { InsertedMember(list, k, p, q); }
    forall i, j | 0 <= i < j < |r| ensures Start(r[i]) <= Start(r[j]) && r[i] != r[j] {
      InsertedPair(list, k, p, r, i, j);
    }
  }

  // ---------------------------------------------------------------- values

  /** What the tree stores at the bottom: entry hashes, and pages of active bits. */
  datatype Slots = Slots(leaf: nat -> Digest, page: nat -> Digest)

  /** Pages are the level-8 nodes in the right half of a twig. */
  predicate IsPage(p: Place) { p.level == 8 && InRightHalf(p.nth) }

  /** The second eight of every sixteen. */
  predicate InRightHalf(n: nat) { if n >= 16 then InRightHalf(n - 16) else n >= 8 }

  lemma {:induction false} RightHalfIff(n: nat)
    ensures InRightHalf(n) <==> n % 16 >= 8
  {
    if n >= 16 { RightHalfIff(n - 16); }
  }

  /** The Merkle value of a place. */
  function W(s: Slots, p: Place): Digest
    decreases p.level
  {
    if p.level == 0 then s.leaf(p.nth)
    else if IsPage(p) then s.page(p.nth)
    else Node(p.level - 1, W(s, Place(p.level - 1, 2 * p.nth)), W(s, Place(p.level - 1, 2 * p.nth + 1)))
  }

  /** The trees agree on everything that is not a target. */
  ghost predicate AgreeOff(targets: set<Place>, a: Slots, b: Slots) {
    forall p: Place {:trigger SameSlot(a, b, p)} :: p.level == 0 || IsPage(p) ==> p in targets || SameSlot(a, b, p)
  }

  ghost predicate SameSlot(a: Slots, b: Slots, p: Place) { W(a, p) == W(b, p) }

  lemma {:induction false} Untouched(targets: set<Place>, a: Slots, b: Slots, p: Place)
    requires AgreeOff(targets, a, b) && !Anc(targets, p)
    ensures W(a, p) == W(b, p)
    decreases p.level
  {
    if p in targets { assert Under(p, p); }
    assert p.level == 0 || IsPage(p) ==> SameSlot(a, b, p);
    if p.level > 0 && !IsPage(p) {
      AncChild(targets, p);
      Untouched(targets, a, b, Place(p.level - 1, 2 * p.nth));
      Untouched(targets, a, b, Place(p.level - 1, 2 * p.nth + 1));
    }
  }

  /** A witness node after the new entries were applied: only targets got a new value. */
  function Updated(targets: set<Place>, a: Slots, b: Slots, p: Place): Item {
    Item(p.level, p.nth, W(a, p), if p in targets then W(b, p) else W(a, p))
  }

  function UpdatedAll(targets: set<Place>, a: Slots, b: Slots, ps: seq<Place>): (r: seq<Item>)
    ensures |r| == |ps| && forall k :: 0 <= k < |ps| ==> r[k] == Updated(targets, a, b, ps[k])
  {
    seq(|ps|, k requires 0 <= k < |ps| => Updated(targets, a, b, ps[k]))
  }

  lemma UpdatedConcat(targets: set<Place>, a: Slots, b: Slots, x: seq<Place>, y: seq<Place>)
    ensures UpdatedAll(targets, a, b, x + y) == UpdatedAll(targets, a, b, x) + UpdatedAll(targets, a, b, y)
  {
  }

  /** A node that gets split is no page. */
  lemma SplitInner(sns: seq<nat>, p: Place)
    requires Anc(Targets(sns), p) && p !in Targets(sns)
    ensures !IsPage(p)
  {
    var x :| x in Targets(sns) && Under(x, p);
    var t := TargetTwig(sns, x);
    RightHalfIff(p.nth);
    if IsPage(p) && LeafOfTwig(x, t) { NoLeafUnderPage(x, t, p, Shr(p.nth, 4)); }
  }

  ghost predicate CutOf(ts: set<Place>, a: Slots, b: Slots, p: Place, c: Cut) {
    && Paired(c) && Top(c) == Item(p.level, p.nth, W(a, p), W(b, p))
    && Flatten(c) == UpdatedAll(ts, a, b, CutPlaces(ts, p))
  }

  lemma CutSplit(ts: set<Place>, a: Slots, b: Slots, p: Place, l: Cut, r: Cut)
    requires p.level > 0 && p !in ts && Anc(ts, p) && !IsPage(p)
    requires CutOf(ts, a, b, Place(p.level - 1, 2 * p.nth), l) && CutOf(ts, a, b, Place(p.level - 1, 2 * p.nth + 1), r)
    ensures CutOf(ts, a, b, p, Split(l, r))
  {
    var (pl, pr) := (Place(p.level - 1, 2 * p.nth), Place(p.level - 1, 2 * p.nth + 1));
    assert Paired(Split(l, r)) && Top(Split(l, r)) == Parent(Top(l), Top(r));
    assert Top(Split(l, r)) == Item(p.level, p.nth, W(a, p), W(b, p));
    FlattenSplit(ts, a, b, CutPlaces(ts, pl), CutPlaces(ts, pr), l, r);
    assert CutPlaces(ts, p) == CutPlaces(ts, pl) + CutPlaces(ts, pr);
  }

  lemma FlattenSplit(ts: set<Place>, a: Slots, b: Slots, x: seq<Place>, y: seq<Place>, l: Cut, r: Cut)
    requires Flatten(l) == UpdatedAll(ts, a, b, x) && Flatten(r) == UpdatedAll(ts, a, b, y)
    ensures Flatten(Split(l, r)) == UpdatedAll(ts, a, b, x + y)
  {
    UpdatedConcat(ts, a, b, x, y);
  }

  lemma {:induction false} CutValue(sns: seq<nat>, a: Slots, b: Slots, p: Place) returns (c: Cut)
    requires AgreeOff(Targets(sns), a, b)
    ensures CutOf(Targets(sns), a, b, p, c)
    decreases p.level
  {
    var ts := Targets(sns);
    if p.level == 0 || p in ts || !Anc(ts, p) {
      if !Anc(ts, p) { Untouched(ts, a, b, p); }
      c := Whole(Updated(ts, a, b, p));
    } else {
      SplitInner(sns, p);
      var l := CutValue(sns, a, b, Place(p.level - 1, 2 * p.nth));
      var r := CutValue(sns, a, b, Place(p.level - 1, 2 * p.nth + 1));
      c := Split(l, r);
      CutSplit(ts, a, b, p, l, r);
    }
  }

  /** The place that the emitted cut is a cut of. */
  function RootOf(sns: seq<nat>, youngest: nat): Place {
    if sns == [] then TreeRoot(youngest) else TopOf(sns)
  }

  /** The root of the tree whose youngest twig this is. */
  function TreeRoot(youngest: nat): Place { Place(MaxLevel(youngest), 0) }

  /** The positions that `get_witness_from_tree` reads, without active-bits-only numbers: a cut, from
      left to right, below the root of the smallest tree that holds the last serial number. */
  method WitnessPlaces(sns: seq<nat>, youngest: nat) returns (list: seq<Place>)
    requires Ascending(sns)
    ensures list == CutPlaces(Targets(sns), RootOf(sns, youngest))
  {
    if sns == [] { return [TreeRoot(youngest)]; }
    var included := GetPosSet(sns);
    list := SortPosList(included);
    ghost var cut := CutPlaces(Targets(sns), TopOf(sns));
    forall p ensures p in list <==> p in cut {
      TargetsAntichain(sns);
      CutMembers(Targets(sns), TopOf(sns), p);
    }
    CutSorted(Targets(sns), TopOf(sns));
    SortedLike(list, cut);
  }

  lemma SortedLike(list: seq<Place>, cut: seq<Place>)
    requires InOrder(list) && SortedPlaces(cut) && forall p :: p in list <==> p in cut
    ensures list == cut
  {
    forall i, j | 0 <= i < j < |list| ensures Start(list[i]) < Start(list[j]) {
      assert list[i] in cut && list[j] in cut;
      var a :| 0 <= a < |cut| && cut[a] == list[i];
      var b :| 0 <= b < |cut| && cut[b] == list[j];
    }
    SortedUnique(list, cut);
  }

  /** The roots for which a cut is accepted are the values on its top. */
  lemma AcceptedFor(items: seq<Item>, c: Cut, oldRoot: Digest, newRoot: Digest)
    requires Paired(c) && Flatten(c) == items
    ensures Accepted(items, oldRoot, newRoot) <==> Top(c).old_ == oldRoot && Top(c).new_ == newRoot
  {
    CutsEndSingle(items);
  }

  /** The roots of trees of different heights differ, by the level tag alone. */
  lemma RootsDiffer(s: Slots, i: nat, j: nat)
    requires i >= TWIG_ROOT_LEVEL && j >= TWIG_ROOT_LEVEL
    ensures W(s, Place(i, 0)) == W(s, Place(j, 0)) <==> i == j
  {
    assert W(s, Place(i, 0)).Node? && W(s, Place(j, 0)).Node?;
  }

  // ---------------------------------------------------------------- the witness as it travels

  /** Every place becomes a node; those in `carried` bring their old and new value along. */
  function Wire(a: Slots, b: Slots, ps: seq<Place>, carried: set<Place>): (r: seq<WireNode>)
    ensures |r| == |ps|
  {
    seq(|ps|, k requires 0 <= k < |ps| =>
      WireNode(ps[k].level, ps[k].nth, if ps[k] in carried then Some((W(a, ps[k]), W(b, ps[k]))) else None))
  }

  /** The values of the other places, in order. */
  function Side(a: Slots, ps: seq<Place>, carried: set<Place>): seq<Digest> {
    if ps == [] then []
    else Side(a, ps[..|ps| - 1], carried) + if ps[|ps| - 1] in carried then [] else [W(a, ps[|ps| - 1])]
  }

  lemma {:induction false} SideGrows(a: Slots, ps: seq<Place>, carried: set<Place>, k: nat)
    requires k <= |ps|
    ensures Side(a, ps[..k], carried) <= Side(a, ps, carried)
    decreases |ps|
  {
    if k < |ps| {
      assert ps[..|ps| - 1][..k] == ps[..k];
      SideGrows(a, ps[..|ps| - 1], carried, k);
    } else {
      assert ps[..k] == ps;
    }
  }

  lemma {:induction false} WireCount(a: Slots, b: Slots, ps: seq<Place>, carried: set<Place>, k: nat)
    requires k <= |ps|
    ensures SideCount(Wire(a, b, ps, carried)[..k]) == |Side(a, ps[..k], carried)|
  {
    if k > 0 {
      var nodes := Wire(a, b, ps, carried);
      WireCount(a, b, ps, carried, k - 1);
      assert nodes[..k][..k - 1] == nodes[..k - 1] && ps[..k][..k - 1] == ps[..k - 1];
    }
  }

  lemma SideAt(a: Slots, ps: seq<Place>, carried: set<Place>, k: nat)
    requires k < |ps| && ps[k] !in carried
    ensures var (n, side) := (|Side(a, ps[..k], carried)|, Side(a, ps, carried)); n < |side| && side[n] == W(a, ps[k])
  {
    SideGrows(a, ps, carried, k + 1);
    assert ps[..k + 1][..k] == ps[..k];
    assert Side(a, ps[..k + 1], carried) == Side(a, ps[..k], carried) + [W(a, ps[k])];
  }

  /** Outside `carried` both trees have the same values. */
  ghost predicate SameOutside(a: Slots, b: Slots, ps: seq<Place>, carried: set<Place>) {
    forall p {:trigger p in ps} :: p in ps && p !in carried ==> W(a, p) == W(b, p)
  }

  function ItemAt(a: Slots, b: Slots, p: Place): Item { Item(p.level, p.nth, W(a, p), W(b, p)) }

  function ItemsAt(a: Slots, b: Slots, ps: seq<Place>): (r: seq<Item>)
    ensures |r| == |ps| && forall k :: 0 <= k < |ps| ==> r[k] == ItemAt(a, b, ps[k])
  {
    seq(|ps|, k requires 0 <= k < |ps| => ItemAt(a, b, ps[k]))
  }

  /** The nodes and the side list say the values of the two trees. */
  lemma WireCarries(a: Slots, b: Slots, ps: seq<Place>, carried: set<Place>)
    requires SameOutside(a, b, ps, carried)
    ensures Carries(Wire(a, b, ps, carried), Side(a, ps, carried), ItemsAt(a, b, ps))
  {
    var (nodes, side, items) := (Wire(a, b, ps, carried), Side(a, ps, carried), ItemsAt(a, b, ps));
    forall k | 0 <= k < |ps| ensures CarriesAt(nodes, side, items[k], k) {
      if ps[k] !in carried {
        WireCount(a, b, ps, carried, k);
        SideAt(a, ps, carried, k);
        assert ps[k] in ps;
      }
    }
  }

  lemma LeafAnc(ts: set<Place>, p: Place)
    requires p.level == 0
    ensures Anc(ts, p) ==> p in ts
  {
    if x :| x in ts && Under(x, p) { assert x == p; }
  }

  /** In the cut of the targets only these have changed. */
  lemma CutUntouched(sns: seq<nat>, a: Slots, b: Slots, top: Place, p: Place)
    requires AgreeOff(Targets(sns), a, b) && p in CutPlaces(Targets(sns), top) && p !in Targets(sns)
    ensures W(a, p) == W(b, p)
  {
    var ts := Targets(sns);
    TargetsAntichain(sns);
    CutMembers(ts, top, p);
    if p.level == 0 { LeafAnc(ts, p); }
    Untouched(ts, a, b, p);
  }

  lemma CutCarries(sns: seq<nat>, a: Slots, b: Slots, top: Place, carried: set<Place>)
    requires AgreeOff(Targets(sns), a, b) && Targets(sns) <= carried
    ensures var ps := CutPlaces(Targets(sns), top);
            && Carries(Wire(a, b, ps, carried), Side(a, ps, carried), ItemsAt(a, b, ps))
            && ItemsAt(a, b, ps) == UpdatedAll(Targets(sns), a, b, ps)
  {
    var ps := CutPlaces(Targets(sns), top);
    forall p | p in ps && p !in Targets(sns) ensures W(a, p) == W(b, p) { CutUntouched(sns, a, b, top, p); }
    WireCarries(a, b, ps, carried);
    forall k | 0 <= k < |ps| ensures ItemAt(a, b, ps[k]) == Updated(Targets(sns), a, b, ps[k]) { assert ps[k] in ps; }
  }

  /** The witness of the accessed serial numbers with the values of the old tree a and the new tree b,
      which differ at most at the accessed leaves and pages. */
  ghost function WitnessNodes(sns: seq<nat>, a: Slots, b: Slots, youngest: nat, carried: set<Place>): seq<WireNode> {
    Wire(a, b, CutPlaces(Targets(sns), RootOf(sns, youngest)), carried)
  }

  ghost function WitnessSide(sns: seq<nat>, a: Slots, youngest: nat, carried: set<Place>): seq<Digest> {
    Side(a, CutPlaces(Targets(sns), RootOf(sns, youngest)), carried)
  }

  /** What `verify_witness` answers, by what the nodes say. */
  ghost predicate Verifies(nodes: seq<WireNode>, side: seq<Digest>, oldRoot: Digest, newRoot: Digest) {
    exists items :: Carries(nodes, side, items) && Accepted(items, oldRoot, newRoot)
  }

  lemma VerifiesOnly(nodes: seq<WireNode>, side: seq<Digest>, items: seq<Item>, oldRoot: Digest, newRoot: Digest)
    requires Carries(nodes, side, items)
    ensures Verifies(nodes, side, oldRoot, newRoot) <==> Accepted(items, oldRoot, newRoot)
  {
    forall other | Carries(nodes, side, other) ensures other == items {
      CarriedItems(nodes, side, items);
      CarriedItems(nodes, side, other);
    }
  }

  /** That witness, whichever nodes carry their values as long as the accessed ones do, is accepted for
      the values on top of it, and against the roots of the old and the new tree exactly when both trees
      have the height that the last serial number alone would give. */
  lemma WitnessAcceptedIff(sns: seq<nat>, a: Slots, b: Slots, youngest: nat, youngest': nat, carried: set<Place>)
    requires AgreeOff(Targets(sns), a, b) && Targets(sns) <= carried
    ensures var (nodes, side) := (WitnessNodes(sns, a, b, youngest, carried), WitnessSide(sns, a, youngest, carried));
            && Verifies(nodes, side, W(a, RootOf(sns, youngest)), W(b, RootOf(sns, youngest)))
            && (Verifies(nodes, side, W(a, TreeRoot(youngest)), W(b, TreeRoot(youngest'))) <==>
                RootOf(sns, youngest).level == MaxLevel(youngest) == MaxLevel(youngest'))
  {
    var (nodes, side) := (WitnessNodes(sns, a, b, youngest, carried), WitnessSide(sns, a, youngest, carried));
    var top := RootOf(sns, youngest);
    var items := ItemsAt(a, b, CutPlaces(Targets(sns), top));
    CutCarries(sns, a, b, top, carried);
    var c := CutValue(sns, a, b, top);
    AcceptedFor(items, c, W(a, top), W(b, top));
    AcceptedFor(items, c, W(a, TreeRoot(youngest)), W(b, TreeRoot(youngest')));
    VerifiesOnly(nodes, side, items, W(a, top), W(b, top));
    VerifiesOnly(nodes, side, items, W(a, TreeRoot(youngest)), W(b, TreeRoot(youngest')));
    RootsDiffer(a, top.level, MaxLevel(youngest));
    RootsDiffer(b, top.level, MaxLevel(youngest'));
  }

  /** So `verify_witness` answers true for the roots of the old and the new tree, in that case. */
  method VerifyBuilt(sns: seq<nat>, a: Slots, b: Slots, youngest: nat, youngest': nat, carried: set<Place>)
    returns (ok: Option<bool>)
    requires Ascending(sns) && AgreeOff(Targets(sns), a, b) && Targets(sns) <= carried
    ensures ok == Some(RootOf(sns, youngest).level == MaxLevel(youngest) == MaxLevel(youngest'))
  {
    var list := WitnessPlaces(sns, youngest);
    CutCarries(sns, a, b, RootOf(sns, youngest), carried);
    WitnessAcceptedIff(sns, a, b, youngest, youngest', carried);
    var (nodes, side) := (Wire(a, b, list, carried), Side(a, list, carried));
    VerifiesOnly(nodes, side, ItemsAt(a, b, list), W(a, TreeRoot(youngest)), W(b, TreeRoot(youngest')));
    ok := VerifyWitness(nodes, side, W(a, TreeRoot(youngest)), W(b, TreeRoot(youngest')));
  }

  /** A single node of the wire: its first value is the old root, its second the new one. */
  method VerifySingle(level: nat, nth: nat, old_: Digest, new_: Digest, oldRoot: Digest, newRoot: Digest)
    returns (ok: Option<bool>)
    ensures ok == Some(old_ == oldRoot && new_ == newRoot)
  {
    var nodes := [WireNode(level, nth, Some((old_, new_)))];
    ghost var item := Item(level, nth, old_, new_);
    assert CarriesAt(nodes, [], item, 0) && Carries(nodes, [], [item]);
    AcceptedFor([item], Whole(item), oldRoot, newRoot);
    ok := VerifyWitness(nodes, [], oldRoot, newRoot);
  }

  /** In a tree of two twigs, the witness for the first entry alone is not one for the tree. */
  lemma FirstEntryOnly(a: Slots, carried: set<Place>)
    requires Targets([0]) <= carried
    ensures var (nodes, side) := (WitnessNodes([0], a, a, 1, carried), WitnessSide([0], a, 1, carried));
            && Verifies(nodes, side, W(a, Place(12, 0)), W(a, Place(12, 0)))
            && !Verifies(nodes, side, W(a, TreeRoot(1)), W(a, TreeRoot(1)))
  {
    assert BitLen(1) == 1;
    WitnessAcceptedIff([0], a, a, 1, 1, carried);
  }

  /** When entries were added and the last of them begins a new level, no witness of them matches the
      old root. */
  lemma GrowthNotAccepted(sns: seq<nat>, a: Slots, b: Slots, youngest: nat, youngest': nat, carried: set<Place>)
    requires AgreeOff(Targets(sns), a, b) && Targets(sns) <= carried && MaxLevel(youngest) < MaxLevel(youngest')
    ensures !Verifies(WitnessNodes(sns, a, b, youngest, carried), WitnessSide(sns, a, youngest, carried),
                      W(a, TreeRoot(youngest)), W(b, TreeRoot(youngest')))
  {
    WitnessAcceptedIff(sns, a, b, youngest, youngest', carried);
  }
}
