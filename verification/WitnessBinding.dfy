/** What an accepted witness proves. The verifier tests that two nodes are siblings, but not which of
    them comes first, nor where the node on top stands; the exact conditions are given here. */
module WitnessBinding {
  import opened Merkle
  import opened Witness
  import opened WitnessBuild

  /** The value of a node in the old or in the new tree. */
  function Val(item: Item, new_: bool): Digest { if new_ then item.new_ else item.old_ }

  function At(item: Item): Place { Place(item.level, item.nth) }

  function Ats(items: seq<Item>): (r: seq<Place>)
    ensures |r| == |items| && forall k :: 0 <= k < |r| ==> r[k] == At(items[k])
  {
    seq(|items|, k requires 0 <= k < |items| => At(items[k]))
  }

  /** Entry hashes are no pages, and neither are hashes of nodes. */
  ghost predicate Typed(s: Slots) {
    forall n: nat {:trigger s.leaf(n)} {:trigger s.page(n)} :: s.leaf(n).Raw? && s.page(n).Page?
  }

  /** The items are a cut whose top has the value of place q. */
  ghost predicate Shows(items: seq<Item>, s: Slots, q: Place, new_: bool) {
    exists c :: Paired(c) && Flatten(c) == items && Val(Top(c), new_) == W(s, q)
  }

  /** Every item has the value that the tree has at the item's place. */
  ghost predicate Honest(items: seq<Item>, s: Slots, new_: bool) {
    forall i {:trigger items[i]} :: 0 <= i < |items| ==> Val(items[i], new_) == W(s, At(items[i]))
  }

  /** What a caller can test: the places run from left to right, the first is the leftmost of its
      level, and a single one is at the level of the root. */
  ghost predicate InPlace(ps: seq<Place>, level: nat) {
    ps != [] && SortedPlaces(ps) && ps[0].nth == 0 && (|ps| == 1 ==> ps[0].level == level)
  }

  // ---------------------------------------------------------------- ordered cuts

  /** Left halves carry even positions. */
  predicate Ordered(c: Cut) {
    match c
    case Whole(_) => true
    case Split(l, r) => Ordered(l) && Ordered(r) && Top(l).nth % 2 == 0
  }

  lemma {:induction false} SomeItem(c: Cut)
    ensures Flatten(c) != [] && (c.Split? ==> |Flatten(c)| >= 2)
  {
    if c.Split? {
      SomeItem(c.left);
      SomeItem(c.right);
    }
  }

  lemma AtsConcat(a: seq<Item>, b: seq<Item>)
    ensures Ats(a + b) == Ats(a) + Ats(b)
  {
  }

  /** A cut stays within the slots of its top. */
  lemma {:induction false} CutWithin(c: Cut)
    requires Paired(c)
    ensures Within(Ats(Flatten(c)), Start(At(Top(c))), End(At(Top(c))))
  {
    match c
    case Whole(item) =>
      ShlMonotone(item.nth, item.nth + 1, item.level);
    case Split(l, r) =>
      CutWithin(l);
      CutWithin(r);
      AtsConcat(Flatten(l), Flatten(r));
      SplitBounds(c);
  }

  /** Where the halves of a split lie. */
  lemma SplitBounds(c: Cut)
    requires c.Split? && Paired(c)
    ensures var (t, l, r) := (At(Top(c)), At(Top(c.left)), At(Top(c.right)));
            if l.nth % 2 == 0 then Start(t) == Start(l) <= End(l) == Start(r) <= End(r) == End(t)
            else Start(t) == Start(r) <= End(r) == Start(l) <= End(l) == End(t)
  {
    var (t, l, r) := (At(Top(c)), At(Top(c.left)), At(Top(c.right)));
    Halves(t);
    assert l.nth == 2 * t.nth || l.nth == 2 * t.nth + 1;
    assert r.nth == 2 * t.nth || r.nth == 2 * t.nth + 1;
  }

  /** The items of a cut run from left to right exactly when it is ordered. */
  lemma {:induction false} OrderedIffSorted(c: Cut)
    requires Paired(c)
    ensures Ordered(c) <==> SortedPlaces(Ats(Flatten(c)))
    ensures Ordered(c) ==> Flatten(c) != [] && Start(At(Flatten(c)[0])) == Start(At(Top(c)))
  {
    SomeItem(c);
    if c.Split? {
      var (a, b) := (Ats(Flatten(c.left)), Ats(Flatten(c.right)));
      AtsConcat(Flatten(c.left), Flatten(c.right));
      OrderedIffSorted(c.left);
      OrderedIffSorted(c.right);
      CutWithin(c.left);
      CutWithin(c.right);
      SplitBounds(c);
      SomeItem(c.left);
      SomeItem(c.right);
      var (l, r) := (At(Top(c.left)), At(Top(c.right)));
      if l.nth % 2 == 0 {
        if Ordered(c) { SortedConcat(a, b, Start(l), Start(r), End(r)); }
        if SortedPlaces(a + b) { SortedParts(a, b); }
      } else {
        assert a[0] in a && b[0] in b;
        assert (a + b)[0] == a[0] && (a + b)[|a|] == b[0];
      }
    }
  }

  lemma SortedParts(a: seq<Place>, b: seq<Place>)
    requires SortedPlaces(a + b)
    ensures SortedPlaces(a) && SortedPlaces(b)
  {
    forall i, j | 0 <= i < j < |a| ensures Start(a[i]) < Start(a[j]) {
      assert (a + b)[i] == a[i] && (a + b)[j] == a[j];
    }
    forall i, j | 0 <= i < j < |b| ensures Start(b[i]) < Start(b[j]) {
      assert (a + b)[|a| + i] == b[i] && (a + b)[|a| + j] == b[j];
    }
  }

  // ---------------------------------------------------------------- what hashing fixes

  /** A split whose top has the value of q has the values of the children of q on its halves, in the
      order in which they were given. */
  lemma SplitLands(c: Cut, s: Slots, q: Place, new_: bool)
    requires c.Split? && Paired(c) && Typed(s) && Val(Top(c), new_) == W(s, q)
    ensures q.level > 0 && !IsPage(q) && Top(c).level == q.level
    ensures Val(Top(c.left), new_) == W(s, Place(q.level - 1, 2 * q.nth))
    ensures Val(Top(c.right), new_) == W(s, Place(q.level - 1, 2 * q.nth + 1))
  {
    assert s.leaf(q.nth).Raw? && s.page(q.nth).Page?;
  }

  lemma SplitPlaces(c: Cut)
    requires c.Split? && Paired(c) && Top(c.left).nth % 2 == 0
    ensures Top(c.left).nth == 2 * Top(c).nth && Top(c.right).nth == 2 * Top(c).nth + 1
  {
  }

  /** An ordered cut with the right value at the right place on top is right everywhere. */
  lemma {:induction false} OrderedBinds(c: Cut, s: Slots, new_: bool)
    requires Paired(c) && Ordered(c) && Typed(s) && Val(Top(c), new_) == W(s, At(Top(c)))
    ensures Honest(Flatten(c), s, new_)
  {
    if c.Split? {
      var q := At(Top(c));
      SplitLands(c, s, q, new_);
      SplitPlaces(c);
      OrderedBinds(c.left, s, new_);
      OrderedBinds(c.right, s, new_);
    }
  }

  // ---------------------------------------------------------------- dealing out other values

  function WithVal(item: Item, v: Digest, new_: bool): Item { if new_ then item.(new_ := v) else item.(old_ := v) }

  /** The same places, with the values that a tree deals out from q downwards. */
  function Deal(c: Cut, s: Slots, q: Place, new_: bool): Cut
    decreases c
  {
    match c
    case Whole(item) => Whole(WithVal(item, W(s, q), new_))
    case Split(l, r) =>
      if q.level == 0 then c
      else Split(Deal(l, s, Place(q.level - 1, 2 * q.nth), new_), Deal(r, s, Place(q.level - 1, 2 * q.nth + 1), new_))
  }

  /** What is dealt out along a cut that some tree shows is shown by the dealing tree. */
  lemma {:induction false} DealShows(c: Cut, s: Slots, s': Slots, q: Place, new_: bool)
    requires Paired(c) && Typed(s) && Val(Top(c), new_) == W(s, q)
    ensures var d := Deal(c, s', q, new_);
            Paired(d) && At(Top(d)) == At(Top(c)) && Val(Top(d), new_) == W(s', q) && Ats(Flatten(d)) == Ats(Flatten(c))
    decreases c
  {
    if c.Split? {
      SplitLands(c, s, q, new_);
      DealShows(c.left, s, s', Place(q.level - 1, 2 * q.nth), new_);
      DealShows(c.right, s, s', Place(q.level - 1, 2 * q.nth + 1), new_);
      AtsConcat(Flatten(c.left), Flatten(c.right));
      var d := Deal(c, s', q, new_);
      AtsConcat(Flatten(d.left), Flatten(d.right));
    }
  }

  function Bools(n: nat): (r: seq<bool>)
    ensures |r| == n
  {
    seq(n, _ => true)
  }

  /** A tree without two equal values. */
  function Distinct(): Slots { Slots((n: nat) => Raw([n]), (n: nat) => Page(Bools(n))) }

  lemma {:induction false} AllDistinct(p: Place, q: Place)
    requires W(Distinct(), p) == W(Distinct(), q)
    ensures p == q
    decreases p.level
  {
    var s := Distinct();
    assert s.leaf(p.nth) == Raw([p.nth]) && s.leaf(q.nth) == Raw([q.nth]);
    assert s.page(p.nth) == Page(Bools(p.nth)) && s.page(q.nth) == Page(Bools(q.nth));
    if p.level == 0 {
      assert [p.nth][0] == p.nth;
    } else if IsPage(p) {
      assert |Bools(p.nth)| == p.nth;
    } else {
      AllDistinct(Place(p.level - 1, 2 * p.nth), Place(q.level - 1, 2 * q.nth));
    }
  }

  lemma DistinctTyped()
    ensures Typed(Distinct())
  {
    var s := Distinct();
    assert forall n: nat :: s.leaf(n) == Raw([n]) && s.page(n) == Page(Bools(n));
  }

  /** What it deals out is honest only along an ordered cut whose top is in place. */
  lemma {:induction false} DealtHonest(c: Cut, s: Slots, q: Place, new_: bool)
    requires Paired(c) && Typed(s) && Val(Top(c), new_) == W(s, q)
    requires Honest(Flatten(Deal(c, Distinct(), q, new_)), Distinct(), new_)
    ensures Ordered(c) && At(Top(c)) == q
    decreases c
  {
    var d := Deal(c, Distinct(), q, new_);
    if c.Whole? {
      assert Flatten(d)[0] == d.item;
      AllDistinct(At(c.item), q);
    } else {
      SplitLands(c, s, q, new_);
      HonestParts(Flatten(d.left), Flatten(d.right), Distinct(), new_);
      DealtHonest(c.left, s, Place(q.level - 1, 2 * q.nth), new_);
      DealtHonest(c.right, s, Place(q.level - 1, 2 * q.nth + 1), new_);
    }
  }

  lemma HonestParts(a: seq<Item>, b: seq<Item>, s: Slots, new_: bool)
    requires Honest(a + b, s, new_)
    ensures Honest(a, s, new_) && Honest(b, s, new_)
  {
    forall i | 0 <= i < |a| ensures Val(a[i], new_) == W(s, At(a[i])) { assert (a + b)[i] == a[i]; }
    forall i | 0 <= i < |b| ensures Val(b[i], new_) == W(s, At(b[i])) { assert (a + b)[|a| + i] == b[i]; }
  }

  // ---------------------------------------------------------------- the result

  /** Whatever tree shows these places below its root, they carry its values. */
  ghost predicate Binding(ps: seq<Place>, level: nat, new_: bool) {
    forall items, s: Slots {:trigger Honest(items, s, new_)} ::
      Ats(items) == ps && Typed(s) && Shows(items, s, Place(level, 0), new_) ==> Honest(items, s, new_)
  }

  /** The condition on the list of places is the condition on the cut. */
  lemma InPlaceIff(c: Cut, s: Slots, level: nat, new_: bool)
    requires level >= TWIG_ROOT_LEVEL && Paired(c) && Typed(s) && Val(Top(c), new_) == W(s, Place(level, 0))
    ensures InPlace(Ats(Flatten(c)), level) <==> Ordered(c) && At(Top(c)) == Place(level, 0)
  {
    SomeItem(c);
    OrderedIffSorted(c);
    if c.Split? { SplitLands(c, s, Place(level, 0), new_); }
    if Ordered(c) {
      var (f, t) := (At(Flatten(c)[0]), At(Top(c)));
      ShlMonotone(0, f.nth, f.level);
      ShlMonotone(0, t.nth, t.level);
      ShlZero(f.level);
      ShlZero(t.level);
    }
  }

  lemma {:induction false} ShlZero(k: nat)
    ensures Shl(0, k) == 0
  {
    if k > 0 { ShlZero(k - 1); }
  }

  lemma InPlaceBinds(items: seq<Item>, s: Slots, level: nat, new_: bool)
    requires level >= TWIG_ROOT_LEVEL && Typed(s) && Shows(items, s, Place(level, 0), new_)
    requires InPlace(Ats(items), level)
    ensures Honest(items, s, new_)
  {
    var c :| Paired(c) && Flatten(c) == items && Val(Top(c), new_) == W(s, Place(level, 0));
    InPlaceIff(c, s, level, new_);
    OrderedBinds(c, s, new_);
  }

  /** The places of an accepted witness bind its values to the root exactly when they run from left to
      right, start at the left end and, if there is only one, are the root. */
  lemma BindingIff(items: seq<Item>, s: Slots, level: nat, new_: bool)
    requires level >= TWIG_ROOT_LEVEL && Typed(s) && Shows(items, s, Place(level, 0), new_)
    ensures Binding(Ats(items), level, new_) <==> InPlace(Ats(items), level)
  {
    if InPlace(Ats(items), level) {
      forall others, t: Slots | Ats(others) == Ats(items) && Typed(t) && Shows(others, t, Place(level, 0), new_)
        ensures Honest(others, t, new_)
      {
        InPlaceBinds(others, t, level, new_);
      }
    }
    if Binding(Ats(items), level, new_) {
      var c :| Paired(c) && Flatten(c) == items && Val(Top(c), new_) == W(s, Place(level, 0));
      var d := Deal(c, Distinct(), Place(level, 0), new_);
      DealShows(c, s, Distinct(), Place(level, 0), new_);
      DistinctTyped();
      assert Shows(Flatten(d), Distinct(), Place(level, 0), new_);
      assert Honest(Flatten(d), Distinct(), new_);
      DealtHonest(c, s, Place(level, 0), new_);
      InPlaceIff(c, s, level, new_);
    }
  }

  /** What `verify_witness` accepts for two roots binds both values of every node, in that case. */
  lemma WitnessBinds(items: seq<Item>, a: Slots, b: Slots, level: nat)
    requires level >= TWIG_ROOT_LEVEL && Typed(a) && Typed(b) && InPlace(Ats(items), level)
    requires Accepted(items, W(a, Place(level, 0)), W(b, Place(level, 0)))
    ensures Honest(items, a, false) && Honest(items, b, true)
  {
    var c :| Paired(c) && Flatten(c) == items && Top(c).old_ == W(a, Place(level, 0))
        && Top(c).new_ == W(b, Place(level, 0));
    assert Val(Top(c), false) == W(a, Place(level, 0)) && Val(Top(c), true) == W(b, Place(level, 0));
    InPlaceBinds(items, a, level, false);
    InPlaceBinds(items, b, level, true);
  }

  /** The witnesses that are built are in place. */
  lemma BuiltInPlace(sns: seq<nat>, youngest: nat)
    requires Ascending(sns)
    ensures InPlace(CutPlaces(Targets(sns), RootOf(sns, youngest)), RootOf(sns, youngest).level)
  {
    var (ts, top) := (Targets(sns), RootOf(sns, youngest));
    CutSorted(ts, top);
    CutFirst(ts, top);
    if |CutPlaces(ts, top)| == 1 { SingleCut(ts, top); }
  }

  lemma {:induction false} CutFirst(ts: set<Place>, p: Place)
    ensures CutPlaces(ts, p) != [] && (p.nth == 0 ==> CutPlaces(ts, p)[0].nth == 0)
    decreases p.level
  {
    if !(p.level == 0 || p in ts || !Anc(ts, p)) {
      CutFirst(ts, Place(p.level - 1, 2 * p.nth));
      CutFirst(ts, Place(p.level - 1, 2 * p.nth + 1));
    }
  }

  lemma SingleCut(ts: set<Place>, p: Place)
    requires |CutPlaces(ts, p)| == 1
    ensures CutPlaces(ts, p) == [p]
  {
    if !(p.level == 0 || p in ts || !Anc(ts, p)) {
      CutFirst(ts, Place(p.level - 1, 2 * p.nth));
      CutFirst(ts, Place(p.level - 1, 2 * p.nth + 1));
    }
  }

  // ---------------------------------------------------------------- inputs that are accepted and wrong

  /** The two halves of the tree, exchanged: accepted for the root, and both wrong. */
  lemma UnorderedDoesNotBind(level: nat)
    requires level >= TWIG_ROOT_LEVEL
    ensures var (s, root) := (Distinct(), W(Distinct(), Place(level, 0)));
            var (x, y) := (W(s, Place(level - 1, 0)), W(s, Place(level - 1, 1)));
            var items := [Item(level - 1, 1, x, x), Item(level - 1, 0, y, y)];
            Accepted(items, root, root) && x != W(s, Place(level - 1, 1)) && y != W(s, Place(level - 1, 0))
  {
    var s := Distinct();
    var (x, y) := (W(s, Place(level - 1, 0)), W(s, Place(level - 1, 1)));
    var (l, r) := (Whole(Item(level - 1, 1, x, x)), Whole(Item(level - 1, 0, y, y)));
    assert Top(l) == l.item && Top(r) == r.item && Flatten(l) == [l.item] && Flatten(r) == [r.item];
    var c := Split(l, r);
    assert Paired(l) && Paired(r) && Paired(c) && Flatten(c) == [l.item, r.item];
    assert Top(c).old_ == Node(level - 1, x, y) == W(s, Place(level, 0));
    if x == y { AllDistinct(Place(level - 1, 0), Place(level - 1, 1)); }
  }

  /** The root given out as the node of some other place: accepted, and wrong. */
  lemma MisplacedDoesNotBind(level: nat, p: Place)
    requires p != Place(level, 0)
    ensures var root := W(Distinct(), Place(level, 0));
            Accepted([Item(p.level, p.nth, root, root)], root, root) && root != W(Distinct(), p)
  {
    var root := W(Distinct(), Place(level, 0));
    var c := Whole(Item(p.level, p.nth, root, root));
    assert Paired(c) && Flatten(c) == [Item(p.level, p.nth, root, root)];
    if root == W(Distinct(), p) { AllDistinct(Place(level, 0), p); }
  }
}
