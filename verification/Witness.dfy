/** The stateless witness: a left-to-right cut of the Merkle tree, reduced by a stack machine. */
module Witness {
  import opened Basics
  import opened Merkle

  /** A witness node with its value in the old and in the new tree. */
  datatype Item = Item(level: nat, nth: nat, old_: Digest, new_: Digest)

  /** Two items are the two children of one node. */
  predicate Siblings(a: Item, b: Item) { a.level == b.level && a.nth != b.nth && a.nth / 2 == b.nth / 2 }

  function Parent(left: Item, right: Item): Item {
    Item(left.level + 1, left.nth / 2, Node(left.level, left.old_, right.old_), Node(left.level, left.new_, right.new_))
  }

  predicate Reducible(stack: seq<Item>) {
    |stack| >= 2 && Siblings(stack[|stack| - 1], stack[|stack| - 2])
  }

  /** Combine siblings at the top of the stack until there are none. */
  function Reduce(stack: seq<Item>): seq<Item>
    decreases |stack|
  {
    if Reducible(stack) then Reduce(stack[..|stack| - 2] + [Parent(stack[|stack| - 2], stack[|stack| - 1])]) else stack
  }

  /** Feed the items one by one, reducing after each. */
  function Run(stack: seq<Item>, items: seq<Item>): seq<Item>
    decreases |items|
  {
    if items == [] then Reduce(stack) else Run(Reduce(stack) + [items[0]], items[1..])
  }

  lemma {:induction false} ReduceIdempotent(stack: seq<Item>)
    ensures !Reducible(Reduce(stack)) && Reduce(Reduce(stack)) == Reduce(stack)
    decreases |stack|
  {
    if Reducible(stack) {
      ReduceIdempotent(stack[..|stack| - 2] + [Parent(stack[|stack| - 2], stack[|stack| - 1])]);
    }
  }

  lemma {:induction false} RunAppend(stack: seq<Item>, a: seq<Item>, b: seq<Item>)
    ensures Run(stack, a + b) == Run(Run(stack, a), b)
    decreases |a|
  {
    if a == [] {
      assert a + b == b;
      ReduceIdempotent(stack);
    } else {
      assert (a + b)[1..] == a[1..] + b;
      RunAppend(Reduce(stack) + [a[0]], a[1..], b);
    }
  }

  // ---------------------------------------------------------------- cuts

  /** A cut of a subtree: the subtree's root itself, or cuts of its two halves. */
  datatype Cut = Whole(item: Item) | Split(left: Cut, right: Cut)

  function Flatten(c: Cut): seq<Item> {
    match c
    case Whole(item) => [item]
    case Split(l, r) => Flatten(l) + Flatten(r)
  }

  /** The node a cut stands for. */
  function Top(c: Cut): Item {
    match c
    case Whole(item) => item
    case Split(l, r) => Parent(Top(l), Top(r))
  }

  /** The halves of every split are siblings. */
  predicate Paired(c: Cut) {
    match c
    case Whole(_) => true
    case Split(l, r) => Paired(l) && Paired(r) && Siblings(Top(l), Top(r))
  }

  /** Running a cut of a node leaves that node on top of whatever was on the stack, exactly as if
      it had been given as one item. */
  lemma {:induction false} RunCut(stack: seq<Item>, c: Cut)
    requires Paired(c) && !Reducible(stack) && (stack == [] || stack[|stack| - 1].level >= Top(c).level)
    ensures Run(stack, Flatten(c)) == Reduce(stack + [Top(c)])
    decreases c
  {
    match c
    case Whole(item) =>
      RunOne(stack, item);
    case Split(l, r) =>
      var (x, y) := (Top(l), Top(r));
      calc {
        Run(stack, Flatten(c));
        { RunAppend(stack, Flatten(l), Flatten(r)); }
        Run(Run(stack, Flatten(l)), Flatten(r));
        { RunCut(stack, l); }
        Run(stack + [x], Flatten(r));
        { RunCut(stack + [x], r); }
        Reduce(stack + [x] + [y]);
        { ReducePair(stack, x, y); }
        Reduce(stack + [Parent(x, y)]);
      }
  }

  lemma RunOne(stack: seq<Item>, item: Item)
    requires !Reducible(stack)
    ensures Run(stack, [item]) == Reduce(stack + [item])
  {
    assert [item][1..] == [];
  }

  lemma ReducePair(stack: seq<Item>, x: Item, y: Item)
    requires Siblings(x, y)
    ensures Reduce(stack + [x] + [y]) == Reduce(stack + [Parent(x, y)])
  {
    assert (stack + [x] + [y])[..|stack|] == stack;
    assert Reducible(stack + [x] + [y]);
  }

  // Conversely, whatever the machine leaves on its stack are tops of cuts of what it was fed.

  function Tops(cs: seq<Cut>): (r: seq<Item>)
    ensures |r| == |cs| && forall k :: 0 <= k < |cs| ==> r[k] == Top(cs[k])
  {
    seq(|cs|, k requires 0 <= k < |cs| => Top(cs[k]))
  }

  function FlattenAll(cs: seq<Cut>): seq<Item> {
    if cs == [] then [] else FlattenAll(cs[..|cs| - 1]) + Flatten(cs[|cs| - 1])
  }

  lemma FlattenPair(base: seq<Cut>, x: Cut, y: Cut)
    ensures FlattenAll(base + [x] + [y]) == FlattenAll(base + [Split(x, y)])
  {
    assert (base + [x])[..|base|] == base && (base + [x] + [y])[..|base| + 1] == base + [x];
    assert (base + [Split(x, y)])[..|base|] == base;
    assert FlattenAll(base) + Flatten(x) + Flatten(y) == FlattenAll(base) + (Flatten(x) + Flatten(y));
  }

  lemma {:induction false} ReduceCuts(cs: seq<Cut>) returns (ds: seq<Cut>)
    requires forall c :: c in cs ==> Paired(c)
    ensures Tops(ds) == Reduce(Tops(cs)) && FlattenAll(ds) == FlattenAll(cs) && forall c :: c in ds ==> Paired(c)
    decreases |cs|
  {
    var n := |cs|;
    if !Reducible(Tops(cs)) { return cs; }
    var (base, x, y) := (cs[..n - 2], cs[n - 2], cs[n - 1]);
    assert x in cs && y in cs && Siblings(Top(y), Top(x));
    var es := base + [Split(x, y)];
    assert Tops(es) == Tops(cs)[..n - 2] + [Parent(Top(x), Top(y))];
    assert base + [x] + [y] == cs;
    FlattenPair(base, x, y);
    ds := ReduceCuts(es);
  }

  lemma {:induction false} RunCuts(cs: seq<Cut>, items: seq<Item>) returns (ds: seq<Cut>)
    requires forall c :: c in cs ==> Paired(c)
    ensures Tops(ds) == Run(Tops(cs), items) && FlattenAll(ds) == FlattenAll(cs) + items
    ensures forall c :: c in ds ==> Paired(c)
    decreases |items|
  {
    ds := ReduceCuts(cs);
    if items != [] {
      var es := ds + [Whole(items[0])];
      assert Tops(es) == Tops(ds) + [items[0]];
      assert es[..|ds|] == ds;
      assert FlattenAll(cs) + items == FlattenAll(cs) + [items[0]] + items[1..];
      ds := RunCuts(es, items[1..]);
    }
  }

  /** The machine ends with one node exactly on the cuts, and then with the node cut. */
  lemma MachineAcceptsCuts(items: seq<Item>, z: Item)
    ensures Run([], items) == [z] <==> exists c :: Paired(c) && Flatten(c) == items && Top(c) == z
  {
    if Run([], items) == [z] {
      var ds := RunCuts([], items);
      assert Tops([]) == [] && |ds| == 1 && ds[..0] == [] && [] + items == items;
      assert FlattenAll(ds) == [] + Flatten(ds[0]) == Flatten(ds[0]);
      assert Flatten(ds[0]) == items && Top(ds[0]) == z && ds[0] in ds;
    }
    if c :| Paired(c) && Flatten(c) == items && Top(c) == z {
      RunCut([], c);
      assert [] + [z] == [z];
    }
  }

  // ---------------------------------------------------------------- the verifier

  /** The items form a cut with these roots on top. */
  ghost predicate Accepted(items: seq<Item>, oldRoot: Digest, newRoot: Digest) {
    exists c :: Paired(c) && Flatten(c) == items && Top(c).old_ == oldRoot && Top(c).new_ == newRoot
  }

  /** A node as it travels: merkle-only nodes take their value from a separate list. */
  datatype WireNode = WireNode(level: nat, nth: nat, value: Option<(Digest, Digest)>)

  /** How many of the first k nodes take their value from the side list. */
  function SideCount(nodes: seq<WireNode>): nat {
    if nodes == [] then 0 else SideCount(nodes[..|nodes| - 1]) + if nodes[|nodes| - 1].value.None? then 1 else 0
  }

  function ItemOf(nodes: seq<WireNode>, side: seq<Digest>, k: nat): Item
    requires k < |nodes| && SideCount(nodes) <= |side|
  {
    SideCountPrefix(nodes, k + 1);
    SideCountPrefix(nodes[..k + 1], k);
    assert nodes[..k + 1][..k] == nodes[..k];
    var v := if nodes[k].value.Some? then nodes[k].value.value
        else (side[SideCount(nodes[..k])], side[SideCount(nodes[..k])]);
    Item(nodes[k].level, nodes[k].nth, v.0, v.1)
  }

  lemma {:induction false} SideCountPrefix(nodes: seq<WireNode>, k: nat)
    requires k <= |nodes|
    ensures SideCount(nodes[..k]) <= SideCount(nodes)
    ensures k < |nodes| && nodes[|nodes| - 1].value.None? ==> SideCount(nodes[..k]) < SideCount(nodes)
    decreases |nodes|
  {
    if k < |nodes| {
      assert nodes[..|nodes| - 1][..k] == nodes[..k];
      SideCountPrefix(nodes[..|nodes| - 1], k);
    } else {
      assert nodes[..k] == nodes;
    }
  }

  function Items(nodes: seq<WireNode>, side: seq<Digest>): (r: seq<Item>)
    requires SideCount(nodes) <= |side|
    ensures |r| == |nodes| && forall k :: 0 <= k < |r| ==> r[k] == ItemOf(nodes, side, k)
  {
    seq(|nodes|, k requires 0 <= k < |nodes| => ItemOf(nodes, side, k))
  }

  /** What the nodes say: a node with a value has it as its old and its new one, a node without one takes
      the next entry of the side list for both. */
  ghost predicate Carries(nodes: seq<WireNode>, side: seq<Digest>, items: seq<Item>) {
    |items| == |nodes| && forall k {:trigger items[k]} :: 0 <= k < |nodes| ==> CarriesAt(nodes, side, items[k], k)
  }

  ghost predicate CarriesAt(nodes: seq<WireNode>, side: seq<Digest>, item: Item, k: nat)
    requires k < |nodes|
  {
    && item.level == nodes[k].level && item.nth == nodes[k].nth
    && match nodes[k].value
       case Some(v) => item.old_ == v.0 && item.new_ == v.1
       case None => SideCount(nodes[..k]) < |side| && item.old_ == item.new_ == side[SideCount(nodes[..k])]
  }

  lemma CarriedItems(nodes: seq<WireNode>, side: seq<Digest>, items: seq<Item>)
    requires Carries(nodes, side, items)
    ensures SideCount(nodes) <= |side| && Items(nodes, side) == items
  {
    SideSuffices(nodes, side, items, |nodes|);
    assert nodes[..|nodes|] == nodes;
    forall k | 0 <= k < |nodes| ensures Items(nodes, side)[k] == items[k] {
      assert CarriesAt(nodes, side, items[k], k);
    }
  }

  lemma {:induction false} SideSuffices(nodes: seq<WireNode>, side: seq<Digest>, items: seq<Item>, k: nat)
    requires Carries(nodes, side, items) && k <= |nodes|
    ensures SideCount(nodes[..k]) <= |side|
  {
    if k > 0 {
      SideSuffices(nodes, side, items, k - 1);
      assert nodes[..k][..k - 1] == nodes[..k - 1] && CarriesAt(nodes, side, items[k - 1], k - 1);
    }
  }

  /** `verify_witness`: None is the slice panic when the side list is too short; otherwise the
      answer is true exactly when the nodes form a cut whose top has the two roots as its old
      and its new value. Every turn consumes a node or shortens the stack, so it terminates. */
  method VerifyWitness(nodes: seq<WireNode>, side: seq<Digest>, oldRoot: Digest, newRoot: Digest)
    returns (ok: Option<bool>)
    ensures ok.Some? <==> SideCount(nodes) <= |side|
    ensures ok.Some? ==> (ok.value <==> Accepted(Items(nodes, side), oldRoot, newRoot))
    ensures forall items {:trigger Carries(nodes, side, items)} ::
              Carries(nodes, side, items) ==> ok.Some? && (ok.value <==> Accepted(items, oldRoot, newRoot))
  {
    forall items | Carries(nodes, side, items) ensures SideCount(nodes) <= |side| && Items(nodes, side) == items {
      CarriedItems(nodes, side, items);
    }
    var stack: seq<Item>, idx, off := [], 0, 0;
    ghost var items := if SideCount(nodes) <= |side| then Items(nodes, side) else [];
    while true
      invariant 0 <= idx <= |nodes| && off == SideCount(nodes[..idx]) <= |side|
      invariant SideCount(nodes) <= |side| ==> Run(stack, items[idx..]) == Run([], items)
      decreases |nodes| - idx, |stack|
    {
      if Reducible(stack) {
        if SideCount(nodes) <= |side| { RunReduced(stack, items[idx..]); }
        stack := stack[..|stack| - 2] + [Parent(stack[|stack| - 2], stack[|stack| - 1])];
      } else if idx >= |nodes| {
        break;
      } else {
        SideCountPrefix(nodes, idx + 1);
        assert nodes[..idx + 1][..idx] == nodes[..idx];
        var v;
        if nodes[idx].value.Some? {
          v := nodes[idx].value.value;
        } else if off == |side| {
          return None;
        } else {
          v := (side[off], side[off]);
          off := off + 1;
        }
        if SideCount(nodes) <= |side| {
          assert items[idx] == ItemOf(nodes, side, idx) && items[idx..][1..] == items[idx + 1..];
        }
        stack := stack + [Item(nodes[idx].level, nodes[idx].nth, v.0, v.1)];
        idx := idx + 1;
      }
    }
    assert nodes[..|nodes|] == nodes && items[|nodes|..] == [];
    ok := Some(|stack| == 1 && stack[0].old_ == oldRoot && stack[0].new_ == newRoot);
    if |stack| == 1 { MachineAcceptsCuts(items, stack[0]); }
    CutsEndSingle(items);
  }

  lemma CutsEndSingle(items: seq<Item>)
    ensures forall c :: Paired(c) && Flatten(c) == items ==> Run([], items) == [Top(c)]
  {
    forall c | Paired(c) && Flatten(c) == items ensures Run([], items) == [Top(c)] {
      MachineAcceptsCuts(items, Top(c));
    }
  }

  lemma RunReduced(stack: seq<Item>, items: seq<Item>)
    requires Reducible(stack)
    ensures Run(stack, items) == Run(stack[..|stack| - 2] + [Parent(stack[|stack| - 2], stack[|stack| - 1])], items)
  {
  }
}
