/** The in-memory unit itself: leaves allocated in large buffers and edited in place. */
module InMemUnit {
  import opened Basics
  import opened InMem

  /** Where a leaf starts in the arena: a buffer and an offset in it. */
  datatype At = At(buf: nat, off: nat)

  /** A leaf with room for `cap` pairs. */
  datatype Leaf = Leaf(cap: nat, kvs: seq<KV>)

  function Size(l: Leaf): nat { l.cap * 12 + 4 }

  /** The leaf lies within its buffer, before the free space of the last one. */
  ghost predicate Placed(list: seq<nat>, offset: nat, p: At, l: Leaf) {
    |l.kvs| <= l.cap && p.buf < |list| && p.off + Size(l) <= if p.buf == |list| - 1 then offset else list[p.buf]
  }

  /** Two leaves share no byte. */
  ghost predicate Apart(p: At, l: Leaf, q: At, r: Leaf) {
    p.buf != q.buf || p.off + Size(l) <= q.off || q.off + Size(r) <= p.off
  }

  ghost predicate ArenaOk(list: seq<nat>, offset: nat, cells: map<At, Leaf>) {
    && list != [] && offset <= list[|list| - 1]
    && (forall p {:trigger Placed(list, offset, p, cells[p])} :: p in cells ==> Placed(list, offset, p, cells[p]))
    && forall p, q {:trigger Apart(p, cells[p], q, cells[q])} ::
         p in cells && q in cells && p != q ==> Apart(p, cells[p], q, cells[q])
  }

  /** Editing a leaf within its capacity. */
  lemma EditKeeps(list: seq<nat>, offset: nat, cells: map<At, Leaf>, p: At, kvs: seq<KV>)
    requires ArenaOk(list, offset, cells) && p in cells && |kvs| <= cells[p].cap
    ensures ArenaOk(list, offset, cells[p := cells[p].(kvs := kvs)])
  {
    var c' := cells[p := cells[p].(kvs := kvs)];
    forall q | q in c' ensures Placed(list, offset, q, c'[q]) { assert Placed(list, offset, q, cells[q]); }
    forall q, r | q in c' && r in c' && q != r ensures Apart(q, c'[q], r, c'[r]) {
      assert Apart(q, cells[q], r, cells[r]);
    }
  }

  /** A leaf at the start of the free space overlaps no other. */
  lemma AllocateKeeps(list: seq<nat>, offset: nat, cells: map<At, Leaf>, l: Leaf)
    requires ArenaOk(list, offset, cells) && |l.kvs| <= l.cap && offset + Size(l) <= list[|list| - 1]
    ensures At(|list| - 1, offset) !in cells && ArenaOk(list, offset + Size(l), cells[At(|list| - 1, offset) := l])
  {
    var (p, offset') := (At(|list| - 1, offset), offset + Size(l));
    assert p in cells ==> Placed(list, offset, p, cells[p]);
    var c' := cells[p := l];
    forall q | q in c' ensures Placed(list, offset', q, c'[q]) {
      if q != p { assert Placed(list, offset, q, cells[q]); }
    }
    forall q, r | q in c' && r in c' && q != r ensures Apart(q, c'[q], r, c'[r]) {
      if q != p { assert Placed(list, offset, q, cells[q]); }
      if r != p { assert Placed(list, offset, r, cells[r]); }
      if q != p && r != p { assert Apart(q, cells[q], r, cells[r]); }
    }
  }

  lemma NewBufferKeeps(list: seq<nat>, offset: nat, cells: map<At, Leaf>, size: nat)
    requires ArenaOk(list, offset, cells)
    ensures ArenaOk(list + [size], 0, cells)
  {
    forall q | q in cells ensures Placed(list + [size], 0, q, cells[q]) { assert Placed(list, offset, q, cells[q]); }
  }

  /** The leaves by key, as the tree sees them. */
  ghost function TreeOf(bt: map<nat, At>, cells: map<At, Leaf>): (t: Leaves)
    requires Linked(bt, cells)
    ensures t.Keys == bt.Keys && forall a: nat {:trigger t[a]} :: a in bt ==> bt[a] in cells && t[a] == cells[bt[a]].kvs
  {
    assert forall a: nat :: a in bt ==> Link(bt, cells, a);
    map a: nat | a in bt :: cells[bt[a]].kvs
  }

  ghost predicate Link(bt: map<nat, At>, cells: map<At, Leaf>, a: nat) { a in bt && bt[a] in cells }
  ghost predicate Distinct(bt: map<nat, At>, a: nat, b: nat) { a in bt && b in bt && bt[a] != bt[b] }

  /** Different keys lead to different leaves. */
  ghost predicate Linked(bt: map<nat, At>, cells: map<At, Leaf>) {
    && (forall a: nat {:trigger Link(bt, cells, a)} :: a in bt ==> Link(bt, cells, a))
    && forall a: nat, b: nat {:trigger Distinct(bt, a, b)} :: a in bt && b in bt && a != b ==> Distinct(bt, a, b)
  }

  lemma TreeEdit(bt: map<nat, At>, cells: map<At, Leaf>, a: nat, l: Leaf)
    requires Linked(bt, cells) && a in bt
    ensures Linked(bt, cells[bt[a] := l]) && TreeOf(bt, cells[bt[a] := l]) == TreeOf(bt, cells)[a := l.kvs]
  {
    var c' := cells[bt[a] := l];
    forall b: nat | b in bt ensures Link(bt, c', b) { assert Link(bt, cells, b); }
    forall b: nat | b in bt ensures TreeOf(bt, c')[b] == TreeOf(bt, cells)[a := l.kvs][b] {
      assert b != a ==> Distinct(bt, a, b);
    }
  }

  lemma TreeLink(bt: map<nat, At>, cells: map<At, Leaf>, a: nat, p: At, l: Leaf)
    requires Linked(bt, cells) && p !in cells
    ensures Linked(bt[a := p], cells[p := l]) && TreeOf(bt[a := p], cells[p := l]) == TreeOf(bt, cells)[a := l.kvs]
  {
    var (bt', c') := (bt[a := p], cells[p := l]);
    forall b: nat | b in bt' ensures Link(bt', c', b) { assert b != a ==> Link(bt, cells, b); }
    forall b: nat, d: nat | b in bt' && d in bt' && b != d ensures Distinct(bt', b, d) {
      assert b != a ==> Link(bt, cells, b);
      assert d != a ==> Link(bt, cells, d);
      assert b != a && d != a ==> Distinct(bt, b, d);
    }
    forall b: nat | b in bt' ensures TreeOf(bt', c')[b] == TreeOf(bt, cells)[a := l.kvs][b] {
      assert b != a ==> Link(bt, cells, b);
    }
  }

  lemma TreeUnlink(bt: map<nat, At>, cells: map<At, Leaf>, a: nat)
    requires Linked(bt, cells) && a in bt
    ensures Linked(bt - {a}, cells) && TreeOf(bt - {a}, cells) == TreeOf(bt, cells) - {a}
  {
    var bt' := bt - {a};
    forall b: nat | b in bt' ensures Link(bt', cells, b) { assert Link(bt, cells, b); }
    forall b: nat, d: nat | b in bt' && d in bt' && b != d ensures Distinct(bt', b, d) { assert Distinct(bt, b, d); }
  }

  const BUF_SIZE: nat := 10224
  const LEAF_INIT_CAP: nat := 8

  /** `seek`: the first pair whose key is not below lo, or the length. */
  method Seek(s: seq<KV>, lo: nat) returns (i: nat)
    requires SortedLeaf(s)
    ensures SeekAt(s, lo, i)
  {
    i := 0;
    while i < |s| && s[i].0 < lo
      invariant i <= |s| && forall j {:trigger s[j]} :: 0 <= j < i ==> s[j].0 < lo
    {
      i := i + 1;
    }
  }

  /** `find_kv` */
  method FindKv(s: seq<KV>, lo: nat, v: nat) returns (r: Option<nat>)
    requires SortedLeaf(s)
    ensures r.Some? ==> r.value < |s| && s[r.value] == (lo, v)
    ensures r.None? ==> (lo, v) !in s
  {
    for i := 0 to |s|
      invariant forall j {:trigger s[j]} :: 0 <= j < i ==> s[j] != (lo, v)
    {
      if s[i] == (lo, v) { return Some(i); }
      if s[i].0 > lo { return None; }
    }
    return None;
  }

  /** The values of lo, as they stand in the leaf. */
  ghost function MatchList(s: seq<KV>, lo: nat): seq<nat> {
    if s == [] then [] else MatchList(s[..|s| - 1], lo) + if s[|s| - 1].0 == lo then [s[|s| - 1].1] else []
  }

  lemma {:induction false} MatchVals(s: seq<KV>, lo: nat)
    ensures multiset(MatchList(s, lo)) == Vals(s, lo)
  {
    if s != [] { MatchVals(s[..|s| - 1], lo); }
  }

  lemma MatchNext(s: seq<KV>, i: nat, lo: nat)
    requires i < |s|
    ensures MatchList(s[..i + 1], lo) == MatchList(s[..i], lo) + if s[i].0 == lo then [s[i].1] else []
  {
    assert s[..i + 1][..i] == s[..i];
  }

  lemma {:induction false} MatchMore(s: seq<KV>, i: nat, lo: nat) returns (more: seq<nat>)
    requires i <= |s|
    ensures MatchList(s, lo) == MatchList(s[..i], lo) + more
    ensures (forall j {:trigger s[j]} :: i <= j < |s| ==> s[j].0 != lo) ==> more == []
    decreases |s|
  {
    if i == |s| {
      assert s[..i] == s;
      more := [];
    } else {
      var n := |s| - 1;
      more := MatchMore(s[..n], i, lo);
      assert s[..n][..i] == s[..i];
      if s[n].0 == lo { more := more + [s[n].1]; }
    }
  }

  /** What the accessor is handed for a key: the key with each of its values. */
  ghost function Tagged(k: nat, vs: seq<nat>): (r: seq<KV>)
    ensures |r| == |vs| && forall i :: 0 <= i < |vs| ==> r[i] == (k, vs[i])
  {
    seq(|vs|, i requires 0 <= i < |vs| => (k, vs[i]))
  }

  lemma TaggedConcat(k: nat, a: seq<nat>, b: seq<nat>)
    ensures Tagged(k, a + b) == Tagged(k, a) + Tagged(k, b)
  {
  }

  /** One more value handed out. */
  lemma TaggedNext(had: seq<KV>, k: nat, vs: seq<nat>, v: nat, stop: seq<KV> -> bool)
    ensures Offered(had, Tagged(k, vs + [v]), stop) ==
            if vs != [] && stop(Offered(had, Tagged(k, vs), stop)) then Offered(had, Tagged(k, vs), stop)
            else Offered(had, Tagged(k, vs), stop) + [(k, v)]
  {
    assert Tagged(k, vs + [v]) == Tagged(k, vs) + [(k, v)];
    OfferedNext(had, Tagged(k, vs), (k, v), stop);
  }

  lemma TaggedStays(had: seq<KV>, k: nat, vs: seq<nat>, more: seq<nat>, stop: seq<KV> -> bool)
    requires vs != [] && stop(Offered(had, Tagged(k, vs), stop))
    ensures Offered(had, Tagged(k, vs + more), stop) == Offered(had, Tagged(k, vs), stop)
  {
    TaggedConcat(k, vs, more);
    OfferedStays(had, Tagged(k, vs), Tagged(k, more), stop);
  }

  /** The loop of both enumerations over a leaf: the values of k, until the accessor stops, and the
      first place not below k. */
  method Matching(s: seq<KV>, lo: nat, k: nat, stop: seq<KV> -> bool) returns (calls: seq<KV>, idx: nat)
    requires SortedLeaf(s)
    ensures calls == Offered([], Tagged(k, MatchList(s, lo)), stop) && SeekAt(s, lo, idx)
  {
    idx, calls := |s|, [];
    ghost var vs: seq<nat> := [];
    for i := 0 to |s|
      invariant vs == MatchList(s[..i], lo) && FoundSoFar(s, lo, i, idx)
      invariant calls == Offered([], Tagged(k, vs), stop) && (vs != [] ==> !stop(calls))
    {
      MatchNext(s, i, lo);
      if s[i].0 == lo {
        if idx == |s| { idx := i; }
        TaggedNext([], k, vs, s[i].1, stop);
        vs := vs + [s[i].1];
        calls := calls + [(k, s[i].1)];
        if stop(calls) {
          ghost var more := MatchMore(s, i + 1, lo);
          TaggedStays([], k, vs, more, stop);
          FoundAll(s, lo, i, idx);
          return;
        }
      } else if s[i].0 > lo {
        if idx == |s| { idx := i; }
        NoneBehind(s, i, lo);
        FoundAll(s, lo, i, idx);
        return;
      }
    }
    assert s[..|s|] == s;
    FoundAll(s, lo, |s|, idx);
  }

  lemma NoneBehind(s: seq<KV>, i: nat, lo: nat)
    requires SortedLeaf(s) && i < |s| && s[i].0 > lo
    ensures MatchList(s, lo) == MatchList(s[..i], lo)
  {
    var more := MatchMore(s, i, lo);
    assert forall j {:trigger s[j]} :: i <= j < |s| ==> s[j].0 >= s[i].0;
  }

  /** idx is the first place before i that is not below lo, or the length. */
  ghost predicate FoundSoFar(s: seq<KV>, lo: nat, i: nat, idx: nat)
    requires i <= |s|
  {
    if idx == |s| then forall j {:trigger s[j]} :: 0 <= j < i ==> s[j].0 < lo
    else idx < i && s[idx].0 >= lo && forall j {:trigger s[j]} :: 0 <= j < idx ==> s[j].0 < lo
  }

  lemma FoundAll(s: seq<KV>, lo: nat, i: nat, idx: nat)
    requires SortedLeaf(s) && i <= |s| && idx <= |s|
    requires FoundSoFar(s, lo, i, idx) || (i == idx < |s| && s[i].0 >= lo && forall j {:trigger s[j]} ::
        0 <= j < i ==> s[j].0 < lo)
    requires i == |s| || idx < |s|
    ensures SeekAt(s, lo, idx)
  {
  }

  lemma ValsNext(s: seq<KV>, i: nat, lo: nat)
    requires i < |s|
    ensures Vals(s[..i + 1], lo) == Vals(s[..i], lo) + When(s[i].0 == lo, s[i].1)
  {
    assert s[..i + 1][..i] == s[..i];
  }

  lemma RestLarger(s: seq<KV>, lo: nat, i: nat)
    requires SortedLeaf(s) && i < |s| && s[i].0 > lo
    ensures Vals(s, lo) == Vals(s[..i], lo)
  {
    assert s == s[..i] + s[i..];
    ValsConcat(s[..i], s[i..], lo);
    forall j | 0 <= j < |s[i..]| ensures s[i..][j].0 != lo { assert s[i..][j] == s[i + j]; }
    ValsNone(s[i..], lo);
  }

  lemma SmallerNone(s: seq<KV>, i: nat, key: nat)
    requires SortedLeaf(s) && i < |s| && s[i].0 < key
    ensures Vals(s[..i + 1], key) == multiset{}
  {
    assert forall j :: 0 <= j < i + 1 ==> s[..i + 1][j] == s[j] && (j < i ==> s[j].0 <= s[i].0);
    ValsNone(s[..i + 1], key);
  }

  /** The values of a key, from place i backwards. */
  ghost function BackList(s: seq<KV>, i: nat, key: nat): seq<nat>
    requires i < |s|
  {
    if s[i].0 != key then [] else if i == 0 then [s[0].1] else [s[i].1] + BackList(s, i - 1, key)
  }

  lemma {:induction false} BackAll(s: seq<KV>, i: nat, key: nat)
    requires SortedLeaf(s) && i < |s| && s[i].0 <= key
    ensures multiset(BackList(s, i, key)) == Vals(s[..i + 1], key)
  {
    if s[i].0 != key {
      SmallerNone(s, i, key);
    } else {
      var r: seq<nat> := [];
      if i > 0 {
        r := BackList(s, i - 1, key);
        BackAll(s, i - 1, key);
      }
      OneMoreBack(s, i, key, r);
      assert BackList(s, i, key) == [s[i].1] + r;
    }
  }

  lemma OneMoreBack(s: seq<KV>, i: nat, key: nat, r: seq<nat>)
    requires i < |s| && s[i].0 == key && multiset(r) == Vals(s[..i], key)
    ensures multiset([s[i].1] + r) == Vals(s[..i + 1], key)
  {
    ValsNext(s, i, key);
    assert multiset([s[i].1] + r) == multiset{s[i].1} + multiset(r);
  }

  /** The list, place by place. */
  lemma {:induction false} BackShape(s: seq<KV>, i: nat, key: nat)
    requires i < |s|
    ensures var r := BackList(s, i, key);
            && |r| <= i + 1 && (forall j {:trigger r[j]} :: 0 <= j < |r| ==> s[i - j] == (key, r[j]))
            && (|r| <= i ==> s[i - |r|].0 != key)
  {
    if s[i].0 == key && i > 0 {
      BackShape(s, i - 1, key);
      var (r, t) := (BackList(s, i, key), BackList(s, i - 1, key));
      assert r == [s[i].1] + t;
      forall j {:trigger r[j]} | 0 <= j < |r| ensures s[i - j] == (key, r[j]) { if j > 0 { assert r[j] == t[j - 1]; } }
    }
  }

  /** The loop that walks back over the pairs with the same key as the one at idx, until the accessor
      stops. The first of them is handed over in any case. */
  method Backward(s: seq<KV>, idx: nat, p: nat, had: seq<KV>, stop: seq<KV> -> bool, ghost all: seq<nat>)
    returns (calls: seq<KV>)
    requires idx < |s| && |all| <= idx + 1
    requires forall j {:trigger all[j]} :: 0 <= j < |all| ==> s[idx - j] == (s[idx].0, all[j])
    requires |all| <= idx ==> s[idx - |all|].0 != s[idx].0
    ensures calls == Offered(had, Tagged(p, all), stop)
  {
    var i, key := idx, s[idx].0;
    calls := had;
    assert all[..0] == [] && all[..|all|] == all;
    while true
      invariant 0 <= i <= idx && idx - i <= |all|
      invariant calls == Offered(had, Tagged(p, all[..idx - i]), stop) && (i < idx ==> !stop(calls))
      decreases i
    {
      ghost var n := idx - i;
      assert n < |all| ==> s[i] == (key, all[n]);
      if s[i].0 != key { return; }
      assert all[..n + 1] == all[..n] + [all[n]];
      TaggedNext(had, p, all[..n], all[n], stop);
      calls := calls + [(p, s[i].1)];
      if i == 0 { return; }
      if stop(calls) {
        assert all == all[..n + 1] + all[n + 1..];
        TaggedStays(had, p, all[..n + 1], all[n + 1..], stop);
        return;
      }
      i := i - 1;
    }
  }

  /** Walking back from the last pair of a key meets all its values. */
  lemma RunValues(t: Leaves, a: nat, s: seq<KV>, idx: nat, p: nat)
    requires Good(t) && a in t && t[a] == s && idx < |s| && (idx + 1 < |s| ==> s[idx + 1].0 > s[idx].0)
    requires p == Hi(a) + s[idx].0
    ensures multiset(BackList(s, idx, s[idx].0)) == Values(t, p) && BackList(s, idx, s[idx].0) != []
  {
    assert LeafOk(a, t[a]);
    BackVals(s, idx);
    StoredVals(t, a, s, s[idx].0, idx, p);
  }

  lemma StoredVals(t: Leaves, a: nat, s: seq<KV>, lo: nat, i: nat, p: nat)
    requires Good(t) && a in t && t[a] == s && i < |s| && s[i].0 == lo && p == Hi(a) + lo
    ensures Values(t, p) == Vals(s, lo)
  {
    StoredKey(t, a, i);
    ValuesAt(t, p, a);
  }

  lemma BackVals(s: seq<KV>, idx: nat)
    requires SortedLeaf(s) && idx < |s| && (idx + 1 < |s| ==> s[idx + 1].0 > s[idx].0)
    ensures multiset(BackList(s, idx, s[idx].0)) == Vals(s, s[idx].0)
  {
    BackAll(s, idx, s[idx].0);
    if idx + 1 < |s| { RestLarger(s, s[idx].0, idx + 1); } else { assert s[..idx + 1] == s; }
  }

  lemma LeafValues(t: Leaves, k: nat, a: nat)
    requires IsCover(t, k, a)
    ensures multiset(MatchList(t[a], Lo(k))) == Values(t, k)
  {
    ValuesAt(t, k, a);
    MatchVals(t[a], Lo(k));
  }

  class Unit {
    var bt: map<nat, At>
    var list: seq<nat>
    var offset: nat
    var cells: map<At, Leaf>

    ghost predicate Valid()
      reads this
    {
      ArenaOk(list, offset, cells) && Linked(bt, cells) && Good(TreeOf(bt, cells))
    }

    ghost function Tree(): Leaves
      requires Valid()
      reads this
    {
      TreeOf(bt, cells)
    }

    constructor ()
      ensures Valid() && forall k: nat :: Values(Tree(), k) == multiset{}
    {
      bt, list, offset, cells := map[], [BUF_SIZE], 0, map[];
      new;
      forall k: nat ensures Values(Tree(), k) == multiset{} { assert !Covered(Tree(), k); }
    }

    /** `find_key_and_leaf`: the last leaf key in the range from the high bits of k to k. */
    method FindKeyAndLeaf(k: nat) returns (r: Option<nat>)
      requires Valid()
      ensures r.Some? ==> r.value in bt && bt[r.value] in cells && IsCover(Tree(), k, r.value)
      ensures r.None? ==> !Covered(Tree(), k) && forall b: nat {:trigger b in bt} :: b in bt ==> b < Hi(k) || b > k
    {
      r := LastBefore(k + 1);
      ghost var t := Tree();
      if r.Some? && r.value < Hi(k) { r := None; }
      assert forall b: nat {:trigger b in t} :: b in t ==> b in bt;
      if r.Some? { assert Link(bt, cells, r.value) && IsCover(t, k, r.value); } else { Uncovered(t, k); }
    }

    /** The last leaf key below c. */
    method LastBefore(c: nat) returns (r: Option<nat>)
      requires Valid()
      ensures r.Some? ==> r.value in bt && r.value < c && forall b: nat {:trigger b in bt} ::
                b in bt && b < c ==> b <= r.value
      ensures r.None? ==> forall b: nat {:trigger b in bt} :: b in bt ==> b >= c
    {
      var rest := bt.Keys;
      r := None;
      while rest != {}
        invariant rest <= bt.Keys && (r.Some? ==> r.value in bt && r.value < c)
        invariant forall b: nat {:trigger b in bt} :: b in bt && b < c ==> b in rest || (r.Some? && b <= r.value)
        decreases |rest|
      {
        var b :| b in rest;
        rest := rest - {b};
        if b < c && (r.None? || r.value < b) { r := Some(b); }
      }
    }

    /** `get_leaf` */
    method GetLeaf(a: nat) returns (leaf: Leaf)
      requires Valid() && a in bt
      ensures bt[a] in cells && leaf == cells[bt[a]] && |leaf.kvs| <= leaf.cap
      ensures a in Tree() && Tree()[a] == leaf.kvs && LeafOk(a, leaf.kvs)
    {
      assert Link(bt, cells, a);
      leaf := cells[bt[a]];
      assert LeafOk(a, Tree()[a]) && Placed(list, offset, bt[a], leaf);
    }

    /** `allocate` */
    method Allocate(cap: nat, kvs: seq<KV>) returns (p: At)
      requires ArenaOk(list, offset, cells) && |kvs| <= cap
      modifies this`list, this`offset, this`cells
      ensures ArenaOk(list, offset, cells) && p !in old(cells) && cells == old(cells)[p := Leaf(cap, kvs)]
    {
      var size := cap * 12 + 4;
      if offset + size > list[|list| - 1] {
        var bufSize := if BUF_SIZE > size then BUF_SIZE else size;
        NewBufferKeeps(list, offset, cells, bufSize);
        list := list + [bufSize];
        offset := 0;
      }
      AllocateKeeps(list, offset, cells, Leaf(cap, kvs));
      p := At(|list| - 1, offset);
      offset := offset + size;
      cells := cells[p := Leaf(cap, kvs)];
    }

    /** File a new leaf. */
    method AddLeaf(a: nat, cap: nat, kvs: seq<KV>)
      requires ArenaOk(list, offset, cells) && Linked(bt, cells) && |kvs| <= cap
      modifies this
      ensures ArenaOk(list, offset, cells) && Linked(bt, cells)
      ensures TreeOf(bt, cells) == old(TreeOf(bt, cells))[a := kvs]
    {
      var p := Allocate(cap, kvs);
      TreeLink(bt, old(cells), a, p, Leaf(cap, kvs));
      bt := bt[a := p];
    }

    /** Change the pairs of a leaf in place. */
    method EditLeaf(a: nat, kvs: seq<KV>)
      requires ArenaOk(list, offset, cells) && Linked(bt, cells) && a in bt && bt[a] in cells
      requires |kvs| <= cells[bt[a]].cap
      modifies this`cells
      ensures ArenaOk(list, offset, cells) && Linked(bt, cells)
      ensures TreeOf(bt, cells) == old(TreeOf(bt, cells))[a := kvs]
    {
      EditKeeps(list, offset, cells, bt[a], kvs);
      TreeEdit(bt, cells, a, cells[bt[a]].(kvs := kvs));
      cells := cells[bt[a] := cells[bt[a]].(kvs := kvs)];
    }

    /** `add_kv` */
    method AddKv(k: nat, v: nat)
      requires Valid()
      modifies this
      ensures Valid() && Adds(old(Tree()), Tree(), k, v)
    {
      ghost var t := Tree();
      var cover := FindKeyAndLeaf(k);
      if cover.None? {
        FirstLeaf(t, k);
        PutNewLeaf(t, k, v, Hi(k));
        AddLeaf(Hi(k), LEAF_INIT_CAP, [(Lo(k), v)]);
        return;
      }
      var a := cover.value;
      var leaf := GetLeaf(a);
      var idx := Seek(leaf.kvs, Lo(k));
      if |leaf.kvs| == leaf.cap {
        AddToFull(k, v, a, idx);
      } else {
        PutInLeaf(t, k, v, a, idx);
        EditLeaf(a, leaf.kvs[..idx] + [(Lo(k), v)] + leaf.kvs[idx..]);
      }
    }

    /** The leaf has no room: move the tail out, replace the leaf, or start a new one behind it. */
    method AddToFull(k: nat, v: nat, a: nat, idx: nat)
      requires Valid() && a in bt && IsCover(Tree(), k, a) && SeekAt(Tree()[a], Lo(k), idx)
      modifies this
      ensures Valid() && Adds(old(Tree()), Tree(), k, v)
    {
      ghost var t := Tree();
      var leaf := GetLeaf(a);
      var kvs := leaf.kvs;
      var moved: seq<KV> := [(Lo(k), v)] + kvs[idx..];
      var count := |kvs| - idx;
      var cap := 1 + count + if count / 4 < 2 then count / 4 else 2;
      if idx == |kvs| {
        BehindLeaf(t, k, a);
        PutNewLeaf(t, k, v, k);
        AddLeaf(k, LEAF_INIT_CAP, [(Lo(k), v)]);
      } else if idx == 0 {
        PutInLeaf(t, k, v, a, 0);
        assert kvs[..0] + [(Lo(k), v)] + kvs[0..] == moved;
        EditLeaf(a, []);
        AddLeaf(a, cap, moved);
        assert TreeOf(bt, cells) == t[a := moved];
      } else {
        PutSplit(t, k, v, a, idx);
        EditLeaf(a, kvs[..idx]);
        AddLeaf(k, cap, moved);
      }
    }

    /** `erase_kv`; false is the panic for a pair that is not there. */
    method EraseKv(k: nat, v: nat) returns (ok: bool)
      requires Valid()
      modifies this
      ensures Valid() && (ok <==> v in old(Values(Tree(), k)))
      ensures if ok then Removes(old(Tree()), Tree(), k, v) else Tree() == old(Tree())
    {
      ghost var t := Tree();
      var cover := FindKeyAndLeaf(k);
      if cover.None? { return false; }
      var a := cover.value;
      var leaf := GetLeaf(a);
      var kvs := leaf.kvs;
      FoundInLeaf(t, k, v, a);
      var idx := FindKv(kvs, Lo(k), v);
      if idx.None? { return false; }
      var i := idx.value;
      TakeFromLeaf(t, k, v, a, i);
      RemoveFromLeaf(a, kvs[..i] + kvs[i + 1..]);
      return true;
    }

    /** Shrink a leaf; an empty one leaves the tree. */
    method RemoveFromLeaf(a: nat, kvs: seq<KV>)
      requires ArenaOk(list, offset, cells) && Linked(bt, cells) && a in bt && bt[a] in cells
      requires |kvs| <= cells[bt[a]].cap
      modifies this`cells, this`bt
      ensures ArenaOk(list, offset, cells) && Linked(bt, cells)
      ensures var t := old(TreeOf(bt, cells)); TreeOf(bt, cells) == if kvs == [] then t - {a} else t[a := kvs]
    {
      ghost var t := TreeOf(bt, cells);
      EditLeaf(a, kvs);
      if kvs == [] {
        Unlink(a);
        assert t[a := kvs] - {a} == t - {a};
      }
    }

    /** Remove a leaf from the tree; its bytes stay unused. */
    method Unlink(a: nat)
      requires ArenaOk(list, offset, cells) && Linked(bt, cells) && a in bt
      modifies this`bt
      ensures Linked(bt, cells) && TreeOf(bt, cells) == old(TreeOf(bt, cells)) - {a}
    {
      TreeUnlink(bt, cells, a);
      bt := bt - {a};
    }

    /** `for_each_value`: the values of k, handed out until the accessor stops. */
    method ForEachValue(k: nat, stop: seq<KV> -> bool) returns (calls: seq<KV>, ghost all: seq<nat>)
      requires Valid()
      ensures calls == Offered([], Tagged(k, all), stop) && multiset(all) == Values(Tree(), k)
    {
      var cover := FindKeyAndLeaf(k);
      all := [];
      if cover.None? { return [], all; }
      ValuesAt(Tree(), k, cover.value);
      var leaf := GetLeaf(cover.value);
      var idx;
      calls, idx := Matching(leaf.kvs, Lo(k), k, stop);
      all := MatchList(leaf.kvs, Lo(k));
      MatchVals(leaf.kvs, Lo(k));
    }

    /** `for_each_adjacent_value`: the values at k and those at the largest smaller key that has any. A
        stop among the former does not skip the latter, of which the first is handed out in any case. */
    method ForEachAdjacentValue(k: nat, stop: seq<KV> -> bool)
      returns (calls: seq<KV>, ghost same: seq<nat>, ghost p: Option<nat>, ghost prev: seq<nat>)
      requires Valid()
      ensures multiset(same) == Values(Tree(), k)
      ensures match p
              case None => NoPred(Tree(), k) && calls == Offered([], Tagged(k, same), stop)
              case Some(q) =>
                && IsPred(Tree(), k, q) && multiset(prev) == Values(Tree(), q) && prev != []
                && calls == Offered(Offered([], Tagged(k, same), stop), Tagged(q, prev), stop)
    {
      var curKey, atEnd := k, true;
      calls, same, p, prev := [], [], None, [];
      var cover := FindKeyAndLeaf(k);
      if cover.Some? {
        curKey := cover.value;
        calls, atEnd, same, p, prev := InLeaf(k, curKey, stop);
      }
      if atEnd { calls, p, prev := FromPrevLeaf(k, curKey, calls, stop); }
    }

    /** The values of k in its leaf, and the key before it if it is in the same leaf. */
    method InLeaf(k: nat, a: nat, stop: seq<KV> -> bool)
      returns (calls: seq<KV>, atEnd: bool, ghost same: seq<nat>, ghost p: Option<nat>, ghost prev: seq<nat>)
      requires Valid() && a in bt && IsCover(Tree(), k, a)
      ensures multiset(same) == Values(Tree(), k) && (atEnd <==> p.None?)
      ensures match p
              case None => Gap(Tree(), k, a) && calls == Offered([], Tagged(k, same), stop)
              case Some(q) =>
                && IsPred(Tree(), k, q) && multiset(prev) == Values(Tree(), q) && prev != []
                && calls == Offered(Offered([], Tagged(k, same), stop), Tagged(q, prev), stop)
    {
      var leaf := GetLeaf(a);
      var idx;
      calls, idx := Matching(leaf.kvs, Lo(k), k, stop);
      same := MatchList(leaf.kvs, Lo(k));
      LeafValues(Tree(), k, a);
      p, prev, atEnd := None, [], idx == 0;
      if idx > 0 {
        PredInLeaf(Tree(), k, a, idx);
        ghost var q;
        calls, q, prev := Run(a, idx - 1, calls, stop);
        p := Some(q);
      } else {
        GapInLeaf(Tree(), k, a);
      }
    }

    /** The key and the values of the last pair of the leaf before. */
    method FromPrevLeaf(k: nat, curKey: nat, had: seq<KV>, stop: seq<KV> -> bool)
      returns (calls: seq<KV>, ghost p: Option<nat>, ghost prev: seq<nat>)
      requires Valid() && Gap(Tree(), k, curKey)
      ensures match p
              case None => NoPred(Tree(), k) && calls == had
              case Some(q) =>
                && IsPred(Tree(), k, q) && multiset(prev) == Values(Tree(), q) && prev != []
                && calls == Offered(had, Tagged(q, prev), stop)
    {
      ghost var t := Tree();
      assert forall b: nat {:trigger b in t} :: b in t ==> b in bt;
      if curKey == 0 {
        NoPrevLeaf(t, k, 0);
        return had, None, [];
      }
      var before := LastBefore(curKey);
      if before.None? {
        NoPrevLeaf(t, k, curKey);
        return had, None, [];
      }
      PredInPrev(t, k, curKey, before.value);
      var leaf := GetLeaf(before.value);
      ghost var q;
      calls, q, prev := Run(before.value, |leaf.kvs| - 1, had, stop);
      p := Some(q);
    }

    /** The key at place idx of leaf a and its values. */
    method Run(a: nat, idx: nat, had: seq<KV>, stop: seq<KV> -> bool)
      returns (calls: seq<KV>, ghost p: nat, ghost vs: seq<nat>)
      requires Valid() && a in Tree() && idx < |Tree()[a]|
      requires (idx + 1 < |Tree()[a]| ==> Tree()[a][idx + 1].0 > Tree()[a][idx].0)
      ensures p == Hi(a) + Tree()[a][idx].0 && multiset(vs) == Values(Tree(), p) && vs != []
      ensures calls == Offered(had, Tagged(p, vs), stop)
    {
      var leaf := GetLeaf(a);
      var s := leaf.kvs;
      var q := Hi(a) + s[idx].0;
      RunValues(Tree(), a, s, idx, q);
      p, vs := q, BackList(s, idx, s[idx].0);
      BackShape(s, idx, s[idx].0);
      calls := Backward(s, idx, q, had, stop, vs);
    }

    /** `compact`: rebuild all leaves; the multimap stays the same. */
    method Compact()
      requires Valid()
      modifies this
      ensures Valid() && forall k: nat {:trigger Values(Tree(), k)} :: Values(Tree(), k) == old(Values(Tree(), k))
    {
      var b := new Builder();
      CopyAll(b);
      b.Flush();
      Adopt(b);
    }

    /** Append all leaves in the order of their keys. */
    method CopyAll(b: Builder)
      requires Valid() && b.Valid() && b.All() == map[] && b.last.None?
      modifies b
      ensures b.Valid() && forall k: nat {:trigger Values(b.All(), k)} :: Values(b.All(), k) == Values(Tree(), k)
    {
      ghost var t := Tree();
      var rest := bt.Keys;
      if rest == {} {
        assert t == map[];
        return;
      }
      var a := Least(rest);
      NothingCopied(t, a);
      while true
        invariant b.Valid() && a in rest && Pending(t, rest, a)
        invariant Copied(b.All(), t, a, 0) && (b.last.Some? ==> b.open != [] && b.last.value < a)
        decreases |rest|
      {
        CopyLeaf(b, a);
        rest := rest - {a};
        assert Pending(t, rest + {a}, a);
        if rest == {} {
          assert rest + {a} == {a};
          LastLeaf(t, a);
          CopyEnd(b.All(), t, a);
          return;
        }
        var c := Least(rest);
        Advance(t, rest, a, c);
        CopyNext(b.All(), t, a, c);
        a := c;
      }
    }

    /** Append the pairs of one leaf. */
    method CopyLeaf(b: Builder, a: nat)
      requires Valid() && a in bt && a in Tree() && CopyState(b, Tree(), a, 0)
      modifies b
      ensures Tree()[a] != [] && CopyState(b, Tree(), a, |Tree()[a]|)
    {
      var leaf := GetLeaf(a);
      CopyPairs(b, a, leaf.kvs, Tree());
    }

    static method CopyPairs(b: Builder, a: nat, kvs: seq<KV>, ghost t: Leaves)
      requires Good(t) && a in t && t[a] == kvs && LeafOk(a, kvs) && CopyState(b, t, a, 0)
      modifies b
      ensures CopyState(b, t, a, |kvs|)
    {
      for i := 0 to |kvs|
        invariant CopyState(b, t, a, i)
      {
        CopyPair(b, a, kvs, t, i);
      }
    }

    /** The builder holds the leaves before a and the first i pairs of a, and may go on. */
    static ghost predicate CopyState(b: Builder, t: Leaves, a: nat, i: nat)
      requires a in t && i <= |t[a]|
      reads b
    {
      && b.Valid() && Copied(b.All(), t, a, i) && (b.last.Some? ==> b.open != [])
      && if i == 0 then b.last.Some? ==> b.last.value < a else b.last == Some(Hi(a) + t[a][i - 1].0)
    }

    static method CopyPair(b: Builder, a: nat, kvs: seq<KV>, ghost t: Leaves, i: nat)
      requires Good(t) && a in t && t[a] == kvs && LeafOk(a, kvs) && i < |kvs| && CopyState(b, t, a, i)
      modifies b
      ensures CopyState(b, t, a, i + 1)
    {
      ghost var all := b.All();
      NextKey(a, kvs, i);
      b.Append(Hi(a) + kvs[i].0, kvs[i].1);
      CopyStep(all, b.All(), t, a, i);
    }

    /** Take over the builder's buffers. */
    method Adopt(b: Builder)
      requires b.Valid() && b.open == []
      modifies this
      ensures Valid() && Tree() == b.All()
    {
      GrowKeeps(b.bufs + [b.curLen], b.leafStart, b.cells, b.bufs + [b.curLen], b.curLen);
      bt, cells := b.bt, b.cells;
      offset := b.curLen;
      list := b.bufs + [b.curLen];
    }

    /** `change_kv` */
    method ChangeKv(k: nat, v: nat, w: nat) returns (ok: bool)
      requires Valid()
      modifies this
      ensures Valid() && (ok <==> v in old(Values(Tree(), k)))
      ensures if ok then Changes(old(Tree()), Tree(), k, v, w) else Tree() == old(Tree())
    {
      ghost var t := Tree();
      var cover := FindKeyAndLeaf(k);
      if cover.None? { return false; }
      var a := cover.value;
      var leaf := GetLeaf(a);
      var kvs := leaf.kvs;
      FoundInLeaf(t, k, v, a);
      var idx := FindKv(kvs, Lo(k), v);
      if idx.None? { return false; }
      ChangeInLeaf(t, k, v, w, a, idx.value);
      EditLeaf(a, kvs[idx.value := (Lo(k), w)]);
      return true;
    }
  }

  lemma Uncovered(t: Leaves, k: nat)
    requires forall b: nat {:trigger b in t} :: b in t ==> b < Hi(k) || b > k
    ensures !Covered(t, k)
  {
    assert forall b: nat :: IsCover(t, k, b) ==> b in t;
  }

  // ---------------------------------------------------------------- rebuilding

  const DEFAULT_LEAF_LEN: nat := 30

  lemma GrowKeeps(list: seq<nat>, offset: nat, cells: map<At, Leaf>, list': seq<nat>, offset': nat)
    requires ArenaOk(list, offset, cells) && |list'| == |list| && offset <= offset' <= list'[|list| - 1]
    requires forall i :: 0 <= i < |list| - 1 ==> list'[i] == list[i]
    ensures ArenaOk(list', offset', cells)
  {
    forall p | p in cells ensures Placed(list', offset', p, cells[p]) { assert Placed(list, offset, p, cells[p]); }
  }

  /** Every key and every leaf key is at most m. */
  ghost predicate AtMost(t: Leaves, m: nat) {
    forall a: nat {:trigger LeafAtMost(a, t[a], m)} :: a in t ==> LeafAtMost(a, t[a], m)
  }
  ghost predicate LeafAtMost(a: nat, s: seq<KV>, m: nat) {
    a <= m && forall i {:trigger s[i]} :: 0 <= i < |s| ==> Hi(a) + s[i].0 <= m
  }

  /** `UnitBuilder`: receives the pairs in order and cuts them into leaves. */
  class Builder {
    var bt: map<nat, At>
    var bufs: seq<nat>
    var curLen: nat
    var cells: map<At, Leaf>
    /** the leaf being filled */
    var open: seq<KV>
    var curHi: Option<nat>
    var keyForLeaf: nat
    var leafStart: nat
    var lastKey: Option<nat>
    ghost var last: Option<nat>

    ghost predicate Laid()
      reads this
    {
      ArenaOk(bufs + [curLen], leafStart, cells) && curLen == leafStart + 4 + 12 * |open| && Linked(bt, cells)
    }

    /** The leaves so far, including the open one. */
    ghost function All(): Leaves
      requires Linked(bt, cells)
      reads this
    {
      if open == [] then TreeOf(bt, cells) else TreeOf(bt, cells)[keyForLeaf := open]
    }

    ghost predicate Valid()
      reads this
    {
      && Laid() && Good(All())
      && (last.None? ==> All() == map[] && open == [] && curHi.None? && lastKey.None?)
      && (last.Some? ==> AtMost(All(), last.value) && curHi == Some(Hi(last.value)))
      && (open != [] ==> last.Some? && lastKey == last && keyForLeaf !in bt && Hi(keyForLeaf) == Hi(last.value)
                         && forall b: nat {:trigger b in bt} :: b in bt ==> b < keyForLeaf)
    }

    constructor ()
      ensures Valid() && All() == map[] && last.None?
    {
      bt, bufs, curLen, cells, open := map[], [], 4, map[], [];
      curHi, keyForLeaf, leafStart, lastKey := None, 0, 0, None;
      last := None;
    }

    /** `flush`: close the open leaf, with some room for later pairs. */
    method Flush()
      requires Valid()
      modifies this
      ensures Valid() && All() == old(All()) && open == [] && last == old(last) && curHi == old(curHi)
    {
      if open == [] { return; }
      ghost var t := All();
      CloseLeaf();
      lastKey := None;
      assert TreeOf(bt, cells) == t;
    }

    method CloseLeaf()
      requires Laid() && open != []
      modifies this`bt, this`bufs, this`curLen, this`cells, this`open, this`leafStart
      ensures Laid() && open == [] && TreeOf(bt, cells) == old(TreeOf(bt, cells))[keyForLeaf := old(open)]
    {
      var extra := if |open| / 8 < 2 then |open| / 8 else 2;
      var newLen := curLen + extra * 12;
      var cap := (newLen - leafStart - 4) / 12;
      assert cap == |open| + extra;
      FileLeaf(newLen, Leaf(cap, open));
      open := [];
    }

    /** Put the closed leaf into the tree and lay out what follows it. */
    method FileLeaf(newLen: nat, leaf: Leaf)
      requires ArenaOk(bufs + [curLen], leafStart, cells) && Linked(bt, cells)
      requires curLen <= newLen && |leaf.kvs| <= leaf.cap && leafStart + Size(leaf) == newLen
      modifies this`bt, this`bufs, this`curLen, this`cells, this`leafStart
      ensures ArenaOk(bufs + [curLen], leafStart, cells) && Linked(bt, cells) && curLen == leafStart + 4
      ensures TreeOf(bt, cells) == old(TreeOf(bt, cells))[keyForLeaf := leaf.kvs]
    {
      LeafClosed(bufs, curLen, newLen, leafStart, cells, leaf);
      Link(At(|bufs|, leafStart), leaf);
      LayOut(newLen);
    }

    /** Where the next leaf goes. */
    method LayOut(newLen: nat)
      requires ArenaOk(bufs + [newLen] + [4], 0, cells) && ArenaOk(bufs + [newLen + 4], newLen, cells)
      modifies this`bufs, this`curLen, this`leafStart
      ensures ArenaOk(bufs + [curLen], leafStart, cells) && curLen == leafStart + 4
    {
      if newLen + 12 > BUF_SIZE {
        bufs := bufs + [newLen];
        leafStart, curLen := 0, 4;
      } else {
        leafStart, curLen := newLen, newLen + 4;
      }
    }

    method Link(p: At, leaf: Leaf)
      requires Linked(bt, cells) && p !in cells
      modifies this`bt, this`cells
      ensures cells == old(cells)[p := leaf] && Linked(bt, cells)
      ensures TreeOf(bt, cells) == old(TreeOf(bt, cells))[keyForLeaf := leaf.kvs]
    {
      TreeLink(bt, cells, keyForLeaf, p, leaf);
      cells := cells[p := leaf];
      bt := bt[keyForLeaf := p];
    }

    /** Make sure that the open leaf, or the key of the next one, is right for k. */
    method Prepare(k: nat)
      requires Valid() && (last.Some? ==> last.value <= k && open != [])
      modifies this
      ensures Laid() && All() == old(All()) && last == old(last) && curHi == Some(Hi(k))
      ensures open == [] ==> Hi(k) <= keyForLeaf <= k && (last.Some? ==> last.value < keyForLeaf)
      ensures open != [] ==>
                && last.Some? && Hi(keyForLeaf) == Hi(k) && keyForLeaf !in bt
                && forall b: nat {:trigger b in bt} :: b in bt ==> b < keyForLeaf
    {
      HiLo(k);
      if curHi != Some(Hi(k)) {
        if last.Some? { HiBefore(last.value, k); }
        Flush();
        keyForLeaf := Hi(k);
        curHi := Some(Hi(k));
      }
      var extra := if |open| / 8 < 2 then |open| / 8 else 2;
      var ready := |open| >= DEFAULT_LEAF_LEN || curLen + extra * 12 + 12 >= BUF_SIZE;
      if ready && lastKey != Some(k) {
        if open != [] {
          ghost var t := All();
          CloseLeaf();
          assert TreeOf(bt, cells) == t;
          lastKey := None;
        }
        keyForLeaf := k;
      }
    }

    /** `append` */
    method Append(k: nat, v: nat)
      requires Valid() && (last.Some? ==> last.value <= k && open != [])
      modifies this
      ensures Valid() && last == Some(k) && open != [] && Adds(old(All()), All(), k, v)
    {
      ghost var t := All();
      Prepare(k);
      Pushed(t, k, v, keyForLeaf, open, last);
      Finish(k, v, t);
    }

    /** The pair goes into the leaf that was prepared. */
    method Finish(k: nat, v: nat, ghost t: Leaves)
      requires Laid() && All() == t && curHi == Some(Hi(k)) && Hi(keyForLeaf) == Hi(k)
      requires keyForLeaf !in bt && forall b: nat {:trigger b in bt} :: b in bt ==> b < keyForLeaf
      requires Good(t[keyForLeaf := open + [(Lo(k), v)]]) && AtMost(t[keyForLeaf := open + [(Lo(k), v)]], k)
      modifies this
      ensures Valid() && last == Some(k) && open != [] && All() == t[keyForLeaf := old(open) + [(Lo(k), v)]]
      ensures keyForLeaf == old(keyForLeaf)
    {
      ghost var base := TreeOf(bt, cells);
      Push((Lo(k), v));
      assert base[keyForLeaf := open] == t[keyForLeaf := open];
      lastKey := Some(k);
      last := Some(k);
    }

    method Push(kv: KV)
      requires Laid()
      modifies this`curLen, this`open
      ensures Laid() && open == old(open) + [kv]
    {
      GrowKeeps(bufs + [curLen], leafStart, cells, bufs + [curLen + 12], leafStart);
      curLen := curLen + 12;
      open := open + [kv];
    }
  }

  /** One more pair at the end, in the open leaf or in a new one. */
  lemma Pushed(t: Leaves, k: nat, v: nat, q: nat, open: seq<KV>, last: Option<nat>)
    requires Good(t) && (last.None? ==> t == map[] && open == [])
    requires (last.Some? ==> AtMost(t, last.value) && last.value <= k)
    requires open == [] ==> Hi(k) <= q <= k && (last.Some? ==> last.value < q)
    requires open != [] ==> Hi(q) == Hi(k) && q in t && t[q] == open && forall b: nat {:trigger b in t} ::
               b in t ==> b <= q
    ensures var t' := t[q := open + [(Lo(k), v)]]; Good(t') && Adds(t, t', k, v) && AtMost(t', k)
    ensures Hi(q) == Hi(k) && (open == [] ==> q !in t && forall b: nat {:trigger b in t} :: b in t ==> b < q)
  {
    var s: seq<KV> := open + [(Lo(k), v)];
    if open == [] {
      Fresh(t, k, q, last);
      PutNewLeaf(t, k, v, q);
      assert s == [(Lo(k), v)];
      HiOf(q, k);
    } else {
      Room(t, k, q, last.value);
      PutInLeaf(t, k, v, q, |open|);
      assert open[..|open|] + [(Lo(k), v)] + open[|open|..] == s;
    }
    assert LeafOk(q, t[q := s][q]);
    AtMostMore(t, k, q, s, last);
  }

  lemma AtMostMore(t: Leaves, k: nat, q: nat, s: seq<KV>, last: Option<nat>)
    requires last.None? ==> t == map[]
    requires last.Some? ==> AtMost(t, last.value) && last.value <= k
    requires q <= k && Hi(q) == Hi(k) && |s| > 0 && s[|s| - 1].0 == Lo(k) && SortedLeaf(s)
    ensures AtMost(t[q := s], k)
  {
    HiLo(k);
    assert LeafAtMost(q, s, k) by {
      assert forall i {:trigger s[i]} :: 0 <= i < |s| - 1 ==> s[i].0 <= s[|s| - 1].0;
    }
    var t' := t[q := s];
    forall a: nat | a in t' ensures LeafAtMost(a, t'[a], k) { assert a != q ==> LeafAtMost(a, t[a], last.value); }
  }

  lemma HiBefore(a: nat, k: nat)
    requires a <= k && Hi(a) != Hi(k)
    ensures a < Hi(k)
  {
  }

  /** Closing the open leaf, and what may follow it. */
  lemma LeafClosed(bufs: seq<nat>, curLen: nat, newLen: nat, leafStart: nat, cells: map<At, Leaf>, l: Leaf)
    requires ArenaOk(bufs + [curLen], leafStart, cells) && curLen <= newLen && |l.kvs| <= l.cap
    requires leafStart + Size(l) == newLen
    ensures var (p, n) := (At(|bufs|, leafStart), |bufs|);
            && p !in cells && ArenaOk(bufs + [newLen] + [4], 0, cells[p := l])
            && ArenaOk(bufs + [newLen + 4], newLen, cells[p := l])
  {
    var p := At(|bufs|, leafStart);
    GrowKeeps(bufs + [curLen], leafStart, cells, bufs + [newLen], leafStart);
    AllocateKeeps(bufs + [newLen], leafStart, cells, l);
    NewBufferKeeps(bufs + [newLen], newLen, cells[p := l], 4);
    GrowKeeps(bufs + [newLen], newLen, cells[p := l], bufs + [newLen + 4], newLen);
  }

  /** A leaf opened for k lies behind everything so far. */
  lemma Fresh(t: Leaves, k: nat, q: nat, last: Option<nat>)
    requires last.None? ==> t == map[]
    requires last.Some? ==> AtMost(t, last.value) && last.value <= k && last.value < q
    requires Hi(k) <= q <= k
    ensures q !in t && (forall b: nat {:trigger Below(b, t[b], q)} :: b in t && b < q ==> Below(b, t[b], q))
    ensures forall b: nat {:trigger b in t} :: b in t ==> b < q
  {
    forall b: nat | b in t ensures b < q && Below(b, t[b], q) { assert LeafAtMost(b, t[b], last.value); }
  }

  /** The open leaf is where k belongs. */
  lemma Room(t: Leaves, k: nat, q: nat, last: nat)
    requires Good(t) && AtMost(t, last) && last <= k && q in t && Hi(q) == Hi(k)
    requires forall b: nat {:trigger b in t} :: b in t ==> b <= q
    ensures IsCover(t, k, q) && FitsAt(t[q], Lo(k), |t[q]|)
  {
    HiLo(k);
    HiLo(q);
    assert LeafAtMost(q, t[q], last);
  }

  // ---------------------------------------------------------------- copying a tree in order

  /** The values of x among the leaves before a and the first i pairs of a. */
  ghost function PartVals(t: Leaves, a: nat, i: nat, x: nat): multiset<nat>
    requires a in t && i <= |t[a]|
  {
    if Covered(t, x) then
      var d: nat :| IsCover(t, x, d);
      if d < a then Vals(t[d], Lo(x)) else if d == a then Vals(t[a][..i], Lo(x)) else multiset{}
    else multiset{}
  }

  lemma PartAt(t: Leaves, a: nat, i: nat, x: nat, d: nat)
    requires a in t && i <= |t[a]| && IsCover(t, x, d)
    ensures PartVals(t, a, i, x) == if d < a then Vals(t[d], Lo(x)) else if d == a then Vals(t[a][..i], Lo(x))
        else multiset{}
  {
    assert Covered(t, x);
    forall e: nat | IsCover(t, x, e) ensures e == d { assert e in t && d in t; }
  }

  /** So far the copy has exactly those. */
  ghost predicate Copied(b: Leaves, t: Leaves, a: nat, i: nat)
    requires a in t && i <= |t[a]|
  {
    forall x: nat {:trigger Values(b, x)} :: Values(b, x) == PartVals(t, a, i, x)
  }

  lemma CopyStep(b: Leaves, b': Leaves, t: Leaves, a: nat, i: nat)
    requires Good(t) && a in t && i < |t[a]| && Copied(b, t, a, i) && Adds(b, b', Hi(a) + t[a][i].0, t[a][i].1)
    ensures Copied(b', t, a, i + 1)
  {
    forall x: nat ensures Values(b', x) == PartVals(t, a, i + 1, x) {
      assert Values(b, x) == PartVals(t, a, i, x);
      PartStep(t, a, i, x);
    }
  }

  lemma PartStep(t: Leaves, a: nat, i: nat, x: nat)
    requires Good(t) && a in t && i < |t[a]|
    ensures PartVals(t, a, i + 1, x) == PartVals(t, a, i, x) + When(x == Hi(a) + t[a][i].0, t[a][i].1)
  {
    StoredKey(t, a, i);
    if d: nat :| IsCover(t, x, d) { PartStepAt(t, a, i, x, d); }
  }

  lemma NextKey(a: nat, kvs: seq<KV>, i: nat)
    requires LeafOk(a, kvs) && i < |kvs|
    ensures a <= Hi(a) + kvs[i].0 && (i > 0 ==> kvs[i - 1].0 <= kvs[i].0)
  {
    HiLo(a);
  }

  lemma PartStepAt(t: Leaves, a: nat, i: nat, x: nat, d: nat)
    requires Good(t) && a in t && i < |t[a]| && IsCover(t, x, d) && IsCover(t, Hi(a) + t[a][i].0, a)
    requires Lo(Hi(a) + t[a][i].0) == t[a][i].0
    ensures PartVals(t, a, i + 1, x) == PartVals(t, a, i, x) + When(x == Hi(a) + t[a][i].0, t[a][i].1)
  {
    PartAt(t, a, i, x, d);
    PartAt(t, a, i + 1, x, d);
    var k := Hi(a) + t[a][i].0;
    if d == a {
      assert x == k <==> t[a][i].0 == Lo(x) by { SameKey(t, k, a, x); }
      ValsNext(t[a], i, Lo(x));
    } else {
      assert x != k by { OneCover(t, k, a, d); }
    }
  }

  lemma OneCover(t: Leaves, x: nat, a: nat, d: nat)
    requires IsCover(t, x, a) && a != d && d in t
    ensures !IsCover(t, x, d)
  {
  }

  lemma CopyNext(b: Leaves, t: Leaves, a: nat, c: nat)
    requires Good(t) && a in t && c in t && a < c && Copied(b, t, a, |t[a]|)
    requires forall d: nat {:trigger d in t} :: d in t && a < d ==> c <= d
    ensures Copied(b, t, c, 0)
  {
    forall x: nat ensures Values(b, x) == PartVals(t, c, 0, x) {
      if d: nat :| IsCover(t, x, d) {
        PartAt(t, a, |t[a]|, x, d);
        PartAt(t, c, 0, x, d);
        assert t[a][..|t[a]|] == t[a] && d in t;
      }
    }
  }

  lemma CopyEnd(b: Leaves, t: Leaves, a: nat)
    requires Good(t) && a in t && Copied(b, t, a, |t[a]|) && forall d: nat {:trigger d in t} :: d in t ==> d <= a
    ensures forall x: nat {:trigger Values(b, x)} :: Values(b, x) == Values(t, x)
  {
    forall x: nat ensures Values(b, x) == Values(t, x) {
      if d: nat :| IsCover(t, x, d) {
        PartAt(t, a, |t[a]|, x, d);
        ValuesAt(t, x, d);
        assert t[a][..|t[a]|] == t[a] && d in t;
      }
    }
  }

  lemma NothingCopied(t: Leaves, a: nat)
    requires a in t && forall d: nat {:trigger d in t} :: d in t ==> a <= d
    ensures Copied(map[], t, a, 0)
  {
    forall x: nat ensures Values(map[], x) == PartVals(t, a, 0, x) {
      if d: nat :| IsCover(t, x, d) {
        PartAt(t, a, 0, x, d);
        assert t[a][..0] == [] && d in t;
      }
      assert !Covered(map[], x);
    }
  }

  /** The leaves still to copy are those from a on. */
  ghost predicate Pending(t: Leaves, rest: set<nat>, a: nat) {
    a in t && forall d: nat {:trigger d in rest} {:trigger d in t} :: d in rest <==> d in t && a <= d
  }

  lemma LastLeaf(t: Leaves, a: nat)
    requires Pending(t, {a}, a)
    ensures forall d: nat {:trigger d in t} :: d in t ==> d <= a
  {
    forall d: nat | d in t ensures d <= a { assert a < d ==> d in {a}; }
  }

  lemma Advance(t: Leaves, rest: set<nat>, a: nat, c: nat)
    requires Good(t) && Pending(t, rest + {a}, a) && a !in rest && c in rest && forall d :: d in rest ==> c <= d
    ensures Pending(t, rest, c) && a < c && Below(a, t[a], c)
    ensures forall d: nat {:trigger d in t} :: d in t && a < d ==> c <= d
  {
    assert forall d: nat :: d in rest + {a} <==> d in rest || d == a;
    assert c in rest + {a};
  }

  lemma FirstLeaf(t: Leaves, k: nat)
    requires Good(t) && forall b: nat {:trigger b in t} :: b in t ==> b < Hi(k) || b > k
    ensures Hi(k) !in t && Hi(k) <= k
    ensures forall b: nat {:trigger Below(b, t[b], Hi(k))} :: b in t && b < Hi(k) ==> Below(b, t[b], Hi(k))
    ensures forall b: nat {:trigger b in t} :: b in t && Hi(k) < b ==> k < b
  {
    HiLo(k);
    forall b: nat | b in t && b < Hi(k) ensures Below(b, t[b], Hi(k)) {
      assert LeafOk(b, t[b]);
      HiStep(b, k);
    }
  }

  lemma BehindLeaf(t: Leaves, k: nat, a: nat)
    requires Good(t) && IsCover(t, k, a) && SeekAt(t[a], Lo(k), |t[a]|)
    ensures k !in t && (forall b: nat {:trigger Below(b, t[b], k)} :: b in t && b < k ==> Below(b, t[b], k))
    ensures Hi(k) <= k && forall b: nat {:trigger b in t} :: b in t && k < b ==> k < b
  {
    HiLo(k);
    assert LeafOk(a, t[a]) && t[a][0].0 < Lo(k);
    assert a != k;
    assert t[a := t[a]] == t;
    SplitBounds(t, t, k, a, t[a]);
  }
}