/** A batch of operations, sorted by shard, key hash and kind, with a table of where each shard's
    operations are. */
module ChangeSets {
  import opened Basics

  datatype Op = Op(opType: nat, shard: nat, hash: nat, key: seq<byte>, value: seq<byte>)

  predicate Le(a: Op, b: Op) {
    a.shard < b.shard || (a.shard == b.shard && (a.hash < b.hash || (a.hash == b.hash && a.opType <= b.opType)))
  }

  ghost predicate Sorted(s: seq<Op>) { forall i, j {:trigger s[i], s[j]} :: 0 <= i < j < |s| ==> Le(s[i], s[j]) }

  /** Shards ascend; within a shard key hashes do; operations on one key are reads, writes, creates and
      deletes, in this order. */
  ghost predicate Ascending(s: seq<Op>) {
    forall i, j {:trigger s[i], s[j]} :: 0 <= i < j < |s| ==>
      && s[i].shard <= s[j].shard
      && (s[i].shard == s[j].shard ==> s[i].hash <= s[j].hash)
      && (s[i].shard == s[j].shard && s[i].hash == s[j].hash ==> s[i].opType <= s[j].opType)
  }

  lemma SortedAscends(s: seq<Op>)
    requires Sorted(s)
    ensures Ascending(s)
  {
    forall i, j | 0 <= i < j < |s|
      ensures && s[i].shard <= s[j].shard && (s[i].shard == s[j].shard ==> s[i].hash <= s[j].hash)
              && (s[i].shard == s[j].shard && s[i].hash == s[j].hash ==> s[i].opType <= s[j].opType)
    {
      assert Le(s[i], s[j]);
    }
  }

  ghost function NumIn(s: seq<Op>, shard: nat): nat {
    if s == [] then 0 else NumIn(s[..|s| - 1], shard) + if s[|s| - 1].shard == shard then 1 else 0
  }

  /** The operations of a shard in list order. */
  ghost function Of(s: seq<Op>, shard: nat): seq<Op> {
    if s == [] then [] else Of(s[..|s| - 1], shard) + if s[|s| - 1].shard == shard then [s[|s| - 1]] else []
  }

  lemma {:induction false} NumIsLength(s: seq<Op>, shard: nat)
    ensures NumIn(s, shard) == |Of(s, shard)|
  {
    if s != [] { NumIsLength(s[..|s| - 1], shard); }
  }

  lemma {:induction false} OfConcat(a: seq<Op>, b: seq<Op>, shard: nat)
    ensures Of(a + b, shard) == Of(a, shard) + Of(b, shard)
    decreases |b|
  {
    if b == [] {
      assert a + b == a;
    } else {
      assert (a + b)[..|a + b| - 1] == a + b[..|b| - 1];
      OfConcat(a, b[..|b| - 1], shard);
    }
  }

  lemma {:induction false} OfOther(s: seq<Op>, shard: nat)
    requires forall i {:trigger s[i]} :: 0 <= i < |s| ==> s[i].shard != shard
    ensures Of(s, shard) == []
  {
    if s != [] { OfOther(s[..|s| - 1], shard); }
  }

  lemma {:induction false} OfAll(s: seq<Op>, shard: nat)
    requires forall i {:trigger s[i]} :: 0 <= i < |s| ==> s[i].shard == shard
    ensures Of(s, shard) == s
  {
    if s != [] {
      OfAll(s[..|s| - 1], shard);
      assert s == s[..|s| - 1] + [s[|s| - 1]];
    }
  }

  /** Where the sorted list has the shard's operations. */
  ghost predicate IsRange(s: seq<Op>, shard: nat, a: nat, b: nat) {
    a <= b <= |s| && forall i {:trigger s[i]} :: 0 <= i < |s| ==> (s[i].shard == shard <==> a <= i < b)
  }

  lemma RangeIsOf(s: seq<Op>, shard: nat, a: nat, b: nat)
    requires IsRange(s, shard, a, b)
    ensures s[a..b] == Of(s, shard)
  {
    assert s == s[..a] + s[a..b] + s[b..];
    OfConcat(s[..a] + s[a..b], s[b..], shard);
    OfConcat(s[..a], s[a..b], shard);
    OfOther(s[..a], shard);
    OfAll(s[a..b], shard);
    OfOther(s[b..], shard);
  }

  /** What `sort` compares. */
  function Rank(a: Op): (nat, nat, nat) { (a.shard, a.hash, a.opType) }

  /** The operations of one rank in list order. */
  ghost function Ranked(s: seq<Op>, r: (nat, nat, nat)): seq<Op> {
    if s == [] then [] else Ranked(s[..|s| - 1], r) + if Rank(s[|s| - 1]) == r then [s[|s| - 1]] else []
  }

  lemma {:induction false} RankedConcat(a: seq<Op>, b: seq<Op>, r: (nat, nat, nat))
    ensures Ranked(a + b, r) == Ranked(a, r) + Ranked(b, r)
    decreases |b|
  {
    if b == [] {
      assert a + b == a;
    } else {
      assert (a + b)[..|a + b| - 1] == a + b[..|b| - 1];
      RankedConcat(a, b[..|b| - 1], r);
    }
  }

  lemma {:induction false} RankedNone(s: seq<Op>, r: (nat, nat, nat))
    requires forall i {:trigger s[i]} :: 0 <= i < |s| ==> Rank(s[i]) != r
    ensures Ranked(s, r) == []
  {
    if s != [] { RankedNone(s[..|s| - 1], r); }
  }

  /** Operations that compare as equal are in the same order in both lists. */
  ghost predicate SameOrder(a: seq<Op>, b: seq<Op>) {
    forall r {:trigger Ranked(a, r)} {:trigger Ranked(b, r)} :: Ranked(a, r) == Ranked(b, r)
  }

  /** Inserting behind everything that is not larger. */
  lemma InsertStable(s: seq<Op>, x: Op, i: nat)
    requires i <= |s| && forall j {:trigger s[j]} :: i <= j < |s| ==> !Le(s[j], x)
    ensures SameOrder(s[..i] + [x] + s[i..], s + [x])
  {
    var (a, b) := (s[..i], s[i..]);
    assert s == a + b;
    forall r ensures Ranked(a + [x] + b, r) == Ranked(a + b + [x], r) { RankedPast(a, b, x, r); }
  }

  lemma RankedPast(a: seq<Op>, b: seq<Op>, x: Op, r: (nat, nat, nat))
    requires forall j {:trigger b[j]} :: 0 <= j < |b| ==> Rank(b[j]) != Rank(x)
    ensures Ranked(a + [x] + b, r) == Ranked(a + b + [x], r)
  {
    RankedConcat(a + [x], b, r);
    RankedConcat(a, [x], r);
    RankedConcat(a + b, [x], r);
    RankedConcat(a, b, r);
    if r == Rank(x) { RankedNone(b, r); } else { RankedNone([x], r); }
  }

  method Insert(s: seq<Op>, x: Op) returns (r: seq<Op>)
    requires Sorted(s)
    ensures Sorted(r) && multiset(r) == multiset(s) + multiset{x} && SameOrder(r, s + [x])
  {
    var i := |s|;
    while i > 0 && !Le(s[i - 1], x)
      invariant 0 <= i <= |s| && forall j {:trigger s[j]} :: i <= j < |s| ==> !Le(s[j], x)
    {
      i := i - 1;
    }
    InsertSorted(s, x, i);
    InsertStable(s, x, i);
    r := s[..i] + [x] + s[i..];
  }

  lemma InsertSorted(s: seq<Op>, x: Op, i: nat)
    requires Sorted(s) && i <= |s| && (i > 0 ==> Le(s[i - 1], x))
    requires forall j {:trigger s[j]} :: i <= j < |s| ==> !Le(s[j], x)
    ensures Sorted(s[..i] + [x] + s[i..]) && multiset(s[..i] + [x] + s[i..]) == multiset(s) + multiset{x}
  {
    assert s == s[..i] + s[i..];
    var r := s[..i] + [x] + s[i..];
    forall p, q | 0 <= p < q < |r| ensures Le(r[p], r[q]) { InsertedPair(s, x, i, r, p, q); }
  }

  lemma InsertedPair(s: seq<Op>, x: Op, i: nat, r: seq<Op>, p: nat, q: nat)
    requires Sorted(s) && i <= |s| && (i > 0 ==> Le(s[i - 1], x))
    requires forall j {:trigger s[j]} :: i <= j < |s| ==> !Le(s[j], x)
    requires r == s[..i] + [x] + s[i..] && p < q < |r|
    ensures Le(r[p], r[q])
  {
    assert r[p] == if p < i then s[p] else if p == i then x else s[p - 1];
    assert r[q] == if q < i then s[q] else if q == i then x else s[q - 1];
    assert p < i - 1 ==> Le(s[p], s[i - 1]);
  }

  class ChangeSet {
    const shards: nat
    var ops: seq<Op>
    var starts: seq<Option<nat>>
    var counts: seq<nat>

    ghost predicate Shaped()
      reads this
    {
      |starts| == |counts| == shards && forall i {:trigger ops[i]} :: 0 <= i < |ops| ==> ops[i].shard < shards
    }

    /** Never sorted. */
    ghost predicate Unsorted()
      reads this
    {
      && Shaped()
      && forall s {:trigger starts[s]} {:trigger counts[s]} :: 0 <= s < shards ==> starts[s] == None && counts[s] == 0
    }

    /** Sorted at least once: no counter is below the number of operations. */
    ghost predicate Counted()
      reads this
    {
      Shaped() && forall s {:trigger counts[s]} :: 0 <= s < shards ==> NumIn(ops, s) <= counts[s]
    }

    /** The table says where each shard's operations start and how many there are. */
    ghost predicate Ready()
      reads this
    {
      && Shaped() && Sorted(ops)
      && forall s {:trigger starts[s]} {:trigger counts[s]} :: 0 <= s < shards ==> TableOk(ops, s, starts[s], counts[s])
    }

    constructor (shards: nat)
      ensures Unsorted() && ops == [] && this.shards == shards
    {
      this.shards := shards;
      ops, starts, counts := [], seq(shards, i => None), seq(shards, i => 0);
    }

    /** `add_op` */
    method AddOp(op: Op)
      requires Shaped() && op.shard < shards
      modifies this`ops
      ensures Shaped() && ops == old(ops) + [op] && (old(Unsorted()) ==> Unsorted())
    {
      ops := ops + [op];
    }

    /** `sort`: the same operations in order, and the table of shards. Counters are added to and
        starts are kept, so the table is right after the first call, and counts double after a
        second one. */
    method Sort()
      requires Shaped()
      modifies this
      ensures Shaped() && Sorted(ops) && multiset(ops) == old(multiset(ops)) && SameOrder(ops, old(ops))
      ensures Ascending(ops)
      ensures forall s {:trigger counts[s]} :: 0 <= s < shards ==> counts[s] == old(counts)[s] + NumIn(ops, s)
      ensures forall s {:trigger starts[s]} :: 0 <= s < shards ==> starts[s] == OrElse(old(starts)[s], First(ops, s))
      ensures old(Unsorted()) ==> Ready()
    {
      var sorted: seq<Op> := [];
      for i := 0 to |ops|
        invariant ops == old(ops) && starts == old(starts) && counts == old(counts)
        invariant Sorted(sorted) && multiset(sorted) == multiset(ops[..i]) && SameOrder(sorted, ops[..i])
      {
        assert ops[..i + 1] == ops[..i] + [ops[i]];
        OneMore(sorted, ops[..i], ops[i]);
        sorted := Insert(sorted, ops[i]);
      }
      assert ops[..|ops|] == ops;
      SameElements(ops, sorted, shards);
      SortedAscends(sorted);
      ops := sorted;
      FillTable();
      if old(Unsorted()) {
        forall s | 0 <= s < shards ensures TableOk(ops, s, starts[s], counts[s]) {
          assert old(starts)[s] == None && old(counts)[s] == 0;
          FirstOk(ops, s);
        }
      }
    }

    /** Count the operations of every shard and note where they start. */
    method FillTable()
      requires Shaped()
      modifies this`starts, this`counts
      ensures Shaped()
      ensures forall s {:trigger counts[s]} :: 0 <= s < shards ==> counts[s] == old(counts)[s] + NumIn(ops, s)
      ensures forall s {:trigger starts[s]} :: 0 <= s < shards ==> starts[s] == OrElse(old(starts)[s], First(ops, s))
    {
      assert ops[..0] == [] && forall s: nat :: NumIn(ops[..0], s) == 0 && First(ops[..0], s) == None;
      for idx := 0 to |ops|
        invariant Shaped()
        invariant forall s {:trigger counts[s]} ::
                    0 <= s < shards ==> counts[s] == old(counts)[s] + NumIn(ops[..idx], s)
        invariant forall s {:trigger starts[s]} ::
                    0 <= s < shards ==> starts[s] == OrElse(old(starts)[s], First(ops[..idx], s))
      {
        var shard := ops[idx].shard;
        forall s: nat ensures NumIn(ops[..idx + 1], s) == NumIn(ops[..idx], s) + if s == shard then 1 else 0
                      ensures First(ops[..idx + 1], s) ==
                          OrElse(First(ops[..idx], s), if s == shard then Some(idx) else None) {
          TableStep(ops, idx, s);
        }
        counts := counts[shard := counts[shard] + 1];
        if starts[shard] == None { starts := starts[shard := Some(idx)]; }
      }
      assert ops[..|ops|] == ops;
    }

    /** `op_count_in_shard`: once sorted, as many as `run_in_shard` will deliver. */
    method OpCountInShard(shard: nat) returns (n: nat)
      requires Shaped() && shard < shards
      ensures n == counts[shard] && (Ready() ==> n == |Of(ops, shard)|)
    {
      NumIsLength(ops, shard);
      assert Ready() ==> TableOk(ops, shard, starts[shard], counts[shard]);
      n := counts[shard];
    }

    /** `run_in_shard`: exactly the shard's operations, in order. */
    method RunInShard(shard: nat) returns (r: seq<Op>)
      requires Ready() && shard < shards
      ensures r == Of(ops, shard)
    {
      assert TableOk(ops, shard, starts[shard], counts[shard]);
      if starts[shard] == None {
        OfOther(ops, shard);
        return [];
      }
      var idx := starts[shard].value;
      r := [];
      while idx < |ops| && ops[idx].shard == shard
        invariant starts[shard].value <= idx <= |ops| && r == ops[starts[shard].value..idx]
        invariant forall j {:trigger ops[j]} :: starts[shard].value <= j < idx ==> ops[j].shard == shard
      {
        r := r + [ops[idx]];
        idx := idx + 1;
      }
      assert idx < |ops| ==> ops[starts[shard].value].shard <= ops[idx].shard;
      RangeIsOf(ops, shard, starts[shard].value, idx);
    }
  }

  lemma OneMore(a: seq<Op>, b: seq<Op>, x: Op)
    requires SameOrder(a, b)
    ensures SameOrder(a + [x], b + [x])
  {
    forall r ensures Ranked(a + [x], r) == Ranked(b + [x], r) {
      RankedConcat(a, [x], r);
      RankedConcat(b, [x], r);
    }
  }

  /** The entry of a shard: nothing if it has no operations, else the index of the first one. */
  ghost predicate TableOk(s: seq<Op>, shard: nat, start: Option<nat>, n: nat) {
    && n == NumIn(s, shard)
    && match start
       case None => forall i {:trigger s[i]} :: 0 <= i < |s| ==> s[i].shard != shard
       case Some(a) => a < |s| && s[a].shard == shard && forall i {:trigger s[i]} :: 0 <= i < a ==> s[i].shard != shard
  }

  function OrElse(a: Option<nat>, b: Option<nat>): Option<nat> { if a.Some? then a else b }

  /** The index of the first operation of the shard. */
  ghost function First(s: seq<Op>, shard: nat): Option<nat> {
    if s == [] then None
        else OrElse(First(s[..|s| - 1], shard), if s[|s| - 1].shard == shard then Some(|s| - 1) else None)
  }

  lemma {:induction false} FirstOk(s: seq<Op>, shard: nat)
    ensures TableOk(s, shard, First(s, shard), NumIn(s, shard))
  {
    if s != [] {
      FirstOk(s[..|s| - 1], shard);
      assert forall i {:trigger s[i]} :: 0 <= i < |s| - 1 ==> s[i] == s[..|s| - 1][i];
    }
  }

  lemma TableStep(ops: seq<Op>, idx: nat, s: nat)
    requires idx < |ops|
    ensures NumIn(ops[..idx + 1], s) == NumIn(ops[..idx], s) + if s == ops[idx].shard then 1 else 0
    ensures First(ops[..idx + 1], s) == OrElse(First(ops[..idx], s), if s == ops[idx].shard then Some(idx) else None)
  {
    assert ops[..idx + 1][..idx] == ops[..idx];
  }

  lemma WithoutOne(a: seq<Op>, x: Op, l: seq<Op>, r: seq<Op>)
    requires multiset(a + [x]) == multiset(l + [x] + r)
    ensures multiset(a) == multiset(l + r)
  {
    assert multiset(a + [x]) == multiset(a) + multiset{x};
    assert multiset(l + [x] + r) == multiset(l + r) + multiset{x};
    assert multiset(a) == multiset(a + [x]) - multiset{x};
  }

  lemma NumWithout(l: seq<Op>, x: Op, r: seq<Op>, shard: nat)
    ensures NumIn(l + [x] + r, shard) == NumIn(l + r, shard) + if x.shard == shard then 1 else 0
  {
    NumConcat(l + [x], r, shard);
    NumConcat(l, r, shard);
    assert (l + [x])[..|l|] == l;
  }

  /** Reordering does not change how many operations a shard has. */
  lemma {:induction false} SameNumber(a: seq<Op>, b: seq<Op>, shard: nat)
    requires multiset(a) == multiset(b)
    ensures NumIn(a, shard) == NumIn(b, shard)
    decreases |a|
  {
    if a == [] {
      assert |multiset(b)| == 0;
    } else {
      var (rest, x) := (a[..|a| - 1], a[|a| - 1]);
      assert x in multiset(b);
      var i :| 0 <= i < |b| && b[i] == x;
      assert b == b[..i] + [x] + b[i + 1..] && a == rest + [x];
      WithoutOne(rest, x, b[..i], b[i + 1..]);
      SameNumber(rest, b[..i] + b[i + 1..], shard);
      NumWithout(b[..i], x, b[i + 1..], shard);
    }
  }

  lemma NumConcat(a: seq<Op>, b: seq<Op>, shard: nat)
    ensures NumIn(a + b, shard) == NumIn(a, shard) + NumIn(b, shard)
  {
    OfConcat(a, b, shard);
    NumIsLength(a, shard);
    NumIsLength(b, shard);
    NumIsLength(a + b, shard);
  }

  lemma SameElements(a: seq<Op>, b: seq<Op>, shards: nat)
    requires multiset(a) == multiset(b) && forall i {:trigger a[i]} :: 0 <= i < |a| ==> a[i].shard < shards
    ensures forall i {:trigger b[i]} :: 0 <= i < |b| ==> b[i].shard < shards
  {
    forall i | 0 <= i < |b| ensures b[i].shard < shards {
      assert b[i] in multiset(b);
      assert b[i] in a;
    }
  }
}
