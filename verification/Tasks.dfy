/** From change sets to the updater: prefetching every operation of a task, telling each shard once
    when its operations are ready, and running the tasks of a shard in order. */
module Tasks {
  import opened Basics
  import ChangeSets

  // ---------------------------------------------------------------- counting down

  ghost function Count(ops: seq<nat>, shard: nat): nat {
    if ops == [] then 0 else Count(ops[..|ops| - 1], shard) + if ops[|ops| - 1] == shard then 1 else 0
  }

  /** The operations of a shard that change set i still has to prefetch. */
  ghost function Left(sets: seq<seq<nat>>, progress: seq<nat>, shard: nat, i: nat): nat
    requires |progress| == |sets| && i < |sets| && progress[i] <= |sets[i]|
  {
    Count(sets[i][progress[i]..], shard)
  }

  ghost predicate InBounds(sets: seq<seq<nat>>, progress: seq<nat>) {
    |progress| == |sets| && forall i :: 0 <= i < |sets| ==> progress[i] <= |sets[i]|
  }

  /** The same over the first n change sets. */
  ghost function LeftIn(sets: seq<seq<nat>>, progress: seq<nat>, shard: nat, n: nat): nat
    requires InBounds(sets, progress) && n <= |sets|
  {
    if n == 0 then 0 else LeftIn(sets, progress, shard, n - 1) + Left(sets, progress, shard, n - 1)
  }

  lemma {:induction false} CountFirst(ops: seq<nat>, shard: nat)
    requires ops != []
    ensures Count(ops, shard) == Count(ops[1..], shard) + if ops[0] == shard then 1 else 0
  {
    if |ops| == 1 {
      assert ops[1..] == [] && ops[..0] == [];
    } else {
      CountFirst(ops[..|ops| - 1], shard);
      assert ops[..|ops| - 1][1..] == ops[1..][..|ops| - 2];
    }
  }

  /** Finishing one operation of change set i. */
  lemma {:induction false} LeftStep(sets: seq<seq<nat>>, progress: seq<nat>, i: nat, shard: nat, n: nat)
    requires InBounds(sets, progress) && i < |sets| && progress[i] < |sets[i]| && n <= |sets|
    ensures InBounds(sets, progress[i := progress[i] + 1])
    ensures LeftIn(sets, progress, shard, n)
            == LeftIn(sets, progress[i := progress[i] + 1], shard, n) + if i < n
                && sets[i][progress[i]] == shard then 1 else 0
  {
    if n > 0 {
      LeftStep(sets, progress, i, shard, n - 1);
      if i == n - 1 {
        var rest := sets[i][progress[i]..];
        CountFirst(rest, shard);
        assert rest[1..] == sets[i][progress[i] + 1..];
      }
    }
  }

  lemma {:induction false} NothingLeft(sets: seq<seq<nat>>, progress: seq<nat>, shard: nat, n: nat)
    requires InBounds(sets, progress) && n <= |sets| && forall i :: 0 <= i < n ==> progress[i] == |sets[i]|
    ensures LeftIn(sets, progress, shard, n) == 0
  {
    if n > 0 {
      NothingLeft(sets, progress, shard, n - 1);
      assert sets[n - 1][|sets[n - 1]|..] == [];
    }
  }

  /** No operation of the shard is left in change set i. */
  lemma {:induction false} AllPrefetched(sets: seq<seq<nat>>, progress: seq<nat>, shard: nat, n: nat, i: nat, j: nat)
    requires InBounds(sets, progress) && n <= |sets| && LeftIn(sets, progress, shard, n) == 0
    requires i < n && progress[i] <= j < |sets[i]|
    ensures sets[i][j] != shard
  {
    if i < n - 1 {
      AllPrefetched(sets, progress, shard, n - 1, i, j);
    } else {
      var rest := sets[i][progress[i]..];
      NoneCounted(rest, shard, j - progress[i]);
    }
  }

  lemma {:induction false} NoneCounted(ops: seq<nat>, shard: nat, j: nat)
    requires Count(ops, shard) == 0 && j < |ops|
    ensures ops[j] != shard
    decreases |ops|
  {
    if j < |ops| - 1 { NoneCounted(ops[..|ops| - 1], shard, j); }
  }

  /** The shards of the operations of a change set. */
  function ShardsOf(ops: seq<ChangeSets.Op>): (r: seq<nat>)
    ensures |r| == |ops| && forall i :: 0 <= i < |ops| ==> r[i] == ops[i].shard
  {
    seq(|ops|, i requires 0 <= i < |ops| => ops[i].shard)
  }

  lemma {:induction false} CountIsNum(ops: seq<ChangeSets.Op>, shard: nat)
    ensures Count(ShardsOf(ops), shard) == ChangeSets.NumIn(ops, shard)
  {
    if ops != [] {
      CountIsNum(ops[..|ops| - 1], shard);
      assert ShardsOf(ops)[..|ops| - 1] == ShardsOf(ops[..|ops| - 1]);
    }
  }

  /** What the tables of the first n change sets add up to for a shard. */
  ghost function Tabled(tables: seq<seq<nat>>, shard: nat, n: nat): nat
    requires n <= |tables| && forall i :: 0 <= i < |tables| ==> shard < |tables[i]|
  {
    if n == 0 then 0 else Tabled(tables, shard, n - 1) + tables[n - 1][shard]
  }

  /** One task in the prefetcher: the change sets as the shards of their operations in order, how
      far each worker is, the shared counters, and how many done messages each shard got. */
  class Prefetch {
    const sets: seq<seq<nat>>
    const shards: nat
    var progress: seq<nat>
    var counts: seq<nat>
    var sent: seq<nat>
    /** by how much the counters exceed the operations */
    ghost const surplus: seq<nat>

    ghost function LeftFor(s: nat): nat
      requires InBounds(sets, progress)
      reads this`progress
    {
      LeftIn(sets, progress, s, |sets|)
    }

    /** At every moment: the counter is what is left, and its surplus, and one message was sent exactly
        when it is zero. */
    ghost predicate Valid()
      reads this
    {
      && InBounds(sets, progress) && |counts| == |sent| == |surplus| == shards
      && (forall i, j :: 0 <= i < |sets| && 0 <= j < |sets[i]| ==> sets[i][j] < shards)
      && forall s ::
           0 <= s < shards ==> counts[s] == LeftFor(s) + surplus[s] && sent[s] == if counts[s] == 0 then 1 else 0
    }

    /** `run_task` up to spawning: add up the counters that the change sets have for every shard; a shard
        without any operation is told at once. */
    constructor (sets: seq<seq<nat>>, tables: seq<seq<nat>>, shards: nat)
      requires |tables| == |sets| && forall i :: 0 <= i < |sets| ==> |tables[i]| == shards
      requires forall i, j :: 0 <= i < |sets| && 0 <= j < |sets[i]| ==> sets[i][j] < shards
      requires forall i, s :: 0 <= i < |sets| && 0 <= s < shards ==> Count(sets[i], s) <= tables[i][s]
      ensures Valid() && this.sets == sets && this.shards == shards && progress == seq(|sets|, i => 0)
      ensures forall s :: 0 <= s < shards ==> counts[s] == Tabled(tables, s, |tables|)
    {
      this.sets, this.shards := sets, shards;
      progress := seq(|sets|, i => 0);
      counts, sent := [], [];
      surplus := Surplus(sets, tables, shards);
      new;
      for s := 0 to shards
        invariant progress == seq(|sets|, i => 0) && |counts| == |sent| == s
        invariant forall t :: 0 <= t < s ==> counts[t] == Tabled(tables, t, |tables|)
        invariant forall t :: 0 <= t < s ==> sent[t] == if counts[t] == 0 then 1 else 0
      {
        var n := 0;
        for i := 0 to |sets|
          invariant n == Tabled(tables, s, i)
        {
          n := n + tables[i][s];
        }
        counts := counts + [n];
        sent := sent + [if n == 0 then 1 else 0];
      }
      forall s | 0 <= s < shards ensures counts[s] == LeftFor(s) + surplus[s] {
        AllLeft(sets, progress, s, |sets|, tables);
      }
    }

    /** `run_task` on change sets that were sorted at least once. If each was sorted just once, no shard
        has a surplus. */
    static method RunTask(css: seq<ChangeSets.ChangeSet>, shards: nat) returns (p: Prefetch)
      requires forall i :: 0 <= i < |css| ==> css[i].shards == shards && css[i].Counted()
      ensures p.Valid() && fresh(p) && p.shards == shards && |p.sets| == |css|
      ensures forall i :: 0 <= i < |css| ==> p.sets[i] == ShardsOf(css[i].ops)
      ensures forall s {:trigger p.surplus[s]} :: 0 <= s < shards ==> (p.surplus[s] == 0 <==> CountersExact(css, s))
    {
      var sets, tables := [], [];
      for i := 0 to |css|
        invariant |sets| == |tables| == i
        invariant forall j :: 0 <= j < i ==> sets[j] == ShardsOf(css[j].ops) && tables[j] == css[j].counts
      {
        var table := TableOf(css[i]);
        sets, tables := sets + [ShardsOf(css[i].ops)], tables + [table];
      }
      forall i, s | 0 <= i < |sets| && 0 <= s < shards
        ensures Count(sets[i], s) == ChangeSets.NumIn(css[i].ops, s) && Count(sets[i], s) <= tables[i][s]
      {
        assert css[i].Counted() && css[i].counts[s] == tables[i][s];
        CountIsNum(css[i].ops, s);
      }
      forall i, j | 0 <= i < |sets| && 0 <= j < |sets[i]| ensures sets[i][j] < shards {
        assert css[i].Shaped() && css[i].ops[j].shard < shards;
      }
      p := new Prefetch(sets, tables, shards);
      forall s | 0 <= s < shards ensures p.surplus[s] == 0 <==> CountersExact(css, s) {
        AllLeft(sets, p.progress, s, |sets|, tables);
        SurplusZero(sets, tables, s, |sets|);
        assert forall i ::
            0 <= i < |css| ==> Count(sets[i], s) == ChangeSets.NumIn(css[i].ops, s) && css[i].counts[s] == tables[i][s];
      }
    }

    /** The counters of a change set, shard by shard. */
    static method TableOf(c: ChangeSets.ChangeSet) returns (table: seq<nat>)
      requires c.Shaped()
      ensures table == c.counts
    {
      table := [];
      for s := 0 to c.shards
        invariant table == c.counts[..s]
      {
        var n := c.OpCountInShard(s);
        table := table + [n];
      }
    }

    /** A worker finishes prefetching the next operation of change set i: it counts down, and the
        one that reaches zero tells the shard. Workers may interleave in any way. */
    method FinishOp(i: nat) returns (told: Option<nat>)
      requires Valid() && i < |sets| && progress[i] < |sets[i]|
      modifies this
      ensures Valid() && progress == old(progress)[i := old(progress[i]) + 1]
      ensures told.Some? ==> told.value == sets[i][old(progress[i])] && old(sent)[told.value] == 0
      ensures sent == if told.Some? then old(sent)[told.value := 1] else old(sent)
    {
      var shard := sets[i][progress[i]];
      forall s | 0 <= s < shards
        ensures LeftFor(s) == LeftIn(sets, progress[i := progress[i] + 1], s, |sets|) + if shard == s then 1 else 0
      {
        LeftStep(sets, progress, i, s, |sets|);
      }
      LeftStep(sets, progress, i, shard, |sets|);
      var was := counts[shard];
      progress := progress[i := progress[i] + 1];
      counts := counts[shard := was - 1];
      told := None;
      if was == 1 {
        told := Some(shard);
        sent := sent[shard := sent[shard] + 1];
      }
    }

    /** When a shard was told, all its operations are prefetched. */
    lemma ToldMeansReady(s: nat, i: nat, j: nat)
      requires Valid() && s < shards && sent[s] > 0 && i < |sets| && j < |sets[i]| && sets[i][j] == s
      ensures j < progress[i]
    {
      if progress[i] <= j { AllPrefetched(sets, progress, s, |sets|, i, j); }
    }

    /** When all workers are done, a shard was told once, or never if its counter had a surplus. */
    lemma AllTold(s: nat)
      requires Valid() && s < shards && forall i :: 0 <= i < |sets| ==> progress[i] == |sets[i]|
      ensures sent[s] == if surplus[s] == 0 then 1 else 0
    {
      NothingLeft(sets, progress, s, |sets|);
    }
  }

  /** The counters of the shard are the numbers of its operations. */
  ghost predicate CountersExact(css: seq<ChangeSets.ChangeSet>, s: nat)
    reads css
  {
    forall i :: 0 <= i < |css| ==> s < |css[i].counts| && css[i].counts[s] == ChangeSets.NumIn(css[i].ops, s)
  }

  /** By how much the tables exceed the operations. */
  ghost function Surplus(sets: seq<seq<nat>>, tables: seq<seq<nat>>, shards: nat): (r: seq<nat>)
    requires |tables| == |sets| && forall i :: 0 <= i < |sets| ==> |tables[i]| == shards
    requires forall i, s :: 0 <= i < |sets| && 0 <= s < shards ==> Count(sets[i], s) <= tables[i][s]
    ensures |r| == shards && forall s :: 0 <= s < shards ==> r[s] == Excess(sets, tables, s, |sets|)
  {
    seq(shards, s requires 0 <= s < shards => Excess(sets, tables, s, |sets|))
  }

  ghost function Excess(sets: seq<seq<nat>>, tables: seq<seq<nat>>, s: nat, n: nat): nat
    requires |tables| == |sets| && n <= |sets|
    requires forall i :: 0 <= i < |sets| ==> s < |tables[i]| && Count(sets[i], s) <= tables[i][s]
  {
    if n == 0 then 0 else Excess(sets, tables, s, n - 1) + (tables[n - 1][s] - Count(sets[n - 1], s))
  }

  lemma {:induction false} SurplusZero(sets: seq<seq<nat>>, tables: seq<seq<nat>>, s: nat, n: nat)
    requires |tables| == |sets| && n <= |sets|
    requires forall i :: 0 <= i < |sets| ==> s < |tables[i]| && Count(sets[i], s) <= tables[i][s]
    ensures Excess(sets, tables, s, n) == 0 <==> forall i :: 0 <= i < n ==> tables[i][s] == Count(sets[i], s)
  {
    if n > 0 { SurplusZero(sets, tables, s, n - 1); }
  }

  /** At the start everything is left. */
  lemma {:induction false} AllLeft(sets: seq<seq<nat>>, progress: seq<nat>, s: nat, n: nat, tables: seq<seq<nat>>)
    requires InBounds(sets, progress) && n <= |sets| == |tables| && forall i :: 0 <= i < |sets| ==> progress[i] == 0
    requires forall i :: 0 <= i < |sets| ==> s < |tables[i]| && Count(sets[i], s) <= tables[i][s]
    ensures Tabled(tables, s, n) == LeftIn(sets, progress, s, n) + Excess(sets, tables, s, n)
  {
    if n > 0 {
      AllLeft(sets, progress, s, n - 1, tables);
      assert sets[n - 1][0..] == sets[n - 1];
    }
  }

  /** What a second `sort` does: counters double, so a shard that has operations is never told. */
  method SortedTwice(c: ChangeSets.ChangeSet, shard: nat) returns (p: Prefetch)
    requires c.Unsorted() && shard < c.shards
    modifies c
    ensures p.Valid() && p.shards == c.shards && (p.surplus[shard] == 0 <==> ChangeSets.NumIn(c.ops, shard) == 0)
  {
    c.Sort();
    ghost var once := c.ops;
    c.Sort();
    forall s | 0 <= s < c.shards ensures c.counts[s] == 2 * ChangeSets.NumIn(c.ops, s) {
      ChangeSets.SameNumber(once, c.ops, s);
    }
    p := Prefetch.RunTask([c], c.shards);
    assert [c][0] == c;
    assert CountersExact([c], shard) <==> c.counts[shard] == ChangeSets.NumIn(c.ops, shard);
  }

  // ---------------------------------------------------------------- running in order

  /** The id that follows a task id: the next index in the block, or the next block's first. */
  function NextId(taskId: nat, endBlock: bool): nat {
    if endBlock then (taskId / 0x100_0000 + 1) * 0x100_0000 else taskId + 1
  }

  /** The tasks in the order they have to run. */
  datatype Chain = Chain(first: nat, ends: nat -> bool)

  ghost function Id(c: Chain, i: nat): nat { if i == 0 then c.first else NextId(Id(c, i - 1), c.ends(Id(c, i - 1))) }

  lemma {:induction false} IdsIncrease(c: Chain, i: nat, j: nat)
    requires i < j
    ensures Id(c, i) < Id(c, j)
    decreases j
  {
    if i < j - 1 { IdsIncrease(c, i, j - 1); }
  }

  /** Blocks of one to 2^24 tasks, from height h0 on; the last task of each ends its block. */
  ghost predicate InBlocks(c: Chain, h0: nat, size: nat -> nat) {
    && c.first == h0 * 0x100_0000
    && (forall h: nat {:trigger size(h)} :: 0 < size(h) <= 0x100_0000)
    && forall h: nat, i: nat {:trigger EndsAt(c, size, h, i)} :: i < size(h) ==> EndsAt(c, size, h, i)
  }
  ghost predicate EndsAt(c: Chain, size: nat -> nat, h: nat, i: nat) {
    c.ends(h * 0x100_0000 + i) <==> i + 1 == size(h)
  }

  /** How many tasks the blocks before height h have. */
  ghost function TasksBefore(size: nat -> nat, h0: nat, h: nat): nat {
    if h <= h0 then 0 else TasksBefore(size, h0, h - 1) + size(h - 1)
  }

  /** Then the chain runs through the blocks in order, and an id is the height and the index in the block. */
  lemma {:induction false} IdInBlock(c: Chain, h0: nat, size: nat -> nat, h: nat, i: nat)
    requires InBlocks(c, h0, size) && h0 <= h && i < size(h)
    ensures Id(c, TasksBefore(size, h0, h) + i) == h * 0x100_0000 + i
    decreases h, i
  {
    if i > 0 {
      IdInBlock(c, h0, size, h, i - 1);
      assert EndsAt(c, size, h, i - 1);
    } else if h > h0 {
      var last := size(h - 1) - 1;
      IdInBlock(c, h0, size, h - 1, last);
      assert EndsAt(c, size, h - 1, last);
      NextHeight(h - 1, last);
    }
  }

  lemma NextHeight(h: nat, i: nat)
    requires i < 0x100_0000
    ensures NextId(h * 0x100_0000 + i, true) == (h + 1) * 0x100_0000
  {
  }

  lemma IdsDiffer(c: Chain, i: nat, j: nat)
    ensures Id(c, i) == Id(c, j) <==> i == j
  {
    if i < j { IdsIncrease(c, i, j); }
    if j < i { IdsIncrease(c, j, i); }
  }

  /** The tasks numbered below |ran| ran, in order and once each, after they arrived. */
  ghost predicate RanOk(c: Chain, ran: seq<nat>, arrived: set<nat>) {
    forall i: nat {:trigger RanAt(c, ran, arrived, i)} :: i < |ran| ==> RanAt(c, ran, arrived, i)
  }
  ghost predicate RanAt(c: Chain, ran: seq<nat>, arrived: set<nat>, i: nat) {
    i < |ran| && i in arrived && ran[i] == Id(c, i)
  }

  /** Every later task that arrived waits in the map with its successor, and nothing else does. */
  ghost predicate Holding(c: Chain, m: map<nat, nat>, e: nat, arrived: set<nat>) {
    && (forall i: nat {:trigger i in arrived} ::
      i in arrived && i >= e ==> Id(c, i) in m && m[Id(c, i)] == Id(c, i + 1))
    && forall t: nat {:trigger t in m} :: t in m ==> WaitsAs(c, e, arrived, t)
  }
  ghost predicate WaitsAs(c: Chain, e: nat, arrived: set<nat>, t: nat) {
    exists i: nat :: i in arrived && i >= e && t == Id(c, i)
  }

  lemma RanArrived(c: Chain, ran: seq<nat>, arrived: set<nat>, n: nat)
    requires RanOk(c, ran, arrived)
    ensures RanOk(c, ran, arrived + {n}) && (n !in arrived ==> n >= |ran|)
  {
    forall i: nat | i < |ran| ensures RanAt(c, ran, arrived + {n}, i) && i in arrived {
      assert RanAt(c, ran, arrived, i);
    }
  }

  lemma RanMore(c: Chain, ran: seq<nat>, arrived: set<nat>, longer: seq<nat>)
    requires RanOk(c, ran, arrived) && |ran| in arrived && longer == ran + [Id(c, |ran|)]
    ensures RanOk(c, longer, arrived)
  {
    forall i: nat | i < |longer| ensures RanAt(c, longer, arrived, i) {
      if i < |ran| { assert RanAt(c, ran, arrived, i); }
    }
  }

  lemma ArriveHolds(c: Chain, m: map<nat, nat>, e: nat, arrived: set<nat>, n: nat)
    requires Holding(c, m, e, arrived) && n !in arrived && n >= e
    ensures Holding(c, m[Id(c, n) := Id(c, n + 1)], e, arrived + {n})
  {
    var (m', all) := (m[Id(c, n) := Id(c, n + 1)], arrived + {n});
    forall i: nat | i in all && i >= e ensures Id(c, i) in m' && m'[Id(c, i)] == Id(c, i + 1) {
      IdsDiffer(c, i, n);
      assert i != n ==> i in arrived;
    }
    forall t: nat | t in m' ensures WaitsAs(c, e, all, t) {
      if t == Id(c, n) {
        assert n in all;
      } else {
        assert t in m && WaitsAs(c, e, arrived, t);
        var i: nat :| i in arrived && i >= e && t == Id(c, i);
        assert i in all;
      }
    }
  }

  /** A task that is due, if the map has it, is the next one of the chain. */
  lemma DueHolds(c: Chain, m: map<nat, nat>, e: nat, arrived: set<nat>)
    requires Holding(c, m, e, arrived)
    ensures Id(c, e) in m <==> e in arrived
    ensures e in arrived ==> m[Id(c, e)] == Id(c, e + 1) && Holding(c, m - {Id(c, e)}, e + 1, arrived)
  {
    if Id(c, e) in m {
      assert WaitsAs(c, e, arrived, Id(c, e));
      var i: nat :| i in arrived && i >= e && Id(c, e) == Id(c, i);
      IdsDiffer(c, i, e);
    }
    if e in arrived {
      var m' := m - {Id(c, e)};
      forall i: nat | i in arrived && i >= e + 1 ensures Id(c, i) in m' && m'[Id(c, i)] == Id(c, i + 1) {
        IdsDiffer(c, i, e);
      }
      forall t: nat | t in m' ensures WaitsAs(c, e + 1, arrived, t) {
        assert t in m && WaitsAs(c, e, arrived, t);
        var i: nat :| i in arrived && i >= e && t == Id(c, i);
        assert i != e;
      }
    }
  }

  /** The updater's side of a shard. Task number i of the chain is waiting, has run, or has not
      arrived. */
  class Sequencer {
    const chain: Chain
    var nextTaskIdMap: map<nat, nat>
    var nextTaskId: nat
    /** what ran so far */
    var ran: seq<nat>
    ghost var arrived: set<nat>

    ghost predicate Waits()
      reads this
    {
      nextTaskId == Id(chain, |ran|) && RanOk(chain, ran, arrived) && Holding(chain, nextTaskIdMap, |ran|, arrived)
    }

    /** Between calls, moreover, the next task to run has not arrived. */
    ghost predicate Valid()
      reads this
    {
      Waits() && |ran| !in arrived
    }

    constructor (chain: Chain)
      ensures Valid() && this.chain == chain && arrived == {} && ran == []
    {
      this.chain := chain;
      nextTaskIdMap, nextTaskId, ran := map[], chain.first, [];
      arrived := {};
    }

    /** `run_task_with_ooo_id` for task number n of the chain, which arrives for the first time:
        afterwards the tasks that ran are the longest beginning of the chain that has arrived. */
    method RunTaskWithOooId(taskId: nat, next: nat, ghost n: nat)
      requires Valid() && taskId == Id(chain, n) && next == Id(chain, n + 1) && n !in arrived
      modifies this
      ensures Valid() && arrived == old(arrived) + {n} && old(ran) <= ran
    {
      RanArrived(chain, ran, arrived, n);
      ArriveHolds(chain, nextTaskIdMap, |ran|, arrived, n);
      nextTaskIdMap := nextTaskIdMap[taskId := next];
      arrived := arrived + {n};
      var due := nextTaskId;
      while due in nextTaskIdMap
        invariant due == Id(chain, |ran|) && RanOk(chain, ran, arrived) && Holding(chain, nextTaskIdMap, |ran|, arrived)
        invariant old(ran) <= ran && arrived == old(arrived) + {n}
        decreases nextTaskIdMap.Keys
      {
        due := RunDue(due);
      }
      DueHolds(chain, nextTaskIdMap, |ran|, arrived);
      nextTaskId := due;
    }

    /** Run the due one and follow its link. */
    method RunDue(due: nat) returns (following: nat)
      requires due in nextTaskIdMap && due == Id(chain, |ran|) && RanOk(chain, ran, arrived)
      requires Holding(chain, nextTaskIdMap, |ran|, arrived)
      modifies this`nextTaskIdMap, this`ran
      ensures following == Id(chain, |ran|) && RanOk(chain, ran, arrived)
      ensures Holding(chain, nextTaskIdMap, |ran|, arrived)
      ensures ran == old(ran) + [due] && nextTaskIdMap.Keys == old(nextTaskIdMap.Keys) - {due}
    {
      DueHolds(chain, nextTaskIdMap, |ran|, arrived);
      RanMore(chain, ran, arrived, ran + [due]);
      following := nextTaskIdMap[due];
      nextTaskIdMap := nextTaskIdMap - {due};
      ran := ran + [due];
    }
  }

  /** Whatever the order of arrival, once a beginning of the chain has arrived it has run, in
      order and each task once. */
  lemma EverythingRuns(s: Sequencer, count: nat)
    requires s.Valid() && forall i :: 0 <= i < count ==> i in s.arrived
    ensures count <= |s.ran| && forall i :: 0 <= i < count ==> s.ran[i] == Id(s.chain, i)
  {
    var e := |s.ran|;
    assert e !in s.arrived;
    forall i: nat | i < count ensures count <= e && s.ran[i] == Id(s.chain, i) {
      assert RanAt(s.chain, s.ran, s.arrived, i);
    }
  }
}