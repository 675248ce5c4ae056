/** What every entry of the log says about the entries it replaces. */
module ShardLineage {
  import opened Basics
  import opened ShardLog
  import opened ShardProofs
  import opened ShardRuns

  /** Entry i replaces the last number that it lists, which had the same key. If it lists two, the first is
      the deleted entry that came next, whose link it takes over. If it lists none, its key is new, and the
      next entry is the relinked entry before it. */
  ghost predicate Replaces(log: seq<Rec>, i: nat)
    requires i < |log|
  {
    var (e, d) := (log[i].e, log[i].e.dsns);
    && |d| <= 2
    && (d == [] ==> i + 1 < |log| && log[i + 1].e.next == e.key.hash && |log[i + 1].e.dsns| == 1)
    && (d != [] ==> d[|d| - 1] < i && log[d[|d| - 1]].e.key == e.key)
    && (|d| == 2 ==> d[0] < i && log[d[1]].e.next == log[d[0]].e.key.hash && e.next == log[d[0]].e.next
                     && e.value == log[d[1]].e.value)
  }

  /** So it is for all entries after the sentries. */
  ghost predicate Lineage(log: seq<Rec>, sentries: nat) {
    forall i {:trigger Replaces(log, i)} :: sentries <= i < |log| ==> Replaces(log, i)
  }

  lemma OlderKept(log: seq<Rec>, log': seq<Rec>, i: nat)
    requires i < |log| <= |log'| && log <= log' && Replaces(log, i)
    ensures Replaces(log', i)
  {
  }

  lemma Extends(log: seq<Rec>, log': seq<Rec>, sentries: nat)
    requires log <= log' && Lineage(log, sentries)
    requires forall i {:trigger Replaces(log', i)} :: |log| <= i < |log'| ==> Replaces(log', i)
    ensures Lineage(log', sentries)
  {
    forall i | sentries <= i < |log'| ensures Replaces(log', i) {
      if i < |log| { OlderKept(log, log', i); }
    }
  }

  lemma RewriteLineage(s: State, rg: Range, i: nat, value: seq<nat>, version: int, sentries: nat)
    requires LogInv(s, rg) && i < |s.log| && Lineage(s.log, sentries)
    ensures Lineage(Rewrite(s, i, value, version).log, sentries)
  {
    var log' := Rewrite(s, i, value, version).log;
    assert log'[|s.log|].e.dsns == [i];
    Extends(s.log, log', sentries);
  }

  lemma CreateLineage(s: State, rg: Range, p: nat, key: Key, value: seq<nat>, version: int, sentries: nat)
    requires LogInv(s, rg) && p < |s.log| && Lineage(s.log, sentries)
    ensures Lineage(CreateAt(s, p, key, value, version).log, sentries)
  {
    var (n, log') := (|s.log|, CreateAt(s, p, key, value, version).log);
    assert log'[..n] == s.log && log'[n].e.dsns == [] && log'[n + 1].e.dsns == [p];
    assert Replaces(log', n) && Replaces(log', n + 1);
    Extends(s.log, log', sentries);
  }

  lemma DeleteLineage(s: State, rg: Range, d: nat, p: nat, version: int, sentries: nat)
    requires LogInv(s, rg) && d < |s.log| && p < |s.log| && s.log[p].e.next == s.log[d].e.key.hash
    requires Lineage(s.log, sentries)
    ensures Lineage(DeleteAt(s, d, p, version).log, sentries)
  {
    var (n, log') := (|s.log|, DeleteAt(s, d, p, version).log);
    assert log'[n].e.dsns == [d, p];
    assert Replaces(log', n);
    Extends(s.log, log', sentries);
  }

  lemma ConsumeLineage(s: State, rg: Range, sentries: nat)
    requires Inv(s, rg) && Lineage(s.log, sentries)
    ensures Lineage(Consume(s).log, sentries)
  {
    if s.queue != [] && JobLive(s, s.queue[0]) {
      var (n, log') := (|s.log|, Consume(s).log);
      assert log'[n].e.dsns == [s.queue[0].e.sn];
      assert Replaces(log', n);
      Extends(s.log, log', sentries);
    }
  }

  lemma StepLineage(s: State, rg: Range, step: Step, t: State, sentries: nat)
    requires Inv(s, rg) && Next(s, step) == Some(t) && Lineage(s.log, sentries)
    ensures Lineage(t.log, sentries)
  {
    match step
    case DoWrite(key, value, version) =>
      var i: nat :| IsTarget(s, key, i) && t == Rewrite(s, i, value, version);
      RewriteLineage(s, rg, i, value, version, sentries);
    case DoCreate(key, value, version) =>
      var p: nat :| IsGap(s, key.hash, p) && t == CreateAt(s, p, key, value, version);
      CreateLineage(s, rg, p, key, value, version, sentries);
    case DoDelete(key, version) =>
      var d: nat, p: nat :| IsVictim(s, key, d) && IsPrev(s, key, p) && t == DeleteAt(s, d, p, version);
      DeleteLineage(s, rg, d, p, version, sentries);
    case DoConsume => ConsumeLineage(s, rg, sentries);
    case DoLook =>
    case DoProduce =>
  }

  lemma {:induction false} RunLineage(s: State, rg: Range, m: Store, steps: seq<Step>, sentries: nat)
    requires Inv(s, rg) && Holds(s.log, Act(s.log), m) && Lineage(s.log, sentries) && Run(s, steps).Some?
    ensures Lineage(Run(s, steps).value.log, sentries)
    decreases |steps|
  {
    if steps != [] {
      EveryStepRefines(s, rg, m, steps[0]);
      var t := Next(s, steps[0]).value;
      StepLineage(s, rg, steps[0], t, sentries);
      RunLineage(t, rg, SpecNext(rg, m, steps[0]).value, steps[1..], sentries);
    }
  }

  /** Every entry in every reachable log. */
  lemma ReachableLineage(rg: Range, steps: seq<Step>)
    requires rg.lo < rg.hi && Less(SentryHash(rg.hi - 1), rg.end) && Run(Genesis(rg), steps).Some?
    ensures Lineage(Run(Genesis(rg), steps).value.log, rg.hi - rg.lo)
  {
    GenesisInv(rg);
    RunLineage(Genesis(rg), rg, Sentries(rg), steps, rg.hi - rg.lo);
  }
}
