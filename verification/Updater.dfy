/** The updater and the compaction scanner as objects that change their fields in place, each
    method proved to be the corresponding step of the update-log state machine. */
module Updater {
  import opened Basics
  import opened ShardLog
  import opened ShardProofs
  import opened ShardRuns
  import opened ShardReads
  import H = Hybrid
  import HU = HybridUnit
  import HS = HybridShard
  import HR = HybridRuns
  import HI = HybridIndex

  /** Compaction runs when the active share of the window has fallen to ratio/div and enough
      entries are active. */
  predicate IsCompactible(div: nat, ratio: nat, thres: nat, active: nat, snStart: nat, snEnd: nat)
    requires snStart <= snEnd
  {
    !((snEnd - snStart) * ratio < active * div || active < thres)
  }

  /** That is: enough entries are active, and their share of the window is at most ratio / div. */
  lemma CompactibleMeans(div: nat, ratio: nat, thres: nat, active: nat, snStart: nat, snEnd: nat)
    requires snStart < snEnd && div > 0
    ensures IsCompactible(div, ratio, thres, active, snStart, snEnd) <==>
            active >= thres && active as real / (snEnd - snStart) as real <= ratio as real / div as real
  {
    ShareAtMost(active, snEnd - snStart, ratio, div);
  }

  lemma ShareAtMost(a: nat, w: nat, r: nat, d: nat)
    requires w > 0 && d > 0
    ensures a as real / w as real <= r as real / d as real <==> a * d <= w * r
  {
    var (x, y) := (a as real / w as real, r as real / d as real);
    assert x * w as real == a as real && y * d as real == r as real;
    assert (a * d) as real == x * (w as real * d as real) && (w * r) as real == y * (w as real * d as real);
    Scaled(x, y, w as real * d as real);
  }

  lemma Scaled(x: real, y: real, z: real)
    requires z > 0.0
    ensures x <= y <==> x * z <= y * z
  {
  }

  /** One turn of the scanner. */
  function Turn(s: State): State { if s.held then Produce(s) else Look(s) }

  /** How far the scanner still has to go. */
  function Ahead(s: State): (n: nat)
    ensures s.held && s.cursor < |s.log| ==> n > 0
  {
    if s.cursor >= |s.log| then 0 else 2 * (|s.log| - s.cursor) - if s.held then 1 else 0
  }

  /** `compact`: drop stale jobs until one live job has been moved; while the queue is empty the
      thread waits and the scanner takes its turns. */
  function Drain(s: State): State
    decreases Ahead(s), |s.queue|
  {
    if s.queue != [] then
      if JobLive(s, s.queue[0]) then Consume(s) else Drain(Consume(s))
    else if s.cursor < |s.log| then Drain(Turn(s))
    else s
  }

  lemma TurnKeepsInv(s: State, rg: Range)
    requires Inv(s, rg)
    ensures Inv(Turn(s), rg) && Turn(s).log == s.log && Turn(s).snStart == s.snStart && Turn(s).snEnd == s.snEnd
  {
    if s.held { ProduceKeepsInv(s, rg); } else { LookKeepsInv(s, rg); }
  }

  lemma ConsumeFollows(s: State, rg: Range, m: Store)
    requires Inv(s, rg) && Holds(s.log, Act(s.log), m)
    ensures Follows(s, Consume(s), rg, m)
  {
    ConsumeRefines(s, rg, m);
  }

  lemma FollowsTwice(s: State, t: State, u: State, rg: Range, m: Store)
    requires Follows(s, t, rg, m) && Follows(t, u, rg, m)
    ensures Follows(s, u, rg, m)
  {
  }

  /** Draining moves entries but never changes what is stored. */
  lemma {:induction false} DrainRefines(s: State, rg: Range, m: Store)
    requires Inv(s, rg) && Holds(s.log, Act(s.log), m)
    ensures Follows(s, Drain(s), rg, m)
    decreases Ahead(s), |s.queue|
  {
    if s.queue != [] {
      ConsumeFollows(s, rg, m);
      if !JobLive(s, s.queue[0]) { DrainRefines(Consume(s), rg, m); }
    } else if s.cursor < |s.log| {
      TurnKeepsInv(s, rg);
      DrainRefines(Turn(s), rg, m);
    }
  }

  lemma {:induction false} DrainKeepsInv(s: State, rg: Range)
    requires Inv(s, rg)
    ensures Inv(Drain(s), rg)
    decreases Ahead(s), |s.queue|
  {
    if s.queue != [] {
      ConsumeKeepsInv(s, rg);
      if !JobLive(s, s.queue[0]) { DrainKeepsInv(Consume(s), rg); }
    } else if s.cursor < |s.log| {
      TurnKeepsInv(s, rg);
      DrainKeepsInv(Turn(s), rg);
    }
  }

  /** An active entry is queued or still ahead of the scanner. */
  lemma QueuedOrAhead(s: State, rg: Range, i: nat)
    requires Inv(s, rg) && i in Act(s.log)
    ensures s.queue != [] || s.cursor < |s.log|
  {
    assert i < s.cursor ==> Queued(s.queue, i);
  }

  ghost predicate Oldest(log: seq<Rec>, i: nat) { i in Act(log) && forall j :: j in Act(log) ==> i <= j }

  lemma {:induction false} LeastIn(act: set<nat>) returns (i: nat)
    requires act != {}
    ensures i in act && forall j :: j in act ==> i <= j
  {
    i :| i in act;
    if act != {i} {
      assert act == (act - {i}) + {i};
      var j := LeastIn(act - {i});
      if j < i { i := j; }
    }
  }

  /** The sentries are active, so there is an oldest active entry. */
  lemma OldestActive(s: State, rg: Range) returns (i: nat)
    requires LogInv(s, rg) && rg.lo < rg.hi
    ensures Oldest(s.log, i)
  {
    assert ActiveHash(s.log, Act(s.log), SentryHash(rg.lo));
    var z :| z in Act(s.log) && s.log[z].e.key.hash == SentryHash(rg.lo);
    i := LeastIn(Act(s.log));
  }

  lemma BelowStart(s: State, rg: Range, i: nat)
    requires Inv(s, rg) && i in Act(s.log)
    ensures s.snStart <= i
  {
    if i < s.snStart { BelowWindowInactive(s, rg, i); }
  }

  /** What is consumed is stale or the oldest active entry. */
  lemma ConsumeOldest(s: State, rg: Range, i: nat)
    requires Inv(s, rg) && Oldest(s.log, i) && s.queue != []
    ensures Inv(Consume(s), rg)
    ensures if JobLive(s, s.queue[0])
            then Act(Consume(s).log) == Act(s.log) - {i} + {|s.log|} && Consume(s).snStart == i + 1
            else Consume(s).log == s.log
  {
    ConsumeKeepsInv(s, rg);
  }

  /** So the wait is never in vain: the oldest active entry moves to the end. */
  lemma {:induction false} DrainMovesOldest(s: State, rg: Range, i: nat)
    requires Inv(s, rg) && Oldest(s.log, i)
    ensures Act(Drain(s).log) == Act(s.log) - {i} + {|s.log|} && |Drain(s).log| == |s.log| + 1
    ensures Drain(s).snStart == i + 1
    decreases Ahead(s), |s.queue|
  {
    QueuedOrAhead(s, rg, i);
    if s.queue != [] {
      ConsumeOldest(s, rg, i);
      if !JobLive(s, s.queue[0]) { DrainMovesOldest(Consume(s), rg, i); }
    } else {
      TurnKeepsInv(s, rg);
      DrainMovesOldest(Turn(s), rg, i);
    }
  }

  lemma {:induction false} DrainAppends(s: State)
    ensures s.log <= Drain(s).log
    decreases Ahead(s), |s.queue|
  {
    if s.queue != [] {
      if !JobLive(s, s.queue[0]) { DrainAppends(Consume(s)); }
    } else if s.cursor < |s.log| {
      DrainAppends(Turn(s));
    }
  }

  lemma {:induction false} DrainGrows(s: State)
    ensures s.endPos <= Drain(s).endPos
    decreases Ahead(s), |s.queue|
  {
    if s.queue != [] {
      if !JobLive(s, s.queue[0]) { DrainGrows(Consume(s)); }
    } else if s.cursor < |s.log| {
      DrainGrows(Turn(s));
    }
  }

  /** What `compact` does to the units of the hybrid index. */
  function DrainUnits(s: State, units: HR.Units): HR.Units
    decreases Ahead(s), |s.queue|
  {
    if s.queue != [] then
      var units' := HR.ConsumeUnits(s, units);
      if JobLive(s, s.queue[0]) then units' else DrainUnits(Consume(s), units')
    else if s.cursor < |s.log| then DrainUnits(Turn(s), units)
    else units
  }

  /** Entry i is active and links backwards or out of the shard; numbers and jobs are as they
      should be. */
  ghost predicate Misplaced(s: State, rg: Range, i: nat) {
    && i in Act(s.log) && !Placeable(s.log, rg, i)
    && (forall j :: 0 <= j < |s.log| ==> s.log[j].e.sn == j) && s.snEnd == |s.log|
    && (forall q :: 0 <= q < |s.queue| ==> s.queue[q].e.sn < |s.log| && s.queue[q].e == s.log[s.queue[q].e.sn].e)
  }

  /** Compaction copies entries as they are, so it does not repair one. */
  lemma ConsumeMisplaced(s: State, rg: Range, i: nat) returns (i': nat)
    requires Misplaced(s, rg, i) && s.queue != []
    ensures Misplaced(Consume(s), rg, i')
  {
    i' := i;
    if JobLive(s, s.queue[0]) {
      i' := if s.queue[0].e.sn == i then |s.log| else i;
      MovedMisplaced(s, rg, i, i');
    }
  }

  lemma MovedMisplaced(s: State, rg: Range, i: nat, i': nat)
    requires Misplaced(s, rg, i) && s.queue != [] && JobLive(s, s.queue[0])
    requires i' == if s.queue[0].e.sn == i then |s.log| else i
    ensures Misplaced(Consume(s), rg, i')
  {
    var t := Consume(s);
    assert t.log == s.log + [t.log[|s.log|]];
    ActAppend(s.log, t.log[|s.log|]);
    assert Elems(t.log[|s.log|].e.dsns) == {s.queue[0].e.sn};
  }

  lemma {:induction false} DrainMisplaced(s: State, rg: Range, i: nat) returns (i': nat)
    requires Misplaced(s, rg, i)
    ensures Misplaced(Drain(s), rg, i')
    decreases Ahead(s), |s.queue|
  {
    i' := i;
    if s.queue != [] {
      i' := ConsumeMisplaced(s, rg, i);
      if !JobLive(s, s.queue[0]) { i' := DrainMisplaced(Consume(s), rg, i'); }
    } else if s.cursor < |s.log| {
      i' := DrainMisplaced(Turn(s), rg, i);
    }
  }

  class Shard {
    const rg: Range
    /** Which index the store is built with: the in-memory one, which is the default, or the hybrid one. */
    const inMemory: bool
    const utilizationDiv: nat
    const utilizationRatio: nat
    const compactThres: nat
    var log: seq<Rec>
    var endPos: nat
    /** The pairs of the index; with the hybrid index those that its units show. */
    var index: set<IndexKV>
    var snStart: nat
    var snEnd: nat
    var compactDonePos: nat
    var queue: seq<Job>
    var cursor: nat
    var held: bool
    var readEntryBuf: Entry
    var prevEntryBuf: Entry
    /** The units of the hybrid index; none with the in-memory index. */
    const hybrid: HI.Indexer

    ghost function View(): State
      reads this`log, this`endPos, this`index, this`snStart, this`snEnd, this`compactDonePos, this`queue, this`cursor,
            this`held
    {
      State(log, endPos, index, snStart, snEnd, compactDonePos, queue, cursor, held)
    }

    /** The shard together with the units of the hybrid index. */
    ghost function J(): HR.Joint
      reads this`log, this`endPos, this`index, this`snStart, this`snEnd, this`compactDonePos, this`queue, this`cursor,
            this`held, hybrid.units.Values
    {
      HR.Joint(View(), hybrid.Now())
    }

    /** With the hybrid index every unit is in step with the shard. */
    ghost predicate Joined()
      reads this`log, this`endPos, this`index, this`snStart, this`snEnd, this`compactDonePos, this`queue, this`cursor,
            this`held, hybrid.units.Values
    {
      hybrid.Valid() && if inMemory then hybrid.units == map[] else HR.Joined(J(), rg)
    }

    /** A fresh shard: its sentries are in the log and in the index. */
    constructor (range: Range, inMem: bool, div: nat, ratio: nat, thres: nat)
      requires range.lo < range.hi <= 0x1_0000 && Less(SentryHash(range.hi - 1), range.end)
      ensures rg == range && inMemory == inMem && View() == Genesis(range) && Inv(View(), rg)
      ensures Joined() && (!inMem ==> J() == HR.FreshJoint(range)) && fresh(hybrid.units.Values)
    {
      rg, inMemory := range, inMem;
      utilizationDiv, utilizationRatio, compactThres := div, ratio, thres;
      var g := Genesis(range);
      log, endPos, index := g.log, g.endPos, g.index;
      snStart, snEnd, compactDonePos := g.snStart, g.snEnd, g.compactDonePos;
      queue, cursor, held := g.queue, g.cursor, g.held;
      readEntryBuf, prevEntryBuf := Sentry(range, 0), Sentry(range, 0);
      var indexer := HI.MakeIndexer(range, inMem);
      hybrid := indexer;
      new;
      assert indexer.Valid();
      FreshShard(range, J(), inMem);
    }

    /** Read the entry at an index position into the read buffer. */
    method ReadEntry(pos: nat) returns (ghost i: nat)
      requires exists j :: 0 <= j < |log| && log[j].pos == pos
      modifies this`readEntryBuf
      ensures i < |log| && log[i].pos == pos && readEntryBuf == log[i].e
    {
      var n := 0;
      while log[n].pos != pos
        invariant n < |log| && forall j :: 0 <= j < n ==> log[j].pos != pos
        decreases |log| - n
      {
        n := n + 1;
      }
      readEntryBuf := log[n].e;
      i := n;
    }

    /** The index pairs of unit u with truncated key k, in no particular order. */
    method Under(u: nat, k: nat) returns (cands: seq<IndexKV>)
      ensures forall kv :: kv in cands <==> kv in index && kv.unit == u && kv.k == k
    {
      var rest := index;
      cands := [];
      while rest != {}
        invariant rest <= index
        invariant forall kv :: kv in cands <==> kv in index - rest && kv.unit == u && kv.k == k
        decreases rest
      {
        var kv :| kv in rest;
        rest := rest - {kv};
        if kv.unit == u && kv.k == k { cands := cands + [kv]; }
      }
    }

    /** The largest key of the unit below k, or -1. */
    method KeyBefore(u: nat, k: nat) returns (p: int)
      ensures -1 <= p < k && (p >= 0 ==> exists o :: o in index && o.unit == u && o.k == p)
      ensures forall o :: o in index && o.unit == u && o.k < k ==> o.k <= p
    {
      var rest := index;
      p := -1;
      while rest != {}
        invariant rest <= index && -1 <= p < k
        invariant p >= 0 ==> exists o :: o in index && o.unit == u && o.k == p
        invariant forall o :: o in index - rest && o.unit == u && o.k < k ==> o.k <= p
        decreases rest
      {
        var kv :| kv in rest;
        rest := rest - {kv};
        if kv.unit == u && p < kv.k < k { p := kv.k; }
      }
    }

    /** `for_each_value`: the positions stored under the truncated hash. */
    method Lookup(h: KeyHash, height: int) returns (cands: seq<IndexKV>)
      requires LogInv(View(), rg) && Joined()
      modifies hybrid.units.Values
      ensures Joined() && HR.Seen(old(hybrid.Now()), h, height, false, hybrid.Now())
      ensures forall kv :: kv in cands <==> Hit(index, h, kv)
    {
      ghost var j := J();
      if inMemory {
        cands := Under(h.unit, h.k);
      } else {
        cands := hybrid.ForEachValue(h, height);
        HR.SeenJoined(j, rg, h, height, false, hybrid.Now());
        forall kv ensures kv in cands <==> Hit(index, h, kv) { HitMirrored(j, rg, h, kv); }
      }
    }

    /** `for_each_adjacent_value`: what the accessor is offered until it stops, and what it is offered
        after that. The in-memory index first offers the values at the key, then those at the key
        before. The hybrid index offers everything in one list: what cache, file and overlay yield, which
        holds the full-hash predecessor unless that is lost to a stale cached answer. The order within
        a list is open. */
    method Enumerate(h: KeyHash, height: int) returns (first: seq<IndexKV>, second: seq<IndexKV>)
      requires LogInv(View(), rg) && Joined()
      modifies hybrid.units.Values
      ensures Joined() && HR.Seen(old(hybrid.Now()), h, height, true, hybrid.Now())
      ensures Shown(inMemory, index, h, first, second)
      ensures inMemory ==> forall kv :: Adjacent(index, h, kv) <==> kv in first + second
      ensures !inMemory ==> forall kv :: kv in first + second <==>
                kv.unit == h.unit && h.unit in hybrid.units &&
                HS.Offers(old(hybrid.Now())[h.unit], height, h.k, kv.k, kv.pos)
      ensures Finds(old(J()), height, h, first + second)
    {
      ghost var j := J();
      if inMemory {
        first := Under(h.unit, h.k);
        second := [];
        var p := KeyBefore(h.unit, h.k);
        if p >= 0 {
          second := Under(h.unit, p);
          var o :| o in index && o.unit == h.unit && o.k == p;
          assert o in second;
        }
        AdjacentFinds(j, rg, height, h, first + second);
      } else {
        first := hybrid.ForEachAdjacentValue(h, height);
        second := [];
        HR.SeenJoined(j, rg, h, height, true, hybrid.Now());
        OffersFind(j, rg, height, h, first + second);
      }
    }

    /** What follows an update: compaction of `times` entries, if the window asks for it. */
    ghost function Settle(s: State, times: nat): State {
      if times == 0 || s.snStart > s.snEnd then s
      else if !IsCompactible(utilizationDiv, utilizationRatio, compactThres, |s.index|, s.snStart, s.snEnd) then s
      else if times == 1 then Drain(s)
      else Drain(Drain(s))
    }

    /** And to the units of the hybrid index. */
    ghost function SettleUnits(s: State, units: HR.Units, times: nat): HR.Units {
      if times == 0 || s.snStart > s.snEnd then units
      else if !IsCompactible(utilizationDiv, utilizationRatio, compactThres, |s.index|, s.snStart, s.snEnd) then units
      else if times == 1 then DrainUnits(s, units)
      else DrainUnits(Drain(s), DrainUnits(s, units))
    }

    /** How many compactions may follow a step. */
    function Times(step: Step): nat { if step.DoWrite? then 1 else if step.DoCreate? then 2 else 0 }

    /** A step with the compactions behind it, or an event that leaves the log alone. */
    ghost function After(s: State, event: HR.Event): Option<State> {
      if !event.Own? then Some(s)
      else match Next(s, event.step)
           case None => None
           case Some(t) => Some(Settle(t, Times(event.step)))
    }

    /** With the hybrid index the log stays within the positions that it can hold. */
    ghost predicate Fits(t: Option<State>) { !inMemory && t.Some? ==> t.value.endPos <= HS.LIMIT }

    ghost predicate AllFit(s: State, events: seq<HR.Event>)
      decreases |events|
    {
      events != [] ==>
        && Fits(After(s, events[0]))
        && (After(s, events[0]).Some? ==> AllFit(After(s, events[0]).value, events[1..]))
    }

    /** With the hybrid index: the event of the step, then its compactions. */
    ghost predicate Did(j: HR.Joint, step: Step, j': HR.Joint) {
      exists t :: HR.Moves(j, HR.Own(step), t) && j' == SettledJoint(t, Times(step))
    }

    ghost function SettledJoint(t: HR.Joint, times: nat): HR.Joint {
      HR.Joint(Settle(t.s, times), SettleUnits(t.s, t.units, times))
    }

    lemma SettleAppends(s: State, times: nat)
      ensures s.log <= Settle(s, times).log && s.endPos <= Settle(s, times).endPos
    {
      DrainAppends(s);
      DrainAppends(Drain(s));
      DrainGrows(s);
      DrainGrows(Drain(s));
    }

    /** When the window asks for it, as many of the oldest active entries as said move to the end. */
    lemma SettleMoves(s: State, times: nat)
      requires Inv(s, rg) && 1 <= times <= 2 && rg.lo < rg.hi && s.snStart <= s.snEnd
      requires IsCompactible(utilizationDiv, utilizationRatio, compactThres, |s.index|, s.snStart, s.snEnd)
      ensures |Settle(s, times).log| == |s.log| + times && s.snStart < Settle(s, times).snStart
    {
      var i := OldestActive(s, rg);
      DrainMovesOldest(s, rg, i);
      DrainKeepsInv(s, rg);
      BelowStart(s, rg, i);
      if times == 2 {
        var j := OldestActive(Drain(s), rg);
        DrainMovesOldest(Drain(s), rg, j);
        BelowStart(Drain(s), rg, j);
      }
    }

    lemma SettleKeepsInv(s: State, times: nat)
      requires Inv(s, rg)
      ensures s.snStart <= s.snEnd && Inv(Settle(s, times), rg)
    {
      DrainKeepsInv(s, rg);
      DrainKeepsInv(Drain(s), rg);
    }

    lemma SettleMisplaced(s: State, times: nat, i: nat)
      requires s.snStart <= s.snEnd && Misplaced(s, rg, i)
      ensures !Inv(Settle(s, times), rg)
    {
      var j := DrainMisplaced(s, rg, i);
      var k := DrainMisplaced(Drain(s), rg, j);
      BackwardLinkUnsound(s, rg, i);
      BackwardLinkUnsound(Drain(s), rg, j);
      BackwardLinkUnsound(Drain(Drain(s)), rg, k);
    }

    lemma OverrunShows(s: State, key: Key, value: seq<nat>, version: int, p: nat, b: nat)
      requires LogInv(s, rg) && s.snStart <= s.snEnd && IsGap(s, key.hash, p)
      requires LastRead(true, s, key.hash, p, b) && Overruns(true, s, key.hash)
      ensures Settle(CreateFrom(s, p, b, key, value, version), 2) != Settle(CreateAt(s, p, key, value, version), 2)
    {
      var (t, c) := (CreateFrom(s, p, b, key, value, version), CreateAt(s, p, key, value, version));
      OverrunReadsBelow(s, rg, key.hash, p, b);
      SettleAppends(t, 2);
      SettleAppends(c, 2);
      assert t.log[|s.log| + 1].e.dsns[0] != c.log[|s.log| + 1].e.dsns[0];
    }

    lemma OverrunStays(s: State, key: Key, value: seq<nat>, version: int, p: nat, b: nat)
      requires Inv(s, rg) && IsGap(s, key.hash, p)
      requires LastRead(true, s, key.hash, p, b) && Overruns(true, s, key.hash)
      ensures s.snStart <= s.snEnd && !Inv(Settle(CreateFrom(s, p, b, key, value, version), 2), rg)
    {
      var t := CreateFrom(s, p, b, key, value, version);
      OverrunBreaks(s, rg, p, b, key, value, version);
      SettleMisplaced(t, 2, |s.log|);
    }

    /** Compaction after a create neither hides an overrun nor repairs it. */
    lemma SettleTells(s: State, key: Key, value: seq<nat>, version: int, p: nat, b: nat)
      requires Inv(s, rg) && IsGap(s, key.hash, p) && LastRead(inMemory, s, key.hash, p, b)
      ensures s.snStart <= s.snEnd
      ensures Settle(CreateFrom(s, p, b, key, value, version), 2) == Settle(CreateAt(s, p, key, value, version), 2) <==>
              !Overruns(inMemory, s, key.hash)
      ensures Inv(Settle(CreateFrom(s, p, b, key, value, version), 2), rg) <==> !Overruns(inMemory, s, key.hash)
    {
      if Overruns(inMemory, s, key.hash) {
        OverrunShows(s, key, value, version, p, b);
        OverrunStays(s, key, value, version, p, b);
      } else {
        CreateKeepsInv(s, rg, p, key, value, version);
        SettleKeepsInv(CreateAt(s, p, key, value, version), 2);
      }
    }

    /** Creating ended in s': the create that the reads allow with its compactions. That is the create step
        with its compactions, and keeps the invariant, exactly when the search did not overrun. */
    ghost predicate CreateRight(s: State, key: Key, value: seq<nat>, version: int, s': State) {
      && (exists t ::
        Steps(inMemory, s, DoCreate(key, value, version), t) && t.snStart <= t.snEnd && s' == Settle(t, 2))
      && Create(s, key, value, version).Some?
      && var c := Create(s, key, value, version).value;
      && c.snStart <= c.snEnd && (s' == Settle(c, 2) <==> !Overruns(inMemory, s, key.hash))
      && (Inv(s', rg) <==> !Overruns(inMemory, s, key.hash))
    }

    lemma CreateDone(s: State, key: Key, value: seq<nat>, version: int, p: nat, b: nat, t: State)
      requires Inv(s, rg) && Creates(inMemory, s, key, value, version, p, b, t)
      ensures t.snStart <= t.snEnd && CreateRight(s, key, value, version, Settle(t, 2))
    {
      CreateMeans(s, rg, key, value, version, p);
      SettleTells(s, key, value, version, p, b);
      assert Steps(inMemory, s, DoCreate(key, value, version), t);
    }

    lemma CreatePlanned(s: State, key: Key, value: seq<nat>, version: int, p: nat, b: nat)
      requires Inv(s, rg) && IsGap(s, key.hash, p) && LastRead(inMemory, s, key.hash, p, b)
      requires Fits(After(s, HR.Own(DoCreate(key, value, version))))
      ensures var t := CreateFrom(s, p, b, key, value, version);
              && t.snStart <= t.snEnd && Fits(Some(Settle(t, 2))) && CreateRight(s, key, value, version, Settle(t, 2))
      ensures !inMemory ==> b == p
    {
      CreateDone(s, key, value, version, p, b, CreateFrom(s, p, b, key, value, version));
      CreateMeans(s, rg, key, value, version, p);
    }

    /** The search of `write_kv`: the live entry with this key, if there is one. It stays in the read
        buffer, since the enumeration of one key's values does stop. */
    method FindTarget(key: Key, height: int, ghost s: State) returns (oldPos: int, ghost t: nat)
      requires s == View() && LogInv(s, rg) && Joined()
      modifies this`readEntryBuf, hybrid.units.Values
      ensures Joined() && HR.Seen(old(hybrid.Now()), key.hash, height, false, hybrid.Now())
      ensures if oldPos < 0 then forall i: nat :: !IsTarget(s, key, i)
              else IsTarget(s, key, t) && log[t] == Rec(oldPos, readEntryBuf)
    {
      var cands := Lookup(key.hash, height);
      oldPos, t := PickTarget(key, cands, s);
    }

    /** The accessor of `write_kv` over the positions it is offered. */
    method PickTarget(key: Key, cands: seq<IndexKV>, ghost s: State) returns (oldPos: int, ghost t: nat)
      requires s == View() && LogInv(s, rg) && forall kv :: kv in cands <==> Hit(index, key.hash, kv)
      modifies this`readEntryBuf
      ensures J() == old(J()) && (old(Joined()) ==> Joined())
      ensures if oldPos < 0 then forall i: nat :: !IsTarget(s, key, i)
              else IsTarget(s, key, t) && log[t] == Rec(oldPos, readEntryBuf)
    {
      var n := 0;
      oldPos, t := -1, 0;
      while n < |cands| && oldPos < 0
        invariant 0 <= n <= |cands|
        invariant oldPos >= 0 ==> IsTarget(s, key, t) && log[t] == Rec(oldPos, readEntryBuf)
        invariant oldPos < 0 ==> forall i: nat :: IsTarget(s, key, i) ==> KV(log[i]) in cands[n..]
      {
        assert cands[n] in cands;
        ReadFinds(s, rg, cands[n]);
        ghost var i := ReadEntry(cands[n].pos);
        if readEntryBuf.key == key { oldPos, t := cands[n].pos, i; }
        n := n + 1;
      }
    }

    /** The search of `create_kv`: the live entry whose link spans the hash, unless there is none or it
        is lost to a stale cached answer. The read buffer holds the entry that was read last. */
    method FindGap(h: KeyHash, height: int, ghost j: HR.Joint)
      returns (oldPos: int, prevK: IndexKV, ghost p: nat, ghost b: nat)
      requires j == J() && LogInv(View(), rg) && Joined()
      modifies this`readEntryBuf, hybrid.units.Values
      ensures Joined() && HR.Seen(j.units, h, height, true, hybrid.Now())
      ensures if oldPos < 0 then forall i: nat :: IsGap(j.s, h, i) ==> HR.LostTo(j, height, h, i)
              else IsGap(j.s, h, p) && !HR.LostTo(j, height, h, p) && log[p].pos == oldPos && prevK == KV(log[p])
      ensures oldPos >= 0 ==> LastRead(inMemory, j.s, h, p, b) && readEntryBuf == log[b].e
    {
      var first, second := Enumerate(h, height);
      oldPos, prevK, p, b := PickGap(h, first, second, j.s);
      GapFound(j, rg, height, h, first + second);
    }

    /** The accessor of `create_kv` over the two lists. */
    method PickGap(h: KeyHash, first: seq<IndexKV>, second: seq<IndexKV>, ghost s: State)
      returns (oldPos: int, prevK: IndexKV, ghost p: nat, ghost b: nat)
      requires s == View() && LogInv(s, rg) && Shown(inMemory, s.index, h, first, second)
      modifies this`readEntryBuf
      ensures if oldPos < 0 then forall i: nat :: IsGap(s, h, i) ==> KV(log[i]) !in first + second
              else IsGap(s, h, p) && KV(log[p]) in first + second && log[p].pos == oldPos && prevK == KV(log[p])
      ensures oldPos >= 0 ==> LastRead(inMemory, s, h, p, b) && readEntryBuf == log[b].e
    {
      oldPos, prevK, p, b := OfferGap(h, first, -1, IndexKV(0, 0, 0), 0, 0, s);
      oldPos, prevK, p, b := OfferGap(h, second, oldPos, prevK, p, b, s);
      if oldPos >= 0 { LastReadBy(inMemory, s, rg, h, first, second, p, b); }
    }

    /** Offer a list to the accessor of `create_kv` until it asks to stop, which it does as soon as it
        has settled on an entry, now or before. */
    method OfferGap(h: KeyHash, cands: seq<IndexKV>, pos0: int, prev0: IndexKV, ghost p0: nat, ghost b0: nat,
                    ghost s: State)
      returns (oldPos: int, prevK: IndexKV, ghost p: nat, ghost b: nat)
      requires s == View() && LogInv(s, rg) && forall kv :: kv in cands ==> kv in index && kv.unit == h.unit
      requires pos0 >= 0 ==>
                 Settled(s, h, pos0, prev0, p0) && prev0 !in cands && b0 < |log| && readEntryBuf == log[b0].e
      modifies this`readEntryBuf
      ensures oldPos >= 0 ==> Settled(s, h, oldPos, prevK, p) && b < |log| && readEntryBuf == log[b].e
      ensures pos0 >= 0 ==> oldPos == pos0 && p == p0 && if cands == [] then b == b0 else KV(log[b]) == cands[0]
      ensures pos0 >= 0 ==> prevK == prev0
      ensures pos0 < 0 && oldPos >= 0 ==> b == p && prevK in cands
      ensures oldPos < 0 ==> forall i: nat :: IsGap(s, h, i) ==> KV(log[i]) !in cands
    {
      oldPos, prevK, p, b := pos0, prev0, p0, b0;
      var (n, stop) := (0, false);
      while n < |cands| && !stop
        invariant 0 <= n <= |cands| && (stop <==> n > 0 && oldPos >= 0) && (n == 0 ==> oldPos == pos0)
        invariant oldPos >= 0 ==> Settled(s, h, oldPos, prevK, p) && b < |log| && readEntryBuf == log[b].e
        invariant pos0 < 0 && oldPos >= 0 ==> b == p && prevK in cands
        invariant pos0 >= 0 ==> oldPos == pos0 && p == p0 && prevK == prev0
        invariant pos0 >= 0 ==> if n == 0 then b == b0 else KV(log[b]) == cands[0]
        invariant oldPos < 0 ==> forall i: nat :: IsGap(s, h, i) ==> KV(log[i]) !in cands[..n]
      {
        assert cands[n] in cands;
        ReadFinds(s, rg, cands[n]);
        b := ReadEntry(cands[n].pos);
        if Less(readEntryBuf.key.hash, h) && Less(h, readEntryBuf.next) {
          SpansIsGap(s, rg, h, b);
          if pos0 >= 0 { GapUnique(s, rg, h, p0, b); }
          oldPos, prevK, p := cands[n].pos, cands[n], b;
        }
        stop := oldPos >= 0;
        n := n + 1;
      }
      assert cands[..|cands|] == cands;
    }

    /** The search of `delete_kv`: the live entry with this key and the one linked to it, the latter
        in its own buffer; that one may be lost to a stale cached answer. */
    method FindVictim(key: Key, height: int, ghost j: HR.Joint)
      returns (delPos: int, oldPos: int, prevK: IndexKV, delSn: nat, delNext: KeyHash, ghost d: nat, ghost p: nat)
      requires j == J() && LogInv(View(), rg) && Joined()
      modifies this`readEntryBuf, this`prevEntryBuf, hybrid.units.Values
      ensures Joined() && HR.Seen(j.units, key.hash, height, true, hybrid.Now())
      ensures Searched(j, height, key, delPos >= 0, d, oldPos >= 0, p)
      ensures delPos >= 0 ==> log[d].pos == delPos && delSn == log[d].e.sn && delNext == log[d].e.next
      ensures oldPos >= 0 ==> log[p] == Rec(oldPos, prevEntryBuf) && prevK == KV(log[p])
    {
      var first, second := Enumerate(key.hash, height);
      delPos, oldPos, prevK, delSn, delNext, d, p := PickVictim(key, first, second, j.s);
      VictimFound(j, rg, height, key, first + second, delPos >= 0, d, oldPos >= 0, p);
    }

    /** The accessor of `delete_kv` over the two lists. */
    method PickVictim(key: Key, first: seq<IndexKV>, second: seq<IndexKV>, ghost s: State)
      returns (delPos: int, oldPos: int, prevK: IndexKV, delSn: nat, delNext: KeyHash, ghost d: nat, ghost p: nat)
      requires s == View() && LogInv(s, rg)
      requires Within(index, key.hash, first + second)
      modifies this`readEntryBuf, this`prevEntryBuf
      ensures Picked(s, key, first + second, delPos >= 0, d, oldPos >= 0, p)
      ensures J() == old(J()) && (old(Joined()) ==> Joined())
      ensures delPos >= 0 ==> log[d].pos == delPos && delSn == log[d].e.sn && delNext == log[d].e.next
      ensures oldPos >= 0 ==> log[p] == Rec(oldPos, prevEntryBuf) && prevK == KV(log[p])
    {
      delPos, oldPos, prevK, delSn, delNext, d, p := VictimLoop(key, first, second, s);
    }

    method VictimLoop(key: Key, first: seq<IndexKV>, second: seq<IndexKV>, ghost s: State)
      returns (delPos: int, oldPos: int, prevK: IndexKV, delSn: nat, delNext: KeyHash, ghost d: nat, ghost p: nat)
      requires s == View() && LogInv(s, rg)
      requires Within(index, key.hash, first + second)
      modifies this`readEntryBuf, this`prevEntryBuf
      ensures Picked(s, key, first + second, delPos >= 0, d, oldPos >= 0, p)
      ensures delPos >= 0 ==> log[d].pos == delPos && delSn == log[d].e.sn && delNext == log[d].e.next
      ensures oldPos >= 0 ==> log[p] == Rec(oldPos, prevEntryBuf) && prevK == KV(log[p])
    {
      var cands := first + second;
      var n := 0;
      delPos, oldPos, prevK, delSn, delNext, d, p := -1, -1, IndexKV(0, 0, 0), 0, key.hash, 0, 0;
      while n < |cands|
        invariant 0 <= n <= |cands|
        invariant delPos >= 0 ==>
                    IsVictim(s, key, d) && log[d].pos == delPos && delSn == log[d].e.sn && delNext == log[d].e.next
        invariant oldPos >= 0 ==> IsPrev(s, key, p) && log[p] == Rec(oldPos, prevEntryBuf) && prevK == KV(log[p])
        invariant oldPos >= 0 ==> prevK in cands
        invariant delPos < 0 ==> VictimAhead(s, key, cands, n)
        invariant oldPos < 0 ==> PrevAhead(s, key, cands, n)
      {
        assert cands[n] in cands;
        ReadFinds(s, rg, cands[n]);
        ghost var i := ReadEntry(cands[n].pos);
        PassedOver(s, key, cands, n, i);
        ReadSettles(s, rg, key, i);
        if delPos < 0 && readEntryBuf.key == key {
          delPos, delSn, delNext, d := cands[n].pos, readEntryBuf.sn, readEntryBuf.next, i;
        } else if oldPos < 0 && readEntryBuf.next == key.hash {
          prevEntryBuf, prevK, oldPos, p := readEntryBuf, cands[n], cands[n].pos, i;
        }
        n := n + 1;
        if delPos >= 0 && oldPos >= 0 {
          n := if n < |first| then |first| else if n == |first| then n else |cands|;
        }
      }
    }

    /** `add_kv`, `erase_kv` and `change_kv` of the index. */
    method AddKv(u: nat, k: nat, v: nat)
      requires hybrid.Valid() && (u in hybrid.units ==> H.Fresh(hybrid.Now()[u].w, v))
      modifies this`index, hybrid.units.Values
      ensures hybrid.Valid() && index == old(index) + {IndexKV(u, k, v)}
      ensures hybrid.Now() == HR.Add(old(hybrid.Now()), u, k, v)
    {
      index := index + {IndexKV(u, k, v)};
      hybrid.AddKv(u, k, v);
    }

    method EraseKv(u: nat, k: nat, v: nat)
      requires hybrid.Valid() && (u in hybrid.units ==> H.IsLive(hybrid.Now()[u].w, k, v))
      modifies this`index, hybrid.units.Values
      ensures hybrid.Valid() && index == old(index) - {IndexKV(u, k, v)}
      ensures hybrid.Now() == HR.Erase(old(hybrid.Now()), u, k, v)
    {
      index := index - {IndexKV(u, k, v)};
      hybrid.EraseKv(u, k, v);
    }

    method ChangeKv(u: nat, k: nat, v: nat, n: nat)
      requires hybrid.Valid() && CanChange(hybrid.Now(), u, k, v, n)
      modifies this`index, hybrid.units.Values
      ensures hybrid.Valid() && index == ChangeKV(old(index), u, k, v, n)
      ensures hybrid.Now() == HR.Change(old(hybrid.Now()), u, k, v, n)
    {
      index := ChangeKV(index, u, k, v, n);
      hybrid.ChangeKv(u, k, v, n);
    }

    /** `EntryBufferWriter::append`. */
    method AppendEntry(e: Entry)
      modifies this`log, this`endPos, this`snEnd
      ensures View() == Append(old(View()), e)
      ensures hybrid.Now() == old(hybrid.Now()) && (old(hybrid.Valid()) ==> hybrid.Valid())
    {
      log, endPos, snEnd := log + [Rec(endPos, e)], endPos + EntryLen(e), snEnd + 1;
    }

    /** `write_kv`: fails exactly when the key is not stored, and changes nothing then. */
    method WriteKv(key: Key, value: seq<nat>, version: int) returns (ok: bool)
      requires Inv(View(), rg) && Joined() && Fits(After(View(), HR.Own(DoWrite(key, value, version))))
      modifies this, hybrid.units.Values
      ensures ok <==> Write(old(View()), key, value, version).Some?
      ensures !ok ==> View() == old(View())
      ensures ok ==>
                var t := Write(old(View()), key, value, version).value; t.snStart <= t.snEnd && View() == Settle(t, 1)
      ensures Inv(View(), rg) && Joined()
      ensures ok && !inMemory ==> Did(old(J()), DoWrite(key, value, version), J())
    {
      ghost var j := J();
      var oldPos, target := FindTarget(key, HR.Height(version), j.s);
      if oldPos < 0 {
        return false;
      }
      WriteChooses(j.s, rg, key, value, version, target);
      WriteBehind(oldPos, key, value, version, target, j);
      return true;
    }

    /** The rest of `write_kv` once the search is over. */
    method WriteBehind(oldPos: nat, key: Key, value: seq<nat>, version: int, ghost i: nat, ghost j: HR.Joint)
      requires View() == j.s && Inv(j.s, rg) && Joined() && (!inMemory ==> HR.Joined(j, rg))
      requires HR.Seen(j.units, key.hash, HR.Height(version), false, hybrid.Now())
      requires IsTarget(j.s, key, i) && log[i] == Rec(oldPos, readEntryBuf)
      requires Fits(Some(Settle(Rewrite(j.s, i, value, version), 1)))
      modifies this, hybrid.units.Values
      ensures var t := Rewrite(j.s, i, value, version); t.snStart <= t.snEnd && View() == Settle(t, 1)
      ensures Inv(View(), rg) && Joined() && (!inMemory ==> Did(j, DoWrite(key, value, version), J()))
    {
      ghost var t := HR.Joint(Rewrite(j.s, i, value, version), HR.RewriteUnits(j.s, i, hybrid.Now()));
      SettleAppends(t.s, 1);
      if !inMemory { ChangeReady(J(), rg, i, t.s); }
      WriteDone(j, key, value, version, i, hybrid.Now(), t);
      RewriteInPlace(oldPos, key, value, version, i);
      MaybeCompact(1);
    }

    /** The body of `write_kv` once the search is over. */
    method RewriteInPlace(oldPos: nat, key: Key, value: seq<nat>, version: int, ghost i: nat)
      requires i < |log| && log[i] == Rec(oldPos, readEntryBuf) && readEntryBuf.key == key && hybrid.Valid()
      requires CanChange(hybrid.Now(), key.hash.unit, key.hash.k, oldPos, endPos)
      modifies this`log, this`endPos, this`snEnd, this`index, hybrid.units.Values
      ensures hybrid.Valid() && View() == Rewrite(old(View()), i, value, version)
      ensures hybrid.Now() == HR.RewriteUnits(old(View()), i, old(hybrid.Now()))
    {
      var newPos := endPos;
      AppendEntry(Entry(key, value, readEntryBuf.next, version, snEnd, [readEntryBuf.sn]));
      ChangeKv(key.hash.unit, key.hash.k, oldPos, newPos);
    }

    lemma WriteDone(j: HR.Joint, key: Key, value: seq<nat>, version: int, i: nat, seen: HR.Units, t: HR.Joint)
      requires Inv(j.s, rg) && IsTarget(j.s, key, i) && (!inMemory ==> HR.Joined(j, rg))
      requires HR.Seen(j.units, key.hash, HR.Height(version), false, seen)
      requires t == HR.Joint(Rewrite(j.s, i, value, version), HR.RewriteUnits(j.s, i, seen))
      requires Fits(Some(Settle(t.s, 1)))
      ensures Inv(t.s, rg) && t.s.snStart <= t.s.snEnd
      ensures !inMemory ==> HR.Joined(t, rg) && Did(j, DoWrite(key, value, version), SettledJoint(t, 1))
    {
      IndexedIffActive(j.s, rg, i);
      RewriteKeepsInv(j.s, rg, i, value, version);
      SettleAppends(t.s, 1);
      if !inMemory {
        HR.TargetIff(j, rg, key, i);
        assert HR.Writes(j, key, value, version, i, seen, t);
        HR.WriteMoves(j, rg, key, value, version, i, seen, t);
        assert HR.Moves(j, HR.Own(DoWrite(key, value, version)), t);
      }
    }

    /** `create_kv`: fails exactly when no predecessor leaves room for the hash or, with the hybrid index,
        the predecessor is lost to a stale cached answer. It does what the create step does, and keeps
        the invariant, exactly when the search does not overrun. */
    method CreateKv(key: Key, value: seq<nat>, version: int) returns (ok: bool)
      requires Inv(View(), rg) && Joined() && Fits(After(View(), HR.Own(DoCreate(key, value, version))))
      modifies this, hybrid.units.Values
      ensures ok <==> Create(old(View()), key, value, version).Some? &&
                      !HR.Loses(old(J()), HR.Own(DoCreate(key, value, version)))
      ensures !ok ==> View() == old(View())
      ensures HR.Loses(old(J()), HR.Own(DoCreate(key, value, version))) ==> J() == old(J())
      ensures if ok then CreateRight(old(View()), key, value, version, View()) else Inv(View(), rg)
      ensures Joined() && (ok && !inMemory ==> Did(old(J()), DoCreate(key, value, version), J()))
    {
      ghost var j := J();
      var oldPos, prevK, p, b := SearchGap(key, value, version, j);
      if oldPos < 0 {
        return false;
      }
      CreateBehind(oldPos, prevK, key, value, version, p, b, j);
      return true;
    }

    /** The search and what it decides. */
    method SearchGap(key: Key, ghost value: seq<nat>, version: int, ghost j: HR.Joint)
      returns (oldPos: int, prevK: IndexKV, ghost p: nat, ghost b: nat)
      requires j == J() && Inv(j.s, rg) && Joined() && Fits(After(j.s, HR.Own(DoCreate(key, value, version))))
      modifies this`readEntryBuf, hybrid.units.Values
      ensures Joined() && View() == j.s && HR.Seen(j.units, key.hash, HR.Height(version), true, hybrid.Now())
      ensures oldPos >= 0 <==>
              Create(j.s, key, value, version).Some? && !HR.Loses(j, HR.Own(DoCreate(key, value, version)))
      ensures HR.Loses(j, HR.Own(DoCreate(key, value, version))) ==> J() == j
      ensures oldPos >= 0 ==>
                && IsGap(j.s, key.hash, p) && !HR.LostTo(j, HR.Height(version), key.hash, p)
                && log[p].pos == oldPos && prevK == KV(log[p])
                && b < |log| && readEntryBuf == log[b].e && (!inMemory ==> b == p)
      ensures oldPos >= 0 ==>
                var t := CreateFrom(j.s, p, b, key, value, version);
                && t.snStart <= t.snEnd && Fits(Some(Settle(t, 2)))
                && CreateRight(j.s, key, value, version, Settle(t, 2))
    {
      oldPos, prevK, p, b := FindGap(key.hash, HR.Height(version), j);
      CreateTells(j, rg, key, value, version, oldPos >= 0, p, hybrid.Now());
      if oldPos >= 0 { CreatePlanned(j.s, key, value, version, p, b); }
    }

    /** The rest of `create_kv` once the search is over. */
    method CreateBehind(oldPos: nat, prevK: IndexKV, key: Key, value: seq<nat>, version: int, ghost p: nat,
                        ghost b: nat, ghost j: HR.Joint)
      requires View() == j.s && Inv(j.s, rg) && Joined() && (!inMemory ==> HR.Joined(j, rg))
      requires HR.Seen(j.units, key.hash, HR.Height(version), true, hybrid.Now())
      requires IsGap(j.s, key.hash, p) && !HR.LostTo(j, HR.Height(version), key.hash, p)
      requires b < |log| && readEntryBuf == log[b].e && (!inMemory ==> b == p)
      requires oldPos == log[p].pos && prevK == KV(log[p])
      requires var t := CreateFrom(j.s, p, b, key, value, version); t.snStart <= t.snEnd && Fits(Some(Settle(t, 2)))
      modifies this, hybrid.units.Values
      ensures View() == Settle(CreateFrom(j.s, p, b, key, value, version), 2)
      ensures Joined() && (!inMemory ==> Did(j, DoCreate(key, value, version), J()))
    {
      ghost var t := CreateFrom(j.s, p, b, key, value, version);
      if !inMemory {
        SettleAppends(t, 2);
        CreateReady(J(), rg, p, key, value, version, t);
        ghost var n := t.log[|j.s.log| + 1].pos;
        CreateMoved(j, key, value, version, p, hybrid.Now(),
                    HR.Joint(t, HR.CreateUnits(j.s, key.hash, p, n, hybrid.Now())));
      }
      InsertBehind(oldPos, prevK, key, value, version, p, b);
      MaybeCompact(2);
    }

    /** The body of `create_kv` once the search is over: both entries come from the read buffer. */
    method InsertBehind(oldPos: nat, prevK: IndexKV, key: Key, value: seq<nat>, version: int, ghost p: nat,
                        ghost b: nat)
      requires p < |log| && b < |log| && readEntryBuf == log[b].e && oldPos == log[p].pos && prevK == KV(log[p])
      requires hybrid.Valid() && prevK.unit == key.hash.unit
      requires var t := CreateFrom(View(), p, b, key, value, version);
               CanInsert(hybrid.Now(), key.hash, endPos, prevK.k, oldPos, t.log[|log| + 1].pos)
      modifies this`log, this`endPos, this`snEnd, this`index, hybrid.units.Values
      ensures hybrid.Valid() && View() == CreateFrom(old(View()), p, b, key, value, version)
      ensures hybrid.Now() ==
              HR.CreateUnits(old(View()), key.hash, p, View().log[|old(log)| + 1].pos, old(hybrid.Now()))
    {
      ghost var t := CreateFrom(View(), p, b, key, value, version);
      var createPos, newPos := AppendBoth(key, value, version);
      assert newPos == t.log[|old(log)| + 1].pos;
      AddAndChange(key.hash, createPos, prevK, oldPos, newPos);
    }

    method AppendBoth(key: Key, value: seq<nat>, version: int) returns (createPos: nat, newPos: nat)
      modifies this`log, this`endPos, this`snEnd
      ensures var e := readEntryBuf;
              var s1 := Append(old(View()), Entry(key, value, e.next, version, old(snEnd), []));
              && createPos == old(endPos) && newPos == s1.endPos
              && View() == Append(s1, Entry(e.key, e.value, key.hash, version, s1.snEnd, [e.sn]))
      ensures hybrid.Now() == old(hybrid.Now()) && (old(hybrid.Valid()) ==> hybrid.Valid())
    {
      createPos := endPos;
      AppendEntry(Entry(key, value, readEntryBuf.next, version, snEnd, []));
      newPos := endPos;
      AppendEntry(Entry(readEntryBuf.key, readEntryBuf.value, key.hash, version, snEnd, [readEntryBuf.sn]));
    }

    method AddAndChange(h: KeyHash, createPos: nat, prevK: IndexKV, oldPos: nat, newPos: nat)
      requires hybrid.Valid() && prevK.unit == h.unit
      requires CanInsert(hybrid.Now(), h, createPos, prevK.k, oldPos, newPos)
      modifies this`index, hybrid.units.Values
      ensures hybrid.Valid()
      ensures index == ChangeKV(old(index) + {IndexKV(h.unit, h.k, createPos)}, h.unit, prevK.k, oldPos, newPos)
      ensures hybrid.Now() ==
              HR.Change(HR.Add(old(hybrid.Now()), h.unit, h.k, createPos), h.unit, prevK.k, oldPos, newPos)
    {
      AddKv(h.unit, h.k, createPos);
      ChangeKv(prevK.unit, prevK.k, oldPos, newPos);
    }

    lemma CreateMoved(j: HR.Joint, key: Key, value: seq<nat>, version: int, p: nat, seen: HR.Units, t: HR.Joint)
      requires Inv(j.s, rg) && HR.Joined(j, rg) && IsGap(j.s, key.hash, p)
      requires !HR.LostTo(j, HR.Height(version), key.hash, p)
      requires HR.Seen(j.units, key.hash, HR.Height(version), true, seen) && !inMemory
      requires t.s == CreateAt(j.s, p, key, value, version)
      requires t.units == HR.CreateUnits(j.s, key.hash, p, t.s.log[|j.s.log| + 1].pos, seen)
      requires Settle(t.s, 2).endPos <= HS.LIMIT
      ensures HR.Joined(t, rg) && Inv(t.s, rg) && Did(j, DoCreate(key, value, version), SettledJoint(t, 2))
    {
      CreateKeepsInv(j.s, rg, p, key, value, version);
      SettleAppends(t.s, 2);
      HR.GapIff(j, rg, HR.Height(version), key.hash, p);
      assert HR.CreatesAt(j, key, value, version, p, seen, t);
      HR.CreateMoves(j, rg, key, value, version, p, seen, t);
      assert HR.Moves(j, HR.Own(DoCreate(key, value, version)), t);
    }

    /** `delete_kv`: needs both the entry and its predecessor among the candidates; fails where the plain
        step succeeds exactly when the predecessor is lost to a stale cached answer. */
    method DeleteKv(key: Key, version: int) returns (ok: bool)
      requires Inv(View(), rg) && Joined() && Fits(Delete(View(), key, version))
      modifies this, hybrid.units.Values
      ensures ok <==> Delete(old(View()), key, version).Some? && !HR.Loses(old(J()), HR.Own(DoDelete(key, version)))
      ensures View() == if ok then Delete(old(View()), key, version).value else old(View())
      ensures HR.Loses(old(J()), HR.Own(DoDelete(key, version))) ==> J() == old(J())
      ensures Inv(View(), rg) && Joined() && (ok && !inMemory ==> Did(old(J()), DoDelete(key, version), J()))
    {
      ghost var j := J();
      var delPos, oldPos, prevK, delSn, delNext, d, p := FindVictim(key, HR.Height(version), j);
      DeleteTells(j, rg, key, version, delPos >= 0, oldPos >= 0, d, p, hybrid.Now());
      if delPos < 0 || oldPos < 0 { return false; }
      DeleteDone(j.s, rg, key, version, d, p);
      DeleteBehind(delPos, oldPos, prevK, delSn, delNext, key, version, d, p, j);
      return true;
    }

    /** The rest of `delete_kv` once the search is over. */
    method DeleteBehind(delPos: nat, oldPos: nat, prevK: IndexKV, delSn: nat, delNext: KeyHash, key: Key, version: int,
                        ghost d: nat, ghost p: nat, ghost j: HR.Joint)
      requires View() == j.s && Inv(j.s, rg) && Joined() && (!inMemory ==> HR.Joined(j, rg))
      requires HR.Seen(j.units, key.hash, HR.Height(version), true, hybrid.Now())
      requires Searched(j, HR.Height(version), key, true, d, true, p)
      requires log[d].pos == delPos && delSn == log[d].e.sn && delNext == log[d].e.next
      requires log[p] == Rec(oldPos, prevEntryBuf) && prevK == KV(log[p])
      requires Fits(Some(DeleteAt(j.s, d, p, version)))
      modifies this, hybrid.units.Values
      ensures View() == DeleteAt(j.s, d, p, version)
      ensures Joined() && (!inMemory ==> Did(j, DoDelete(key, version), J()))
    {
      ghost var seen := hybrid.Now();
      if !inMemory {
        DeleteReady(J(), rg, key, d, p, version);
        DeleteMoved(j, key, version, d, p, seen,
                    HR.Joint(DeleteAt(j.s, d, p, version), HR.DeleteUnits(j.s, d, p, seen)));
      }
      Relink(delPos, oldPos, prevK, delSn, delNext, key, version, d, p);
    }

    /** The body of `delete_kv` once the search is over. */
    method Relink(delPos: nat, oldPos: nat, prevK: IndexKV, delSn: nat, delNext: KeyHash, key: Key, version: int,
                  ghost d: nat, ghost p: nat)
      requires d < |log| && log[d].pos == delPos && log[d].e.key == key && delSn == log[d].e.sn
      requires delNext == log[d].e.next
      requires p < |log| && log[p] == Rec(oldPos, prevEntryBuf) && prevK == KV(log[p])
      requires hybrid.Valid() && prevK.unit == key.hash.unit
      requires CanDrop(hybrid.Now(), key.hash, delPos, prevK.k, oldPos, endPos)
      modifies this`log, this`endPos, this`snEnd, this`index, hybrid.units.Values
      ensures hybrid.Valid() && View() == DeleteAt(old(View()), d, p, version)
      ensures hybrid.Now() == HR.DeleteUnits(old(View()), d, p, old(hybrid.Now()))
    {
      var newPos := endPos;
      AppendEntry(Entry(prevEntryBuf.key, prevEntryBuf.value, delNext, version, snEnd, [delSn, prevEntryBuf.sn]));
      EraseAndChange(key.hash, delPos, prevK, oldPos, newPos);
    }

    method EraseAndChange(h: KeyHash, delPos: nat, prevK: IndexKV, oldPos: nat, newPos: nat)
      requires hybrid.Valid() && prevK.unit == h.unit && CanDrop(hybrid.Now(), h, delPos, prevK.k, oldPos, newPos)
      modifies this`index, hybrid.units.Values
      ensures hybrid.Valid()
      ensures index == ChangeKV(old(index) - {IndexKV(h.unit, h.k, delPos)}, h.unit, prevK.k, oldPos, newPos)
      ensures hybrid.Now() ==
              HR.Change(HR.Erase(old(hybrid.Now()), h.unit, h.k, delPos), h.unit, prevK.k, oldPos, newPos)
    {
      EraseKv(h.unit, h.k, delPos);
      ChangeKv(prevK.unit, prevK.k, oldPos, newPos);
    }

    lemma DeleteMoved(j: HR.Joint, key: Key, version: int, d: nat, p: nat, seen: HR.Units, t: HR.Joint)
      requires Inv(j.s, rg) && HR.Joined(j, rg) && IsVictim(j.s, key, d) && IsPrev(j.s, key, p)
      requires !HR.LostTo(j, HR.Height(version), key.hash, p)
      requires HR.Seen(j.units, key.hash, HR.Height(version), true, seen) && !inMemory
      requires t == HR.Joint(DeleteAt(j.s, d, p, version), HR.DeleteUnits(j.s, d, p, seen)) && t.s.endPos <= HS.LIMIT
      ensures HR.Joined(t, rg) && Did(j, DoDelete(key, version), t)
    {
      HR.VictimIff(j, rg, HR.Height(version), key, d);
      HR.PrevIff(j, rg, HR.Height(version), key, p);
      assert HR.Deletes(j, key, version, d, p, seen, t);
      HR.DeleteMoves(j, rg, key, version, d, p, seen, t);
      assert HR.Moves(j, HR.Own(DoDelete(key, version)), t) && t == SettledJoint(t, 0);
    }

    /** The tail of an update: one or two compactions, if the window asks for them. */
    method MaybeCompact(times: nat)
      requires snStart <= snEnd && 1 <= times <= 2 && Joined()
      requires !inMemory ==> Inv(View(), rg) && Settle(View(), times).endPos <= HS.LIMIT
      modifies this, hybrid.units.Values
      ensures J() == SettledJoint(old(J()), times)
      ensures Joined() && (Inv(old(View()), rg) ==> Inv(View(), rg))
    {
      if IsCompactible(utilizationDiv, utilizationRatio, compactThres, |index|, snStart, snEnd) {
        DrainGrows(Drain(View()));
        Compact();
        if times == 2 { Compact(); }
      }
    }

    /** `compact`. */
    method Compact()
      requires Joined() && (!inMemory ==> Inv(View(), rg) && Drain(View()).endPos <= HS.LIMIT)
      modifies this, hybrid.units.Values
      ensures View() == Drain(old(View())) && hybrid.Now() == DrainUnits(old(View()), old(hybrid.Now()))
      ensures Joined() && (Inv(old(View()), rg) ==> Inv(View(), rg))
    {
      ghost var j := J();
      if Inv(j.s, rg) { DrainKeepsInv(j.s, rg); }
      var live := false;
      while !live && (queue != [] || cursor < |log|)
        invariant if live then View() == Drain(j.s) && hybrid.Now() == DrainUnits(j.s, j.units)
                  else Drain(View()) == Drain(j.s) && DrainUnits(View(), hybrid.Now()) == DrainUnits(j.s, j.units)
        invariant Joined() && (!inMemory ==> Inv(View(), rg))
        decreases !live, Ahead(View()), |queue|
      {
        live := CompactTurn();
      }
    }

    /** Wait for the scanner or consume a job. */
    method CompactTurn() returns (live: bool)
      requires (queue != [] || cursor < |log|) && Joined()
      requires !inMemory ==> Inv(View(), rg) && Drain(View()).endPos <= HS.LIMIT
      modifies this, hybrid.units.Values
      ensures Joined() && (!inMemory ==> Inv(View(), rg))
      ensures var (s, units) := (old(View()), old(hybrid.Now()));
              if live then View() == Drain(s) && hybrid.Now() == DrainUnits(s, units)
              else Drain(View()) == Drain(s) && DrainUnits(View(), hybrid.Now()) == DrainUnits(s, units)
      ensures || live || Ahead(View()) < old(Ahead(View()))
              || (Ahead(View()) == old(Ahead(View())) && |queue| < old(|queue|))
    {
      live := false;
      DrainUnfolds(View(), hybrid.Now());
      if queue == [] {
        ScanOne();
      } else {
        live := ConsumeOne();
      }
    }

    /** One turn of its loop. */
    method ConsumeOne() returns (live: bool)
      requires queue != [] && Joined() && (!inMemory ==> Inv(View(), rg) && Consume(View()).endPos <= HS.LIMIT)
      modifies this, hybrid.units.Values
      ensures live == JobLive(old(View()), old(queue)[0])
      ensures View() == Consume(old(View())) && hybrid.Now() == HR.ConsumeUnits(old(View()), old(hybrid.Now()))
      ensures Joined() && (!inMemory ==> Inv(View(), rg))
    {
      ghost var j := J();
      if !inMemory { ConsumeReady(j, rg); }
      live := TakeJob();
    }

    method TakeJob() returns (live: bool)
      requires queue != [] && hybrid.Valid() && (JobLive(View(), queue[0]) ==> JobReady(J()))
      modifies this, hybrid.units.Values
      ensures live == JobLive(old(View()), old(queue)[0]) && hybrid.Valid()
      ensures View() == Consume(old(View())) && hybrid.Now() == HR.ConsumeUnits(old(View()), old(hybrid.Now()))
    {
      var job := queue[0];
      live := IndexKV(job.e.key.hash.unit, job.e.key.hash.k, job.oldPos) in index;
      if live {
        MoveToEnd(job);
        Advance(queue[1..], job.e.sn + 1, job.oldPos + EntryLen(job.e));
      } else {
        Advance(queue[1..], snStart, compactDonePos);
      }
    }

    method Advance(rest: seq<Job>, start: nat, donePos: nat)
      modifies this`queue, this`snStart, this`compactDonePos
      ensures View() == old(View()).(queue := rest, snStart := start, compactDonePos := donePos)
      ensures hybrid.Now() == old(hybrid.Now()) && (old(hybrid.Valid()) ==> hybrid.Valid())
    {
      queue, snStart, compactDonePos := rest, start, donePos;
    }

    method MoveToEnd(job: Job)
      requires hybrid.Valid() && CanChange(hybrid.Now(), job.e.key.hash.unit, job.e.key.hash.k, job.oldPos, endPos)
      modifies this`log, this`endPos, this`snEnd, this`index, hybrid.units.Values
      ensures hybrid.Valid()
      ensures var h := job.e.key.hash;
              var e := Entry(job.e.key, job.e.value, job.e.next, job.e.version, old(snEnd), [job.e.sn]);
              && View() == Append(old(View()), e)
                             .(index := ChangeKV(old(index), h.unit, h.k, job.oldPos, old(endPos)))
              && hybrid.Now() == HR.Change(old(hybrid.Now()), h.unit, h.k, job.oldPos, old(endPos))
    {
      var newPos := endPos;
      AppendEntry(Entry(job.e.key, job.e.value, job.e.next, job.e.version, snEnd, [job.e.sn]));
      ChangeKv(job.e.key.hash.unit, job.e.key.hash.k, job.oldPos, newPos);
    }

    /** Any event: a step of the updater or the scanner, as the map knows it, a merge, or a lookup of the
        prefetcher. A create that clashes is excluded with the in-memory index. */
    method Perform(event: HR.Event, ghost m: Store) returns (ok: bool)
      requires Inv(View(), rg) && Holds(log, Act(log), m) && Joined() && Fits(After(View(), event))
      requires inMemory && event.Own? && event.step.DoCreate? ==> !Clash(m, event.step.key.hash)
      modifies this, hybrid.units.Values
      ensures ok <==> HR.SpecEvent(rg, m, event).Some? && !HR.Loses(old(J()), event)
      ensures ok ==> Follows(old(View()), View(), rg, HR.SpecEvent(rg, m, event).value)
      ensures ok ==> Some(View()) == After(old(View()), event)
      ensures !ok ==> View() == old(View())
      ensures Joined() && (HR.Loses(old(J()), event) ==> J() == old(J()))
    {
      match event {
        case Own(step) => ok := PerformOwn(step, m);
        case Merge(u) => ok := MergeUnit(u);
        case Peek(h, height, adjacent) =>
          if adjacent { var _, _ := Enumerate(h, height); } else { var _ := Lookup(h, height); }
          ok := true;
      }
    }

    /** The merger reaches this unit. */
    method MergeUnit(u: nat) returns (ok: bool)
      requires LogInv(View(), rg) && Joined()
      modifies hybrid.units.Values
      ensures ok && Joined()
      ensures !inMemory && u in hybrid.units ==> HR.Moves(old(J()), HR.Merge(u), J())
    {
      ok := true;
      if u in hybrid.units {
        ghost var j := J();
        hybrid.MergeUnit(u);
        ghost var w' :| H.IsMerge(j.units[u].w, w') && hybrid.Now() == j.units[u := HU.UnitState(w', map[])];
        assert HR.Merges(j, u, w', J());
        HR.MergeMoves(j, rg, u, w', J());
      }
    }

    method PerformOwn(step: Step, ghost m: Store) returns (ok: bool)
      requires Inv(View(), rg) && Holds(log, Act(log), m) && Joined() && Fits(After(View(), HR.Own(step)))
      requires inMemory && step.DoCreate? ==> !Clash(m, step.key.hash)
      modifies this, hybrid.units.Values
      ensures ok <==> SpecNext(rg, m, step).Some? && !HR.Loses(old(J()), HR.Own(step))
      ensures ok ==> Follows(old(View()), View(), rg, SpecNext(rg, m, step).value)
      ensures ok ==> Some(View()) == After(old(View()), HR.Own(step))
      ensures !ok ==> View() == old(View())
      ensures Joined() && (HR.Loses(old(J()), HR.Own(step)) ==> J() == old(J()))
    {
      ghost var s := View();
      OwnFollows(s, step, m);
      ok := true;
      match step {
        case DoWrite(key, value, version) => ok := WriteKv(key, value, version);
        case DoCreate(key, value, version) =>
          ClearNotOverrun(inMemory, s, rg, m, key.hash);
          ok := CreateKv(key, value, version);
        case DoDelete(key, version) => ok := DeleteKv(key, version);
        case DoConsume => if queue != [] { var _ := ConsumeOne(); }
        case DoLook => if !held { ScanOne(); }
        case DoProduce => if held { ScanOne(); }
      }
    }

    /** A step and the compactions behind it do what the map operation does. */
    lemma OwnFollows(s: State, step: Step, m: Store)
      requires Inv(s, rg) && Holds(s.log, Act(s.log), m)
      ensures Next(s, step).Some? <==> SpecNext(rg, m, step).Some?
      ensures Next(s, step).Some? ==>
                Follows(s, Settle(Next(s, step).value, Times(step)), rg, SpecNext(rg, m, step).value)
    {
      EveryStepRefines(s, rg, m, step);
      if Next(s, step).Some? { SettleFollows(s, Next(s, step).value, SpecNext(rg, m, step).value, Times(step)); }
    }

    /** The compactions behind an update leave the map alone. */
    lemma SettleFollows(s: State, t: State, m: Store, times: nat)
      requires Follows(s, t, rg, m)
      ensures Follows(s, Settle(t, times), rg, m)
    {
      DrainedFollows(s, t, m);
    }

    lemma DrainedFollows(s: State, t: State, m: Store)
      requires Follows(s, t, rg, m)
      ensures Follows(s, Drain(t), rg, m) && Follows(s, Drain(Drain(t)), rg, m)
    {
      DrainRefines(t, rg, m);
      DrainRefines(Drain(t), rg, m);
      FollowsTwice(s, t, Drain(t), rg, m);
      FollowsTwice(s, Drain(t), Drain(Drain(t)), rg, m);
    }

    /** `run_task` for the operations of the shard, with turns of the scanner, merges and lookups of the
        prefetcher in between. It stops at the first event that the map operations do not allow or that
        loses its predecessor to a stale cached answer, and up to there does what they do. */
    method RunSteps(events: seq<HR.Event>, ghost m: Store) returns (ok: bool, ghost done: nat, ghost cur: Store)
      requires Inv(View(), rg) && Holds(log, Act(log), m) && Joined() && AllFit(View(), events)
      requires inMemory ==> Clear(rg, m, HR.Plain(events))
      modifies this, hybrid.units.Values
      ensures done <= |events| && (ok <==> done == |events|) && Joined()
      ensures SpecRun(rg, m, HR.Plain(events[..done])) == Some(cur) && Follows(old(View()), View(), rg, cur)
      ensures !ok ==> HR.SpecEvent(rg, cur, events[done]).None? || HR.Loses(J(), events[done])
    {
      var i := 0;
      done, cur := 0, m;
      assert events[..0] == [] && events[0..] == events;
      while i < |events|
        invariant done == i && Stage(m, events, i, cur) && AllFit(View(), events[i..])
        invariant Joined() && Follows(old(View()), View(), rg, cur)
      {
        var did;
        did, cur := OneEvent(events[i], events, i, m, cur, old(View()));
        if !did { return false, i, cur; }
        i := i + 1;
        done := i;
      }
      assert events[..i] == events;
      return true, done, cur;
    }

    /** One turn of that loop. */
    method OneEvent(event: HR.Event, ghost events: seq<HR.Event>, ghost i: nat, ghost m: Store, ghost cur: Store,
                    ghost start: State) returns (ok: bool, ghost next: Store)
      requires i < |events| && event == events[i] && Stage(m, events, i, cur) && AllFit(View(), events[i..])
      requires Joined() && Follows(start, View(), rg, cur)
      modifies this, hybrid.units.Values
      ensures Joined() && Follows(start, View(), rg, next)
      ensures ok ==> Stage(m, events, i + 1, next) && AllFit(View(), events[i + 1..])
      ensures !ok ==> next == cur && (HR.SpecEvent(rg, cur, event).None? || HR.Loses(J(), event))
    {
      NextEvent(rg, m, events, i, cur);
      ok := Perform(event, cur);
      next := if ok then HR.SpecEvent(rg, cur, event).value else cur;
    }

    /** The first i events were performed and lead the plain store here. */
    ghost predicate Stage(m: Store, events: seq<HR.Event>, i: nat, cur: Store) {
      && i <= |events| && SpecRun(rg, m, HR.Plain(events[..i])) == Some(cur)
      && (inMemory ==> Clear(rg, cur, HR.Plain(events[i..])))
    }

    /** Half a turn of `fill_compact_chan`: testing the entry under the cursor, or queueing it. */
    method ScanOne()
      requires Joined()
      modifies this`queue, this`cursor, this`held
      ensures View() == Turn(old(View())) && Joined()
      ensures Inv(old(View()), rg) ==> Inv(View(), rg)
    {
      ghost var j := J();
      if Inv(j.s, rg) { TurnKeepsInv(j.s, rg); }
      if !inMemory { HR.StillJoined(j, rg, Turn(j.s)); }
      Scan();
      assert J() == HR.Joint(Turn(j.s), j.units);
    }

    method Scan()
      modifies this`queue, this`cursor, this`held
      ensures View() == Turn(old(View()))
      ensures hybrid.Now() == old(hybrid.Now()) && (old(hybrid.Valid()) ==> hybrid.Valid())
    {
      if cursor < |log| {
        var job := Job(log[cursor].pos, log[cursor].e);
        if held {
          queue, cursor, held := queue + [job], cursor + 1, false;
        } else if IndexKV(job.e.key.hash.unit, job.e.key.hash.k, job.oldPos) in index {
          held := true;
        } else {
          cursor := cursor + 1;
        }
      }
    }
  }

  lemma FreshShard(rg: Range, j: HR.Joint, inMemory: bool)
    requires rg.lo < rg.hi <= 0x1_0000 && Less(SentryHash(rg.hi - 1), rg.end)
    requires j.s == Genesis(rg) && (!inMemory ==> j.units == HR.FreshUnits(rg))
    ensures Inv(j.s, rg) && (!inMemory ==> j == HR.FreshJoint(rg) && HR.Joined(j, rg))
  {
    GenesisInv(rg);
    HR.FreshJoined(rg);
  }

  // ---------------------------------------------------------------- candidates

  ghost predicate Within(index: set<IndexKV>, h: KeyHash, cands: seq<IndexKV>) {
    forall kv {:trigger kv in cands} :: kv in cands ==> kv in index && kv.unit == h.unit
  }

  /** A list of candidates for h: active pairs of its unit, among them all with the truncated hash of h,
      and the nearest entry below h unless that is lost. */
  ghost predicate Finds(j: HR.Joint, height: int, h: KeyHash, cands: seq<IndexKV>) {
    && Within(j.s.index, h, cands)
    && (forall kv {:trigger Hit(j.s.index, h, kv)} :: Hit(j.s.index, h, kv) ==> kv in cands)
    && forall i: nat {:trigger HS.Nearest(j.s, h, i)} ::
         HS.Nearest(j.s, h, i) ==> (KV(j.s.log[i]) in cands <==> !HR.LostTo(j, height, h, i))
  }

  /** How the candidates are split: pairs of the unit of h; with the in-memory index first those with
      the truncated hash of h, then those with a smaller one; with the hybrid index one list. */
  ghost predicate Shown(inMemory: bool, index: set<IndexKV>, h: KeyHash, first: seq<IndexKV>, second: seq<IndexKV>) {
    && (forall kv {:trigger kv in first} :: kv in first ==> kv in index && kv.unit == h.unit)
    && if !inMemory then second == []
       else
         && (forall kv {:trigger kv in first} :: kv in first <==> Hit(index, h, kv))
         && (forall kv {:trigger kv in second} :: kv in second ==> Adjacent(index, h, kv) && kv.k < h.k)
         && (second != [] <==> HasSmaller(index, h))
  }

  /** With the hybrid index the visible pairs are the pairs of the index. */
  lemma HitMirrored(j: HR.Joint, rg: Range, h: KeyHash, kv: IndexKV)
    requires LogInv(j.s, rg) && HR.Joined(j, rg)
    ensures Hit(j.s.index, h, kv) <==>
            kv.unit == h.unit && kv.k == h.k && h.unit in j.units && H.IsLive(j.units[h.unit].w, kv.k, kv.pos)
  {
    if Hit(j.s.index, h, kv) {
      assert Owned(j.s.log, Act(j.s.log), kv);
      var i :| i in Act(j.s.log) && KV(j.s.log[i]) == kv;
      assert Placeable(j.s.log, rg, i);
    }
    if h.unit in j.units {
      assert HS.UnitOk(j.s, h.unit, j.units[h.unit]);
      assert kv.unit == h.unit ==> kv == IndexKV(h.unit, kv.k, kv.pos);
    }
  }

  lemma AdjacentFinds(j: HR.Joint, rg: Range, height: int, h: KeyHash, cands: seq<IndexKV>)
    requires LogInv(j.s, rg) && j.units == map[] && forall kv :: Adjacent(j.s.index, h, kv) <==> kv in cands
    ensures Finds(j, height, h, cands)
  {
    forall i: nat | HS.Nearest(j.s, h, i) ensures KV(j.s.log[i]) in cands {
      NearestIsAdjacent(j.s, rg, h, i);
    }
  }

  lemma NearestIsAdjacent(s: State, rg: Range, h: KeyHash, p: nat)
    requires LogInv(s, rg) && HS.Nearest(s, h, p)
    ensures Adjacent(s.index, h, KV(s.log[p]))
  {
    IndexedIffActive(s, rg, p);
    forall o | o in s.index && o.unit == h.unit && o.k < h.k ensures o.k <= s.log[p].e.key.hash.k {
      assert Owned(s.log, Act(s.log), o);
      var i :| i in Act(s.log) && KV(s.log[i]) == o;
      assert Leq(s.log[i].e.key.hash, s.log[p].e.key.hash);
    }
  }

  lemma OffersFind(j: HR.Joint, rg: Range, height: int, h: KeyHash, cands: seq<IndexKV>)
    requires LogInv(j.s, rg) && HR.Joined(j, rg)
    requires forall kv :: kv in cands <==>
               kv.unit == h.unit && h.unit in j.units && HS.Offers(j.units[h.unit], height, h.k, kv.k, kv.pos)
    ensures Finds(j, height, h, cands)
  {
    forall kv | kv in cands ensures kv in j.s.index {
      var i := HS.OfferedIsActive(j.s, rg, h.unit, height, h.k, j.units[h.unit], kv.k, kv.pos);
      IndexedIffActive(j.s, rg, i);
    }
    forall kv | Hit(j.s.index, h, kv) ensures kv in cands { HitMirrored(j, rg, h, kv); }
    forall i: nat | HS.Nearest(j.s, h, i) ensures KV(j.s.log[i]) in cands <==> !HR.LostTo(j, height, h, i) {
      HR.NearestOfferedIff(j, rg, height, h, i);
    }
  }

  /** An indexed entry whose range contains h is the gap. */
  lemma SpansIsGap(s: State, rg: Range, h: KeyHash, b: nat)
    requires LogInv(s, rg) && b < |s.log| && KV(s.log[b]) in s.index && s.log[b].e.key.hash.unit == h.unit
    requires Less(s.log[b].e.key.hash, h) && Less(h, s.log[b].e.next)
    ensures IsGap(s, h, b)
  {
    IndexedIffActive(s, rg, b);
    HR.RangeIsNearest(s, rg, h, b);
  }

  lemma GapFound(j: HR.Joint, rg: Range, height: int, h: KeyHash, cands: seq<IndexKV>)
    requires LogInv(j.s, rg) && Finds(j, height, h, cands)
    ensures forall i: nat :: IsGap(j.s, h, i) ==> (KV(j.s.log[i]) in cands <==> !HR.LostTo(j, height, h, i))
  {
    forall i: nat | IsGap(j.s, h, i) ensures HS.Nearest(j.s, h, i) {
      IndexedIffActive(j.s, rg, i);
      HR.RangeIsNearest(j.s, rg, h, i);
    }
  }

  /** What the read buffer tells the accessor of `delete_kv`. */
  lemma ReadSettles(s: State, rg: Range, key: Key, i: nat)
    requires LogInv(s, rg) && i < |s.log| && KV(s.log[i]) in s.index && s.log[i].e.key.hash.unit == key.hash.unit
    ensures s.log[i].e.key == key ==> IsVictim(s, key, i)
    ensures s.log[i].e.key != key && s.log[i].e.next == key.hash ==> IsPrev(s, key, i)
  {
    IndexedIffActive(s, rg, i);
    assert Placeable(s.log, rg, i);
    if s.log[i].e.next == key.hash { HR.RangeIsNearest(s, rg, key.hash, i); }
  }

  /** What the loop of `delete_kv` has found among the candidates. */
  ghost predicate Picked(s: State, key: Key, cands: seq<IndexKV>, hasVictim: bool, d: nat, hasPrev: bool, p: nat) {
    && (if hasVictim then IsVictim(s, key, d)
        else forall i: nat :: IsVictim(s, key, i) ==> KV(s.log[i]) !in cands)
    && if hasPrev then IsPrev(s, key, p) && KV(s.log[p]) in cands
       else forall i: nat :: IsPrev(s, key, i) ==> KV(s.log[i]) !in cands
  }

  /** And what that means: the victim is found if it exists, the predecessor if it exists and is not lost. */
  ghost predicate Searched(j: HR.Joint, height: int, key: Key, hasVictim: bool, d: nat, hasPrev: bool, p: nat) {
    && (if hasVictim then IsVictim(j.s, key, d) else forall i: nat :: !IsVictim(j.s, key, i))
    && if hasPrev then IsPrev(j.s, key, p) && !HR.LostTo(j, height, key.hash, p)
       else forall i: nat :: IsPrev(j.s, key, i) ==> HR.LostTo(j, height, key.hash, i)
  }

  lemma PrevNearest(s: State, rg: Range, key: Key, i: nat)
    requires LogInv(s, rg) && IsPrev(s, key, i)
    ensures HS.Nearest(s, key.hash, i)
  {
    IndexedIffActive(s, rg, i);
    assert Placeable(s.log, rg, i);
    HR.RangeIsNearest(s, rg, key.hash, i);
  }

  lemma VictimFound(j: HR.Joint, rg: Range, height: int, key: Key, cands: seq<IndexKV>, hasVictim: bool, d: nat,
                    hasPrev: bool, p: nat)
    requires LogInv(j.s, rg) && Finds(j, height, key.hash, cands) && Picked(j.s, key, cands, hasVictim, d, hasPrev, p)
    ensures Searched(j, height, key, hasVictim, d, hasPrev, p)
  {
    forall i: nat | IsPrev(j.s, key, i) ensures HS.Nearest(j.s, key.hash, i) { PrevNearest(j.s, rg, key, i); }
    forall i: nat | IsVictim(j.s, key, i) ensures KV(j.s.log[i]) in cands {
      assert Hit(j.s.index, key.hash, KV(j.s.log[i]));
    }
  }

  // ---------------------------------------------------------------- preparing the units

  /** The unit, if there is one, can take the change; the pair and the change; the deletion. */
  ghost predicate CanChange(units: HR.Units, u: nat, k: nat, v: nat, n: nat) {
    u in units ==> H.IsLive(units[u].w, k, v) && H.Fresh(units[u].w, n)
  }
  ghost predicate CanInsert(units: HR.Units, h: KeyHash, n: nat, y: nat, v: nat, n': nat) {
    h.unit in units ==> H.Fresh(units[h.unit].w, n) && CanChange(HR.Add(units, h.unit, h.k, n), h.unit, y, v, n')
  }
  ghost predicate CanDrop(units: HR.Units, h: KeyHash, v: nat, y: nat, v': nat, n: nat) {
    h.unit in units ==>
      H.IsLive(units[h.unit].w, h.k, v) && CanChange(HR.Erase(units, h.unit, h.k, v), h.unit, y, v', n)
  }
  ghost predicate JobReady(j: HR.Joint)
    requires j.s.queue != []
  {
    var job := j.s.queue[0];
    CanChange(j.units, job.e.key.hash.unit, job.e.key.hash.k, job.oldPos, j.s.endPos)
  }

  lemma ChangeReady(j: HR.Joint, rg: Range, i: nat, t: State)
    requires LogInv(j.s, rg) && HR.Joined(j, rg) && i < |j.s.log| && KV(j.s.log[i]) in j.s.index
    requires j.s.endPos < t.endPos <= HS.LIMIT
    ensures CanChange(j.units, j.s.log[i].e.key.hash.unit, j.s.log[i].e.key.hash.k, j.s.log[i].pos, j.s.endPos)
  {
    IndexedIffActive(j.s, rg, i);
    assert Placeable(j.s.log, rg, i);
    var u := j.s.log[i].e.key.hash.unit;
    HS.LivePair(j.s, rg, j.units[u].w, i);
    HS.FreshPos(j.s, rg, u, j.units[u].w, j.s.endPos);
  }

  lemma CreateReady(j: HR.Joint, rg: Range, p: nat, key: Key, value: seq<nat>, version: int, t: State)
    requires Inv(j.s, rg) && HR.Joined(j, rg) && IsGap(j.s, key.hash, p)
    requires t == CreateAt(j.s, p, key, value, version) && t.endPos <= HS.LIMIT
    ensures CanInsert(j.units, key.hash, j.s.endPos, j.s.log[p].e.key.hash.k, j.s.log[p].pos, t.log[|j.s.log| + 1].pos)
  {
    HR.CreateIsCreated(j.s, rg, p, key, value, version);
    IndexedIffActive(j.s, rg, p);
    assert Placeable(j.s.log, rg, p);
    HS.CreatedPositions(j.s, rg, t, key.hash, p, j.units[key.hash.unit].w);
  }

  lemma DeleteReady(j: HR.Joint, rg: Range, key: Key, d: nat, p: nat, version: int)
    requires Inv(j.s, rg) && HR.Joined(j, rg) && IsVictim(j.s, key, d) && IsPrev(j.s, key, p)
    requires DeleteAt(j.s, d, p, version).endPos <= HS.LIMIT
    ensures CanDrop(j.units, key.hash, j.s.log[d].pos, j.s.log[p].e.key.hash.k, j.s.log[p].pos, j.s.endPos)
  {
    HR.DeleteIsDeleted(j.s, rg, key, d, p, version);
    assert Placeable(j.s.log, rg, d);
    HS.DeletedPositions(j.s, rg, DeleteAt(j.s, d, p, version), d, p, j.units[key.hash.unit].w);
  }

  lemma ConsumeReady(j: HR.Joint, rg: Range)
    requires Inv(j.s, rg) && HR.Joined(j, rg) && j.s.queue != [] && Consume(j.s).endPos <= HS.LIMIT
    ensures JobLive(j.s, j.s.queue[0]) ==> JobReady(j)
    ensures Inv(Consume(j.s), rg) && HR.Joined(HR.Joint(Consume(j.s), HR.ConsumeUnits(j.s, j.units)), rg)
  {
    if JobLive(j.s, j.s.queue[0]) { ChangeReady(j, rg, j.s.queue[0].e.sn, Consume(j.s)); }
    ConsumeKeepsInv(j.s, rg);
    HR.ConsumeMovesUnits(j, rg);
  }

  /** One turn of the loop in `compact`. */
  lemma DrainUnfolds(s: State, units: HR.Units)
    requires s.queue != [] || s.cursor < |s.log|
    ensures s.queue == [] ==>
              && Drain(Turn(s)) == Drain(s) && DrainUnits(Turn(s), units) == DrainUnits(s, units)
              && Ahead(Turn(s)) < Ahead(s)
    ensures s.queue != [] ==>
              && Consume(s).endPos <= Drain(s).endPos
              && (!JobLive(s, s.queue[0]) ==> Ahead(Consume(s)) == Ahead(s))
              && |Consume(s).queue| < |s.queue|
              && var units' := HR.ConsumeUnits(s, units);
              if JobLive(s, s.queue[0]) then Consume(s) == Drain(s) && units' == DrainUnits(s, units)
              else Drain(Consume(s)) == Drain(s) && DrainUnits(Consume(s), units') == DrainUnits(s, units)
  {
    DrainGrows(Consume(s));
  }

  // ---------------------------------------------------------------- what the searches tell

  /** A lookup whose answer is stale leaves the caches alone. */
  lemma LostSeenSame(j: HR.Joint, height: int, h: KeyHash, p: nat, seen: HR.Units)
    requires p < |j.s.log| && HR.LostTo(j, height, h, p) && HR.Seen(j.units, h, height, true, seen)
    ensures seen == j.units
  {
    var x' :| HR.SeenIn(j.units[h.unit], h.k, height, true, x') && seen == j.units[h.unit := x'];
    assert HU.KnownBoth(j.units[h.unit], height, h.k);
    assert x' == j.units[h.unit];
  }

  lemma CreateTells(j: HR.Joint, rg: Range, key: Key, value: seq<nat>, version: int, found: bool, p: nat,
                    seen: HR.Units)
    requires LogInv(j.s, rg) && HR.Seen(j.units, key.hash, HR.Height(version), true, seen)
    requires if found then IsGap(j.s, key.hash, p) && !HR.LostTo(j, HR.Height(version), key.hash, p)
             else forall i: nat :: IsGap(j.s, key.hash, i) ==> HR.LostTo(j, HR.Height(version), key.hash, i)
    ensures found <==> Create(j.s, key, value, version).Some? && !HR.Loses(j, HR.Own(DoCreate(key, value, version)))
    ensures HR.Loses(j, HR.Own(DoCreate(key, value, version))) ==> seen == j.units
    ensures found ==> Create(j.s, key, value, version) == Some(CreateAt(j.s, p, key, value, version))
  {
    if found { CreateMeans(j.s, rg, key, value, version, p); }
    if i: nat :| IsGap(j.s, key.hash, i) && HR.LostTo(j, HR.Height(version), key.hash, i) {
      if found { GapUnique(j.s, rg, key.hash, p, i); }
      LostSeenSame(j, HR.Height(version), key.hash, i, seen);
    }
  }

  lemma DeleteTells(j: HR.Joint, rg: Range, key: Key, version: int, hasVictim: bool, hasPrev: bool, d: nat, p: nat,
                    seen: HR.Units)
    requires LogInv(j.s, rg) && HR.Seen(j.units, key.hash, HR.Height(version), true, seen)
    requires Searched(j, HR.Height(version), key, hasVictim, d, hasPrev, p)
    ensures hasVictim && hasPrev <==> Delete(j.s, key, version).Some? && !HR.Loses(j, HR.Own(DoDelete(key, version)))
    ensures HR.Loses(j, HR.Own(DoDelete(key, version))) ==> seen == j.units
    ensures hasVictim && hasPrev ==> Delete(j.s, key, version) == Some(DeleteAt(j.s, d, p, version))
  {
    if hasVictim && hasPrev { DeleteChooses(j.s, rg, key, version, d, p); }
    if i: nat :| IsPrev(j.s, key, i) && HR.LostTo(j, HR.Height(version), key.hash, i) {
      if hasPrev { HR.PrevUnique(j.s, rg, key, p, i); }
      LostSeenSame(j, HR.Height(version), key.hash, i, seen);
    }
  }

  // ---------------------------------------------------------------- runs

  lemma {:induction false} PlainSnoc(events: seq<HR.Event>, event: HR.Event)
    ensures HR.Plain(events + [event]) == HR.Plain(events) + if event.Own? then [event.step] else []
  {
    if events == [] {
      assert events + [event] == [event] && [event][1..] == [];
    } else {
      assert (events + [event])[1..] == events[1..] + [event];
      PlainSnoc(events[1..], event);
    }
  }

  lemma {:induction false} SpecRunSnoc(rg: Range, m: Store, steps: seq<Step>, step: Step)
    requires SpecRun(rg, m, steps).Some?
    ensures SpecRun(rg, m, steps + [step]) == SpecNext(rg, SpecRun(rg, m, steps).value, step)
    decreases |steps|
  {
    if steps == [] {
      assert steps + [step] == [step] && [step][1..] == [];
    } else {
      assert (steps + [step])[1..] == steps[1..] + [step];
      SpecRunSnoc(rg, SpecNext(rg, m, steps[0]).value, steps[1..], step);
    }
  }

  /** How the loop of a run goes on. */
  lemma NextEvent(rg: Range, m: Store, events: seq<HR.Event>, i: nat, cur: Store)
    requires i < |events| && SpecRun(rg, m, HR.Plain(events[..i])) == Some(cur)
    ensures events[i..] != [] && events[i..][0] == events[i] && events[i..][1..] == events[i + 1..]
    ensures SpecRun(rg, m, HR.Plain(events[..i + 1])) == HR.SpecEvent(rg, cur, events[i])
    ensures Clear(rg, cur, HR.Plain(events[i..])) ==>
              && !(events[i].Own? && events[i].step.DoCreate? && Clash(cur, events[i].step.key.hash))
              && (HR.SpecEvent(rg, cur, events[i]).Some? ==>
                    Clear(rg, HR.SpecEvent(rg, cur, events[i]).value, HR.Plain(events[i + 1..])))
  {
    assert events[..i + 1] == events[..i] + [events[i]];
    PlainSnoc(events[..i], events[i]);
    if events[i].Own? {
      SpecRunSnoc(rg, m, HR.Plain(events[..i]), events[i].step);
    } else {
      assert HR.Plain(events[..i]) + [] == HR.Plain(events[..i]);
    }
    var rest := events[i..];
    assert rest[0] == events[i] && rest[1..] == events[i + 1..];
    if rest[0].Own? {
      assert HR.Plain(rest)[0] == events[i].step && HR.Plain(rest)[1..] == HR.Plain(events[i + 1..]);
    }
  }

  lemma ClearNotOverrun(inMemory: bool, s: State, rg: Range, m: Store, h: KeyHash)
    requires LogInv(s, rg) && Holds(s.log, Act(s.log), m) && (inMemory ==> !Clash(m, h))
    ensures !Overruns(inMemory, s, h)
  {
    if p: nat :| IsGap(s, h, p) { OverrunIff(s, rg, m, h, p); }
  }

  /** The accessor of `create_kv` has settled on record p. */
  ghost predicate Settled(s: State, h: KeyHash, oldPos: int, prevK: IndexKV, p: nat) {
    IsGap(s, h, p) && s.log[p].pos == oldPos && prevK == KV(s.log[p])
  }

  /** The buffer after both lists were offered. */
  lemma LastReadBy(inMemory: bool, s: State, rg: Range, h: KeyHash, first: seq<IndexKV>, second: seq<IndexKV>, p: nat,
                   b: nat)
    requires LogInv(s, rg) && IsGap(s, h, p) && b < |s.log|
    requires inMemory ==> (KV(s.log[p]) in first <==> s.log[p].e.key.hash.k == h.k)
    requires inMemory ==> (second != [] <==> HasSmaller(s.index, h))
    requires forall kv :: kv in second ==> Adjacent(s.index, h, kv) && kv.k < h.k
    requires !inMemory ==> second == []
    requires if KV(s.log[p]) in first && second != [] then KV(s.log[b]) == second[0] else b == p
    ensures LastRead(inMemory, s, h, p, b)
  {
    if Overruns(inMemory, s, h) {
      var q: nat :| IsGap(s, h, q) && s.log[q].e.key.hash.k == h.k;
      GapUnique(s, rg, h, p, q);
      assert second[0] in second;
    }
  }

  /** If the record searched for is among the candidates, it is so from n on. */
  ghost predicate VictimAhead(s: State, key: Key, cands: seq<IndexKV>, n: nat)
    requires n <= |cands|
  {
    forall i: nat :: IsVictim(s, key, i) && KV(s.log[i]) in cands ==> KV(s.log[i]) in cands[n..]
  }
  ghost predicate PrevAhead(s: State, key: Key, cands: seq<IndexKV>, n: nat)
    requires n <= |cands|
  {
    forall i: nat :: IsPrev(s, key, i) && KV(s.log[i]) in cands ==> KV(s.log[i]) in cands[n..]
  }

  /** A candidate that is not the one searched for may be passed over. */
  lemma PassedOver(s: State, key: Key, cands: seq<IndexKV>, n: nat, i: nat)
    requires n < |cands| && i < |s.log| && KV(s.log[i]) == cands[n]
    requires forall j, k ::
               0 <= j < |s.log| && 0 <= k < |s.log| && KV(s.log[j]) == cands[n] && KV(s.log[k]) == cands[n] ==> j == k
    ensures VictimAhead(s, key, cands, n) && s.log[i].e.key != key ==> VictimAhead(s, key, cands, n + 1)
    ensures PrevAhead(s, key, cands, n) && !(s.log[i].e.next == key.hash && s.log[i].e.key != key) ==>
              PrevAhead(s, key, cands, n + 1)
  {
    assert cands[n..] == [cands[n]] + cands[n + 1..];
  }

  /** Reading at an indexed position gives the record the index pair stands for. */
  lemma ReadFinds(s: State, rg: Range, kv: IndexKV)
    requires LogInv(s, rg) && kv in s.index
    ensures exists j :: 0 <= j < |s.log| && s.log[j].pos == kv.pos
    ensures forall i :: 0 <= i < |s.log| && s.log[i].pos == kv.pos ==> KV(s.log[i]) == kv
    ensures forall i, j :: 0 <= i < |s.log| && 0 <= j < |s.log| && KV(s.log[i]) == kv && KV(s.log[j]) == kv ==> i == j
    ensures forall i :: 0 <= i < |s.log| && s.log[i].pos == kv.pos ==> s.log[i].e.next != s.log[i].e.key.hash
  {
    assert Owned(s.log, Act(s.log), kv);
    var j :| j in Act(s.log) && KV(s.log[j]) == kv;
    assert Placeable(s.log, rg, j);
    forall i | 0 <= i < |s.log| && s.log[i].pos == kv.pos ensures i == j {
      assert i == j || Apart(s.log, i, j) || Apart(s.log, j, i);
    }
  }

  lemma DeleteDone(s: State, rg: Range, key: Key, version: int, d: nat, p: nat)
    requires Inv(s, rg) && IsVictim(s, key, d) && IsPrev(s, key, p)
    ensures Delete(s, key, version) == Some(DeleteAt(s, d, p, version)) && Inv(DeleteAt(s, d, p, version), rg)
  {
    DeleteChooses(s, rg, key, version, d, p);
    DeleteKeepsInv(s, rg, key, d, p, version);
  }
}
