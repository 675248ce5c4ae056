/** When cached answers do harm: never while no two stored keys share a truncated hash; otherwise
    already a write and a delete in one block can fail. */
module HybridStale {
  import opened Basics
  import opened ShardLog
  import opened ShardProofs
  import opened ShardRuns
  import opened ShardReads
  import opened HybridShard
  import opened HybridRuns
  import H = Hybrid
  import U = HybridUnit

  // ---------------------------------------------------------------- distinct truncated hashes

  /** No two stored keys share a truncated hash. */
  ghost predicate NoTwins(m: Store) {
    forall a, b :: a in m && b in m && a.hash.unit == b.hash.unit && a.hash.k == b.hash.k ==> a == b
  }

  /** No key has two records in the file, and no cache misses a key before. */
  ghost predicate Clean(x: U.UnitState) {
    && (forall k: nat {:trigger U.TwoInFile(x.w, k)} :: !U.TwoInFile(x.w, k))
    && forall h: int, k: nat {:trigger U.Missing(x, h, k)} :: !U.Missing(x, h, k)
  }

  ghost predicate AllClean(j: Joint) { forall u: nat {:trigger j.units[u]} :: u in j.units ==> Clean(j.units[u]) }

  /** A unit with new pairs over the same file stays clean. */
  lemma CleanWith(x: U.UnitState, w': H.View)
    requires U.Sound(x) && Clean(x) && H.Ok(w') && w'.file == x.w.file
    ensures Clean(x.(w := w'))
  {
    SoundKept(x, w');
    forall k: nat ensures !U.TwoInFile(w', k) { assert !U.TwoInFile(x.w, k); }
  }

  lemma SeenClean(j: Joint, rg: Range, h: KeyHash, height: int, adjacent: bool, seen: Units)
    requires Joined(j, rg) && AllClean(j) && Seen(j.units, h, height, adjacent, seen)
    ensures AllClean(j.(units := seen))
  {
    if h.unit in j.units {
      var x := j.units[h.unit];
      var x' :| SeenIn(x, h.k, height, adjacent, x') && seen == j.units[h.unit := x'];
      assert !U.TwoInFile(x.w, h.k);
      if adjacent { U.BothSeenKeeps(x, height, h.k, x'); } else { U.ValueSeenIff(x, height, h.k, x'); }
      forall y: int, k: nat ensures !U.Missing(x', y, k) { assert !U.Missing(x, y, k); }
    }
  }

  /** The units differ at most in pairs over the same files. */
  ghost predicate SameFiles(units: Units, units': Units) {
    && units.Keys == units'.Keys
    && forall u {:trigger units'[u]} ::
         u in units' ==> units'[u].w.file == units[u].w.file && units'[u].caches == units[u].caches
  }

  lemma SameFilesClean(j: Joint, rg: Range, j': Joint)
    requires Joined(j, rg) && AllClean(j) && SameFiles(j.units, j'.units) && Joined(j', rg)
    ensures AllClean(j')
  {
    forall u: nat | u in j'.units ensures Clean(j'.units[u]) {
      assert j'.units[u] == j.units[u].(w := j'.units[u].w);
      CleanWith(j.units[u], j'.units[u].w);
    }
  }

  /** Merging writes one record per key if no two stored keys share a truncated hash. */
  lemma MergeClean(j: Joint, rg: Range, m: Store, u: nat, w': H.View, j': Joint)
    requires LogInv(j.s, rg) && Joined(j, rg) && Holds(j.s.log, Act(j.s.log), m) && AllClean(j) && NoTwins(m)
    requires Merges(j, u, w', j')
    ensures AllClean(j')
  {
    forall k: nat, a: nat, b: nat | (k, a) in w'.file && (k, b) in w'.file ensures a == b {
      var w := j.units[u].w;
      assert H.IsLive(w, k, a) && H.IsLive(w, k, b);
      var p := PairLive(j.s, rg, u, w, k, a);
      var q := PairLive(j.s, rg, u, w, k, b);
      assert Kept(j.s.log, m, p) && Kept(j.s.log, m, q);
      SameHashSameEntry(j.s.log, Act(j.s.log), rg, p, q);
    }
    forall k: nat ensures !U.TwoInFile(w', k) { }
  }

  lemma UpdateClean(j: Joint, rg: Range, h: KeyHash, height: int, adjacent: bool, seen: Units, j': Joint)
    requires Joined(j, rg) && AllClean(j) && Seen(j.units, h, height, adjacent, seen)
    requires SameFiles(seen, j'.units) && Joined(j', rg)
    ensures AllClean(j')
  {
    SeenJoined(j, rg, h, height, adjacent, seen);
    SeenClean(j, rg, h, height, adjacent, seen);
    SameFilesClean(j.(units := seen), rg, j');
  }

  lemma ChangeSameFiles(units: Units, u: nat, k: nat, v: nat, n: nat)
    ensures SameFiles(units, Change(units, u, k, v, n))
  {
  }

  lemma PairSameFiles(units: Units, u: nat, k: nat, v: nat, r: Rec, n: nat)
    ensures SameFiles(units, ChangeRec(Add(units, u, k, v), r, n))
    ensures SameFiles(units, ChangeRec(Erase(units, u, k, v), r, n))
  {
    var h := r.e.key.hash;
    ChangeSameFiles(Add(units, u, k, v), h.unit, h.k, r.pos, n);
    ChangeSameFiles(Erase(units, u, k, v), h.unit, h.k, r.pos, n);
  }

  lemma WriteClean(j: Joint, rg: Range, key: Key, value: seq<nat>, version: int, i: nat, seen: Units, j': Joint)
    requires Joined(j, rg) && Joined(j', rg) && AllClean(j) && Writes(j, key, value, version, i, seen, j')
    ensures AllClean(j')
  {
    ChangeSameFiles(seen, key.hash.unit, key.hash.k, j.s.log[i].pos, j.s.endPos);
    UpdateClean(j, rg, key.hash, Height(version), false, seen, j');
  }

  lemma CreateClean(j: Joint, rg: Range, key: Key, value: seq<nat>, version: int, p: nat, seen: Units, j': Joint)
    requires Joined(j, rg) && Joined(j', rg) && AllClean(j) && CreatesAt(j, key, value, version, p, seen, j')
    ensures AllClean(j')
  {
    PairSameFiles(seen, key.hash.unit, key.hash.k, j.s.endPos, j.s.log[p], j'.s.log[|j.s.log| + 1].pos);
    UpdateClean(j, rg, key.hash, Height(version), true, seen, j');
  }

  lemma DeleteClean(j: Joint, rg: Range, key: Key, version: int, d: nat, p: nat, seen: Units, j': Joint)
    requires Joined(j, rg) && Joined(j', rg) && AllClean(j) && Deletes(j, key, version, d, p, seen, j')
    ensures AllClean(j')
  {
    var r := j.s.log[d];
    PairSameFiles(seen, r.e.key.hash.unit, r.e.key.hash.k, r.pos, j.s.log[p], j.s.endPos);
    UpdateClean(j, rg, key.hash, Height(version), true, seen, j');
  }

  lemma ConsumeClean(j: Joint, rg: Range, j': Joint)
    requires Joined(j, rg) && Joined(j', rg) && AllClean(j) && j'.units == ConsumeUnits(j.s, j.units)
    ensures AllClean(j')
  {
    if j.s.queue != [] {
      var job := j.s.queue[0];
      ChangeSameFiles(j.units, job.e.key.hash.unit, job.e.key.hash.k, job.oldPos, j.s.endPos);
    }
    assert SameFiles(j.units, j'.units);
    SameFilesClean(j, rg, j');
  }

  /** Every update keeps the units clean. */
  lemma OwnClean(j: Joint, rg: Range, step: Step, j': Joint)
    requires Joined(j, rg) && Joined(j', rg) && AllClean(j) && Moves(j, Own(step), j')
    ensures AllClean(j')
  {
    match step
    case DoWrite(key, value, version) =>
      var i, seen :| Writes(j, key, value, version, i, seen, j');
      WriteClean(j, rg, key, value, version, i, seen, j');
    case DoCreate(key, value, version) =>
      var p, seen :| CreatesAt(j, key, value, version, p, seen, j');
      CreateClean(j, rg, key, value, version, p, seen, j');
    case DoDelete(key, version) =>
      var d, p, seen :| Deletes(j, key, version, d, p, seen, j');
      DeleteClean(j, rg, key, version, d, p, seen, j');
    case DoConsume => ConsumeClean(j, rg, j');
    case DoLook => assert j'.units == j.units;
    case DoProduce => assert j'.units == j.units;
  }

  /** Every event keeps the units clean, a merge if no two stored keys share a truncated hash. */
  lemma EventClean(j: Joint, rg: Range, m: Store, event: Event, j': Joint)
    requires Inv(j.s, rg) && Joined(j, rg) && Holds(j.s.log, Act(j.s.log), m) && AllClean(j)
    requires Moves(j, event, j') && j'.s.endPos <= LIMIT && (event.Merge? ==> NoTwins(m))
    ensures AllClean(j')
  {
    EventKeeps(j, rg, event, j');
    match event
    case Own(step) => OwnClean(j, rg, step, j');
    case Merge(u) =>
      var w' :| Merges(j, u, w', j');
      MergeClean(j, rg, m, u, w', j');
    case Peek(h, height, adjacent) => SeenClean(j, rg, h, height, adjacent, j'.units);
  }

  /** Whenever a unit is merged, no two stored keys share a truncated hash. */
  ghost predicate TwinFree(rg: Range, m: Store, events: seq<Event>)
    decreases |events|
  {
    events != [] ==>
      && (events[0].Merge? ==> NoTwins(m))
      && (SpecEvent(rg, m, events[0]).Some? ==> TwinFree(rg, SpecEvent(rg, m, events[0]).value, events[1..]))
  }

  lemma {:induction false} TwinFreeClean(js: seq<Joint>, events: seq<Event>, rg: Range, m: Store)
    requires IsTrace(js, events) && TwinFree(rg, m, events) && AllClean(js[0])
    requires Inv(js[0].s, rg) && Joined(js[0], rg) && Holds(js[0].s.log, Act(js[0].s.log), m)
    ensures AllClean(js[|events|])
    decreases |events|
  {
    if events != [] {
      FirstMove(js, events);
      EventRefines(js[0], rg, m, events[0], js[1]);
      EventClean(js[0], rg, m, events[0], js[1]);
      TwinFreeClean(js[1..], events[1..], rg, SpecEvent(rg, m, events[0]).value);
    }
  }

  lemma CleanLosesNothing(j: Joint, event: Event)
    requires AllClean(j)
    ensures !Loses(j, event)
  {
    forall u: nat, h: int, k: nat | u in j.units ensures !U.Missing(j.units[u], h, k) { assert Clean(j.units[u]); }
  }

  lemma FreshClean(rg: Range)
    requires rg.lo <= rg.hi
    ensures AllClean(FreshJoint(rg))
  {
    forall u: nat | u in FreshUnits(rg) ensures Clean(FreshUnits(rg)[u]) {
      assert FreshUnits(rg)[u] == FreshUnit(SentryPos(rg, u));
    }
  }

  /** A run in which merges meet no two stored keys with one truncated hash panics exactly where the
      plain map does. */
  lemma TwinFreeRefines(rg: Range, js: seq<Joint>, events: seq<Event>, event: Event)
    requires rg.lo < rg.hi && Less(SentryHash(rg.hi - 1), rg.end)
    requires IsTrace(js, events) && js[0] == FreshJoint(rg) && TwinFree(rg, Sentries(rg), events)
    ensures SpecRun(rg, Sentries(rg), Plain(events)).Some?
    ensures Panics(js[|events|], event) <==>
            SpecEvent(rg, SpecRun(rg, Sentries(rg), Plain(events)).value, event).None?
  {
    GenesisInv(rg);
    FreshJoined(rg);
    FreshClean(rg);
    HybridReachable(rg, js, events, event);
    TwinFreeClean(js, events, rg, Sentries(rg));
    CleanLosesNothing(js[|events|], event);
  }

  // ---------------------------------------------------------------- two keys with one truncated hash

  /** A unit right after it was merged. */
  predicate JustMerged(x: U.UnitState) { x.w.newKv == [] && x.w.erased == {} && x.caches == map[] }

  /** Keys a and b are stored and share a truncated hash; no stored key with it lies below a. */
  ghost predicate Twins(m: Store, a: Key, b: Key) {
    && a in m && b in m && a != b && a.hash.unit == b.hash.unit && a.hash.k == b.hash.k > 0
    && forall c :: c in m && c.hash.unit == a.hash.unit && c.hash.k == a.hash.k ==> Leq(a.hash, c.hash)
  }

  lemma ActiveRecord(s: State, rg: Range, m: Store, key: Key, w: H.View) returns (i: nat)
    requires LogInv(s, rg) && Holds(s.log, Act(s.log), m) && key in m && Mirrors(s.index, key.hash.unit, w)
    ensures i in Act(s.log) && s.log[i].e.key == key && H.IsLive(w, key.hash.k, s.log[i].pos)
    ensures rg.lo <= key.hash.unit < rg.hi
  {
    assert Backed(s.log, Act(s.log), key);
    i :| i in Act(s.log) && s.log[i].e.key == key;
    assert Placeable(s.log, rg, i);
    LivePair(s, rg, w, i);
  }

  /** Right after a merge the file has both records and a smaller key. */
  lemma TwinsInFile(j: Joint, rg: Range, m: Store, a: Key, b: Key)
    requires LogInv(j.s, rg) && Joined(j, rg) && Holds(j.s.log, Act(j.s.log), m) && Twins(m, a, b)
    requires a.hash.unit in j.units && JustMerged(j.units[a.hash.unit])
    ensures var w := j.units[a.hash.unit].w; U.TwoInFile(w, a.hash.k) && !H.FileAnswer(w, a.hash.k, None)
  {
    var w := j.units[a.hash.unit].w;
    var p := ActiveRecord(j.s, rg, m, a, w);
    var q := ActiveRecord(j.s, rg, m, b, w);
    assert j.s.log[p].pos != j.s.log[q].pos by {
      assert Apart(j.s.log, p, q) || Apart(j.s.log, q, p);
    }
    assert (a.hash.k, j.s.log[p].pos) in w.file && (a.hash.k, j.s.log[q].pos) in w.file;
    assert (0, w.file[0].1) in w.file && H.FileKey(w, 0);
  }

  /** Writing b then caches an answer that misses the key before. */
  lemma WriteMakesStale(j: Joint, rg: Range, m: Store, a: Key, b: Key, value: seq<nat>, version: int, i: nat,
                        seen: Units, j': Joint)
    requires Inv(j.s, rg) && Joined(j, rg) && Holds(j.s.log, Act(j.s.log), m) && Twins(m, a, b)
    requires a.hash.unit in j.units && JustMerged(j.units[a.hash.unit]) && Height(version) >= 0
    requires Writes(j, b, value, version, i, seen, j') && j'.s.endPos <= LIMIT
    ensures a.hash.unit in j'.units
    ensures var x := j'.units[a.hash.unit];
            U.Missing(x, Height(version), a.hash.k) && forall y: nat, v: nat :: (y, v) in x.w.newKv ==> y == a.hash.k
  {
    var (u, k) := (a.hash.unit, a.hash.k);
    TwinsInFile(j, rg, m, a, b);
    var x' :| SeenIn(j.units[u], k, Height(version), false, x') && seen == j.units[u := x'];
    U.ValueSeenIff(j.units[u], Height(version), k, x');
    WriteMoves(j, rg, b, value, version, i, seen, j');
    SoundKept(x', j'.units[u].w);
    OverlayChanged(x'.w, k, j.s.log[i].pos, j.s.endPos);
  }

  /** The predecessor of a has a smaller truncated key. */
  lemma TwinPredecessor(s: State, rg: Range, m: Store, a: Key, b: Key) returns (p: nat)
    requires LogInv(s, rg) && Holds(s.log, Act(s.log), m) && Twins(m, a, b)
    ensures IsPrev(s, a, p) && s.log[p].e.key.hash.k < a.hash.k
  {
    var d;
    d, p := StoredIsDeletable(s, rg, m, a);
    IndexedIffActive(s, rg, p);
    assert Kept(s.log, m, p) && Placeable(s.log, rg, p);
  }

  /** After a merge, for any two stored keys with one truncated hash: writing one and then deleting the
      smallest of those with that hash, in the same block, panics; the plain map allows both. */
  lemma WriteThenDeletePanics(j: Joint, rg: Range, m: Store, a: Key, b: Key, value: seq<nat>, version: int,
                              version': int, j': Joint)
    requires Inv(j.s, rg) && Joined(j, rg) && Holds(j.s.log, Act(j.s.log), m) && Twins(m, a, b)
    requires a.hash.unit in j.units && JustMerged(j.units[a.hash.unit])
    requires Height(version) == Height(version') >= 0
    requires Moves(j, Own(DoWrite(b, value, version)), j') && j'.s.endPos <= LIMIT
    ensures SpecRun(rg, m, [DoWrite(b, value, version), DoDelete(a, version')]).Some?
    ensures Loses(j', Own(DoDelete(a, version'))) && Panics(j', Own(DoDelete(a, version')))
  {
    var m' := m[b := Stored(value, version)];
    EventRefines(j, rg, m, Own(DoWrite(b, value, version)), j');
    TwinsAllowed(rg, m, a, b, value, version, version');
    var i, seen :| Writes(j, b, value, version, i, seen, j');
    WriteMakesStale(j, rg, m, a, b, value, version, i, seen, j');
    StaleDeletePanics(j', rg, m', a, b, version');
  }

  lemma TwinsAllowed(rg: Range, m: Store, a: Key, b: Key, value: seq<nat>, version: int, version': int)
    requires Twins(m, a, b)
    ensures SpecRun(rg, m, [DoWrite(b, value, version), DoDelete(a, version')]).Some?
    ensures Twins(m[b := Stored(value, version)], a, b)
  {
    var (write, delete) := (DoWrite(b, value, version), DoDelete(a, version'));
    assert [write, delete][1..] == [delete] && [delete][1..] == [];
    var m' := SpecNext(rg, m[b := Stored(value, version)], delete).value;
    assert SpecRun(rg, m', []).Some?;
  }

  lemma StaleDeletePanics(j: Joint, rg: Range, m: Store, a: Key, b: Key, version: int)
    requires LogInv(j.s, rg) && Joined(j, rg) && Holds(j.s.log, Act(j.s.log), m) && Twins(m, a, b)
    requires a.hash.unit in j.units
    requires var x := j.units[a.hash.unit];
             && U.Missing(x, Height(version), a.hash.k)
             && forall y: nat, v: nat :: (y, v) in x.w.newKv ==> y == a.hash.k
    ensures Loses(j, Own(DoDelete(a, version))) && Panics(j, Own(DoDelete(a, version)))
  {
    var p := TwinPredecessor(j.s, rg, m, a, b);
    assert LostTo(j, Height(version), a.hash, p);
    PanicsIff(j, rg, m, Own(DoDelete(a, version)));
  }

  // ---------------------------------------------------------------- the smallest such run

  function AfterSecond(): State { CreateAt(AfterFirst(), 1, Second, [8], 1) }

  lemma SecondStep()
    ensures Next(AfterFirst(), CreateSecond) == Some(AfterSecond())
  {
    FirstCreated();
    SecondRead();
    CreateMeans(AfterFirst(), OneUnit, Second, [8], 1, 1);
  }

  lemma SmallLogs()
    ensures AfterFirst().endPos <= 1000 && AfterSecond().endPos <= 1000
  {
    CreateGrows(Genesis(OneUnit), 0, First, [7], 1);
    CreateGrows(AfterFirst(), 1, Second, [8], 1);
  }

  lemma CreateGrows(s: State, p: nat, key: Key, value: seq<nat>, version: int)
    requires p < |s.log| && key.len + |value| <= 10 && s.log[p].e.key.len + |s.log[p].e.value| <= 32
    ensures CreateAt(s, p, key, value, version).endPos < s.endPos + 200
  {
  }

  lemma WriteGrows(s: State, key: Key, value: seq<nat>, version: int)
    requires Write(s, key, value, version).Some? && key.len + |value| < 1000
    ensures Write(s, key, value, version).value.endPos < s.endPos + 2000
  {
    var i: nat :| IsTarget(s, key, i) && Write(s, key, value, version) == Some(Rewrite(s, i, value, version));
  }

  /** Take an event that the plain map allows and that loses nothing. */
  lemma Take(j: Joint, rg: Range, m: Store, event: Event) returns (j': Joint)
    requires Inv(j.s, rg) && Joined(j, rg) && Holds(j.s.log, Act(j.s.log), m)
    requires SpecEvent(rg, m, event).Some? && !Loses(j, event) && (event.Merge? ==> event.u in j.units)
    requires j.s.endPos <= LIMIT
    requires event.Own? && Next(j.s, event.step).Some? ==> Next(j.s, event.step).value.endPos <= LIMIT
    ensures Moves(j, event, j') && (if event.Own? then Next(j.s, event.step) == Some(j'.s) else j'.s == j.s)
    ensures Joined(j', rg) && Inv(j'.s, rg) && Holds(j'.s.log, Act(j'.s.log), SpecEvent(rg, m, event).value)
    ensures AllClean(j) && (event.Merge? ==> NoTwins(m)) ==> AllClean(j')
  {
    PanicsIff(j, rg, m, event);
    j' := EventHappens(j, rg, event);
    EventKeeps(j, rg, event, j');
    EventRefines(j, rg, m, event, j');
    if AllClean(j) && (event.Merge? ==> NoTwins(m)) { EventClean(j, rg, m, event, j'); }
  }

  const CreateFirst := DoCreate(First, [7], 1)
  const CreateSecond := DoCreate(Second, [8], 1)
  const WriteSecond := DoWrite(Second, [9], 1)

  ghost function FirstStored(): Store { WithCreated(Sentries(OneUnit), First, [7], 1) }
  ghost function BothStored(): Store { WithCreated(FirstStored(), Second, [8], 1) }

  lemma BothAllowed()
    ensures SpecNext(OneUnit, Sentries(OneUnit), CreateFirst) == Some(FirstStored())
    ensures SpecNext(OneUnit, FirstStored(), CreateSecond) == Some(BothStored())
    ensures Twins(BothStored(), First, Second)
  {
    forall k | k in Sentries(OneUnit) ensures k.hash.k == 0 { }
  }

  lemma FirstStep()
    ensures Next(Genesis(OneUnit), CreateFirst) == Some(AfterFirst())
  {
    FirstCreated();
    assert [CreateFirst][1..] == [];
  }

  /** Make a trace longer by an event that the plain map allows and that loses nothing. */
  lemma Longer(js: seq<Joint>, events: seq<Event>, rg: Range, m: Store, event: Event) returns (j': Joint)
    requires IsTrace(js, events) && Good(js[|events|], rg, m)
    requires var j := js[|events|];
             && SpecEvent(rg, m, event).Some? && !Loses(j, event) && (event.Merge? ==> event.u in j.units)
             && (event.Own? && Next(j.s, event.step).Some? ==> Next(j.s, event.step).value.endPos <= LIMIT)
    ensures IsTrace(js + [j'], events + [event]) && Good(j', rg, SpecEvent(rg, m, event).value)
    ensures AllClean(js[|events|]) && (event.Merge? ==> NoTwins(m)) ==> AllClean(j')
    ensures if event.Own? then Next(js[|events|].s, event.step) == Some(j'.s) else j'.s == js[|events|].s
  {
    j' := Take(js[|events|], rg, m, event);
    Extended(js, events, event, j');
  }

  lemma Extended(js: seq<Joint>, events: seq<Event>, event: Event, j': Joint)
    requires IsTrace(js, events) && Moves(js[|events|], event, j') && j'.s.endPos <= LIMIT
    ensures IsTrace(js + [j'], events + [event])
  {
    var (r, all) := (js + [j'], events + [event]);
    forall i | 0 <= i < |all| ensures Moves(r[i], all[i], r[i + 1]) {
      if i < |events| {
        assert Moves(js[i], events[i], js[i + 1]);
        assert r[i] == js[i] && r[i + 1] == js[i + 1] && all[i] == events[i];
      }
    }
  }

  ghost predicate Good(j: Joint, rg: Range, m: Store) {
    Inv(j.s, rg) && Joined(j, rg) && Holds(j.s.log, Act(j.s.log), m) && j.s.endPos <= LIMIT
  }

  lemma FreshGood()
    ensures Good(FreshJoint(OneUnit), OneUnit, Sentries(OneUnit)) && AllClean(FreshJoint(OneUnit))
  {
    GenesisInv(OneUnit);
    FreshJoined(OneUnit);
    FreshClean(OneUnit);
  }

  /** The run: two creates in a fresh shard, a merge, a write. */
  const Creates := [Own(CreateFirst)] + [Own(CreateSecond)]
  const ThenMerge := Creates + [Merge(0)]
  const ThenWrite := ThenMerge + [Own(WriteSecond)]

  /** A clean trace and an update that the plain map allows. */
  lemma CleanLonger(js: seq<Joint>, events: seq<Event>, rg: Range, m: Store, step: Step, m': Store, t: State)
      returns (j': Joint)
    requires IsTrace(js, events) && Good(js[|events|], rg, m) && AllClean(js[|events|])
    requires SpecNext(rg, m, step) == Some(m') && Next(js[|events|].s, step) == Some(t) && t.endPos <= LIMIT
    ensures IsTrace(js + [j'], events + [Own(step)]) && Good(j', rg, m') && AllClean(j') && j'.s == t
  {
    CleanLosesNothing(js[|events|], Own(step));
    j' := Longer(js, events, rg, m, Own(step));
  }

  lemma FirstEvent(j: Joint, rg: Range, m: Store, step: Step, m': Store, t: State) returns (j': Joint)
    requires Good(j, rg, m) && AllClean(j)
    requires SpecNext(rg, m, step) == Some(m') && Next(j.s, step) == Some(t) && t.endPos <= LIMIT
    ensures IsTrace([j, j'], [Own(step)]) && Good(j', rg, m') && AllClean(j') && j'.s == t
  {
    j' := CleanLonger([j], [], rg, m, step, m', t);
    assert [j] + [j'] == [j, j'] && [] + [Own(step)] == [Own(step)];
  }

  lemma TwoUpdates(j0: Joint, rg: Range, m0: Store, a: Step, m1: Store, s1: State, b: Step, m2: Store, s2: State)
      returns (js: seq<Joint>)
    requires Good(j0, rg, m0) && AllClean(j0)
    requires SpecNext(rg, m0, a) == Some(m1) && Next(j0.s, a) == Some(s1) && s1.endPos <= LIMIT
    requires SpecNext(rg, m1, b) == Some(m2) && Next(s1, b) == Some(s2) && s2.endPos <= LIMIT
    ensures IsTrace(js, [Own(a)] + [Own(b)]) && js[0] == j0 && Good(js[2], rg, m2) && js[2].s == s2
  {
    var j1 := FirstEvent(j0, rg, m0, a, m1, s1);
    var j2 := CleanLonger([j0, j1], [Own(a)], rg, m1, b, m2, s2);
    js := [j0, j1] + [j2];
  }

  lemma SecondDone() returns (js: seq<Joint>)
    ensures IsTrace(js, Creates) && js[0] == FreshJoint(OneUnit)
    ensures Good(js[2], OneUnit, BothStored()) && js[2].s.endPos <= 1000
  {
    FreshGood();
    BothAllowed();
    FirstStep();
    SecondStep();
    SmallLogs();
    js := TwoUpdates(FreshJoint(OneUnit), OneUnit, Sentries(OneUnit), CreateFirst, FirstStored(),
                     AfterFirst(), CreateSecond, BothStored(), AfterSecond());
  }

  /** Everything is in order, an exact index would allow to delete the key, and deleting it panics. */
  ghost predicate FailsToDelete(j: Joint, rg: Range, key: Key, version: int) {
    && Inv(j.s, rg) && Joined(j, rg)
    && Next(j.s, DoDelete(key, version)).Some? && Panics(j, Own(DoDelete(key, version)))
  }

  lemma MergedState(j: Joint, j': Joint)
    requires Moves(j, Merge(0), j')
    ensures 0 in j'.units && JustMerged(j'.units[0])
  {
    var w' :| Merges(j, 0, w', j');
  }

  lemma LastMove(js: seq<Joint>, events: seq<Event>)
    requires IsTrace(js, events) && events != []
    ensures Moves(js[|events| - 1], events[|events| - 1], js[|events|])
  {
    assert Moves(js[|events| - 1], events[|events| - 1], js[|events| - 1 + 1]);
  }

  /** Both keys are stored and their unit was just merged. */
  lemma Merged(js: seq<Joint>, events: seq<Event>) returns (j': Joint)
    requires IsTrace(js, events) && Good(js[|events|], OneUnit, BothStored()) && js[|events|].s.endPos <= 1000
    ensures IsTrace(js + [j'], events + [Merge(0)]) && Good(j', OneUnit, BothStored()) && j'.s.endPos <= 1000
    ensures 0 in j'.units && JustMerged(j'.units[0])
  {
    j' := Longer(js, events, OneUnit, BothStored(), Merge(0));
    LastMove(js + [j'], events + [Merge(0)]);
    MergedState(js[|events|], j');
  }

  lemma WrittenAndStuck(js: seq<Joint>, events: seq<Event>, rg: Range, m: Store, a: Key, b: Key, value: seq<nat>,
                        version: int) returns (j': Joint)
    requires IsTrace(js, events) && Good(js[|events|], rg, m) && Twins(m, a, b)
    requires a.hash.unit in js[|events|].units && JustMerged(js[|events|].units[a.hash.unit]) && Height(version) >= 0
    requires js[|events|].s.endPos + 2000 <= LIMIT && b.len + |value| < 1000
    ensures IsTrace(js + [j'], events + [Own(DoWrite(b, value, version))])
    ensures FailsToDelete(j', rg, a, version)
  {
    var j := js[|events|];
    EveryStepRefines(j.s, rg, m, DoWrite(b, value, version));
    WriteGrows(j.s, b, value, version);
    j' := Longer(js, events, rg, m, Own(DoWrite(b, value, version)));
    LastMove(js + [j'], events + [Own(DoWrite(b, value, version))]);
    WriteThenDeletePanics(j, rg, m, a, b, value, version, version, j');
    EveryStepRefines(j'.s, rg, m[b := Stored(value, version)], DoDelete(a, version));
  }

  /** Create both keys in a fresh shard, merge, write the second one; deleting the first one in the same
      block then panics, and an exact index would allow it. */
  lemma FreshRunPanics() returns (js: seq<Joint>)
    ensures IsTrace(js, ThenWrite) && js[0] == FreshJoint(OneUnit) && FailsToDelete(js[4], OneUnit, First, 1)
  {
    js := SecondDone();
    var j3 := Merged(js, Creates);
    js := js + [j3];
    BothAllowed();
    var j4 := WrittenAndStuck(js, ThenMerge, OneUnit, BothStored(), First, Second, [9], 1);
    js := js + [j4];
  }
}
