/** Whole runs of a shard: any interleaving of updates, compactions and scans, from the sentries
    on, keeps the invariant and acts on the key-value store as the plain map operations do. */
module ShardRuns {
  import opened Basics
  import opened ShardLog
  import opened ShardProofs

  /** What the plain store keeps of a key: its value and the version of its last entry. */
  datatype Stored = Stored(value: seq<nat>, version: int)

  type Store = map<Key, Stored>

  datatype Step =
    | DoWrite(key: Key, value: seq<nat>, version: int)
    | DoCreate(key: Key, value: seq<nat>, version: int)
    | DoDelete(key: Key, version: int)
    | DoConsume
    | DoLook
    | DoProduce

  /** One step of either thread; None is a panic. */
  ghost function Next(s: State, step: Step): Option<State> {
    match step
    case DoWrite(key, value, version) => Write(s, key, value, version)
    case DoCreate(key, value, version) => Create(s, key, value, version)
    case DoDelete(key, version) => Delete(s, key, version)
    case DoConsume => Some(Consume(s))
    case DoLook => Some(Look(s))
    case DoProduce => Some(Produce(s))
  }

  ghost function Run(s: State, steps: seq<Step>): Option<State>
    decreases |steps|
  {
    if steps == [] then Some(s)
    else match Next(s, steps[0])
         case None => None
         case Some(t) => Run(t, steps[1..])
  }

  /** The stored key with the greatest hash below h. */
  ghost predicate IsPredecessor(m: Store, h: KeyHash, k: Key) {
    k in m && Less(k.hash, h) && forall o {:trigger o in m} :: o in m && Less(o.hash, h) ==> Leq(o.hash, k.hash)
  }

  /** The predecessor of h gets a new version. */
  ghost function Touched(m: Store, h: KeyHash, version: int): Store {
    if k :| IsPredecessor(m, h, k) then m[k := m[k].(version := version)] else m
  }

  /** The same steps on a plain map: a write sets value and version of its key; creating and deleting also
      give the key before a new version; compaction and scanning do nothing. */
  ghost function SpecNext(rg: Range, m: Store, step: Step): Option<Store> {
    match step
    case DoWrite(key, value, version) => if key in m then Some(m[key := Stored(value, version)]) else None
    case DoCreate(key, value, version) =>
      if InRange(rg, key.hash) && (forall k :: k in m ==> k.hash != key.hash)
      then Some(Touched(m, key.hash, version)[key := Stored(value, version)]) else None
    case DoDelete(key, version) =>
      if key in m && key.hash != SentryHash(key.hash.unit) then Some(Touched(m, key.hash, version) - {key}) else None
    case DoConsume => Some(m)
    case DoLook => Some(m)
    case DoProduce => Some(m)
  }

  ghost function SpecRun(rg: Range, m: Store, steps: seq<Step>): Option<Store>
    decreases |steps|
  {
    if steps == [] then Some(m)
    else match SpecNext(rg, m, steps[0])
         case None => None
         case Some(m') => SpecRun(rg, m', steps[1..])
  }

  /** The store holds key, value and version of every active entry, and nothing else. */
  ghost predicate Holds(log: seq<Rec>, act: set<nat>, m: Store)
    requires forall i :: i in act ==> i < |log|
  {
    && (forall i {:trigger Kept(log, m, i)} :: i in act ==> Kept(log, m, i))
    && (forall key {:trigger Backed(log, act, key)} :: key in m ==> Backed(log, act, key))
  }

  ghost predicate Kept(log: seq<Rec>, m: Store, i: nat)
    requires i < |log|
  {
    log[i].e.key in m && m[log[i].e.key] == Stored(log[i].e.value, log[i].e.version)
  }

  ghost predicate Backed(log: seq<Rec>, act: set<nat>, key: Key)
    requires forall i :: i in act ==> i < |log|
  {
    exists i :: i in act && log[i].e.key == key
  }

  // ---------------------------------------------------------------- when the operations succeed

  /** Distinct active entries have distinct hashes. */
  lemma SameHashSameEntry(log: seq<Rec>, act: set<nat>, rg: Range, i: nat, j: nat)
    requires (forall k :: k in act ==> k < |log|) && Linked(log, act, rg)
    requires i in act && j in act && log[i].e.key.hash == log[j].e.key.hash
    ensures i == j
  {
    assert i == j || Before(log, i, j) || Before(log, j, i);
  }

  /** The write loop finds its entry exactly when the key is stored. */
  lemma TargetIffStored(s: State, rg: Range, m: Store, key: Key)
    requires LogInv(s, rg) && Holds(s.log, Act(s.log), m)
    ensures (exists i: nat :: IsTarget(s, key, i)) <==> key in m
    ensures forall i: nat :: IsTarget(s, key, i) ==> i in Act(s.log)
  {
    forall i: nat | IsTarget(s, key, i) ensures i in Act(s.log) && key in m {
      IndexedIffActive(s, rg, i);
      assert Kept(s.log, m, i);
    }
    if key in m {
      assert Backed(s.log, Act(s.log), key);
      var i :| i in Act(s.log) && s.log[i].e.key == key;
      IndexedIffActive(s, rg, i);
      assert IsTarget(s, key, i);
    }
  }

  /** The create loop finds a predecessor exactly when the hash is in range and not taken. */
  lemma GapIffFree(s: State, rg: Range, m: Store, key: Key)
    requires LogInv(s, rg) && Holds(s.log, Act(s.log), m)
    ensures (exists p: nat :: IsGap(s, key.hash, p)) <==>
            InRange(rg, key.hash) && forall k :: k in m ==> k.hash != key.hash
  {
    var act := Act(s.log);
    if p: nat :| IsGap(s, key.hash, p) {
      IndexedIffActive(s, rg, p);
      assert Placeable(s.log, rg, p);
      forall k | k in m ensures k.hash != key.hash {
        assert Backed(s.log, act, k);
        var j :| j in act && s.log[j].e.key == k;
        assert j == p || Before(s.log, j, p) || Before(s.log, p, j);
      }
    }
    if InRange(rg, key.hash) && forall k :: k in m ==> k.hash != key.hash {
      assert key.hash != SentryHash(key.hash.unit) by {
        assert ActiveHash(s.log, act, SentryHash(key.hash.unit));
        var z :| z in act && s.log[z].e.key.hash == SentryHash(key.hash.unit);
        assert Kept(s.log, m, z);
      }
      var p := PredecessorIsAdjacent(s.log, s.index, rg, key.hash);
      assert Resolves(s.log, act, rg, p);
      if s.log[p].e.next != rg.end {
        var j :| j in act && s.log[j].e.key.hash == s.log[p].e.next;
        assert Kept(s.log, m, j);
      }
      assert IsGap(s, key.hash, p);
    }
  }

  lemma StoredIsDeletable(s: State, rg: Range, m: Store, key: Key) returns (d: nat, p: nat)
    requires LogInv(s, rg) && Holds(s.log, Act(s.log), m)
    requires key in m && key.hash != SentryHash(key.hash.unit)
    ensures IsVictim(s, key, d) && IsPrev(s, key, p)
  {
    var act := Act(s.log);
    assert Backed(s.log, act, key);
    d :| d in act && s.log[d].e.key == key;
    assert Placeable(s.log, rg, d);
    p := PredecessorIsAdjacent(s.log, s.index, rg, key.hash);
    IndexedIffActive(s, rg, d);
    assert Before(s.log, p, d) || Before(s.log, d, p);
  }

  /** The delete loop finds both entries exactly when the key is stored and is no sentry. */
  lemma DeletableIff(s: State, rg: Range, m: Store, key: Key)
    requires LogInv(s, rg) && Holds(s.log, Act(s.log), m)
    ensures (exists d: nat, p: nat :: IsVictim(s, key, d) && IsPrev(s, key, p)) <==>
            key in m && key.hash != SentryHash(key.hash.unit)
  {
    if d: nat, p: nat :| IsVictim(s, key, d) && IsPrev(s, key, p) {
      DeleteFinds(s, rg, key, d, p);
      assert Kept(s.log, m, d);
    }
    if key in m && key.hash != SentryHash(key.hash.unit) {
      var d, p := StoredIsDeletable(s, rg, m, key);
    }
  }

  /** At most one record satisfies each search, so the loops and the step functions agree. */
  lemma WriteChooses(s: State, rg: Range, key: Key, value: seq<nat>, version: int, i: nat)
    requires LogInv(s, rg) && IsTarget(s, key, i)
    ensures i in Act(s.log) && Write(s, key, value, version) == Some(Rewrite(s, i, value, version))
  {
    IndexedIffActive(s, rg, i);
    forall j: nat | IsTarget(s, key, j) ensures j == i {
      IndexedIffActive(s, rg, j);
      SameHashSameEntry(s.log, Act(s.log), rg, i, j);
    }
  }

  lemma DeleteChooses(s: State, rg: Range, key: Key, version: int, d: nat, p: nat)
    requires LogInv(s, rg) && IsVictim(s, key, d) && IsPrev(s, key, p)
    ensures Delete(s, key, version) == Some(DeleteAt(s, d, p, version))
  {
    DeleteFinds(s, rg, key, d, p);
    forall j: nat | IsVictim(s, key, j) ensures j == d {
      IndexedIffActive(s, rg, j);
      SameHashSameEntry(s.log, Act(s.log), rg, d, j);
    }
    forall j: nat | IsPrev(s, key, j) ensures j == p {
      IndexedIffActive(s, rg, j);
      assert Placeable(s.log, rg, j) && Placeable(s.log, rg, p);
      assert j == p || Before(s.log, j, p) || Before(s.log, p, j);
    }
  }

  // ---------------------------------------------------------------- one step

  /** No other active entry has the key of entry i. */
  ghost predicate OnlyHolder(log: seq<Rec>, act: set<nat>, i: nat)
    requires i < |log| && forall j :: j in act ==> j < |log|
  {
    forall j {:trigger j in act} :: j in act && log[j].e.key == log[i].e.key ==> j == i
  }

  lemma LinkedOnlyHolder(log: seq<Rec>, act: set<nat>, rg: Range, i: nat)
    requires (forall j :: j in act ==> j < |log|) && Linked(log, act, rg) && i in act
    ensures OnlyHolder(log, act, i)
  {
    forall j | j in act && log[j].e.key == log[i].e.key ensures j == i { SameHashSameEntry(log, act, rg, i, j); }
  }

  /** A rewrite of entry i puts its new value and version under its key. */
  lemma HoldsRewrite(log: seq<Rec>, act: set<nat>, m: Store, i: nat, r: Rec)
    requires (forall j :: j in act ==> j < |log|) && Holds(log, act, m)
    requires i in act && r.e.key == log[i].e.key && OnlyHolder(log, act, i)
    ensures Holds(log + [r], act - {i} + {|log|}, m[r.e.key := Stored(r.e.value, r.e.version)])
  {
    var (log', act', m') := (log + [r], act - {i} + {|log|}, m[r.e.key := Stored(r.e.value, r.e.version)]);
    assert Kept(log, m, i);
    forall j | j in act' ensures Kept(log', m', j) {
      if j < |log| { assert Kept(log, m, j); }
    }
    forall key | key in m' ensures Backed(log', act', key) {
      if key == r.e.key { assert log'[|log|].e.key == key; } else {
        assert Backed(log, act, key);
        var j :| j in act && log[j].e.key == key;
        assert log'[j].e.key == key;
      }
    }
  }

  /** A fresh active record adds its key. */
  lemma HoldsAppend(log: seq<Rec>, act: set<nat>, m: Store, r: Rec)
    requires (forall j :: j in act ==> j < |log|) && Holds(log, act, m) && r.e.key !in m
    ensures Holds(log + [r], act + {|log|}, m[r.e.key := Stored(r.e.value, r.e.version)])
  {
    var (log', act', m') := (log + [r], act + {|log|}, m[r.e.key := Stored(r.e.value, r.e.version)]);
    forall j | j in act' ensures Kept(log', m', j) {
      if j < |log| { assert Kept(log, m, j); }
    }
    forall key | key in m' ensures Backed(log', act', key) {
      if key == r.e.key { assert log'[|log|].e.key == key; } else {
        assert Backed(log, act, key);
        var j :| j in act && log[j].e.key == key;
        assert log'[j].e.key == key;
      }
    }
  }

  /** Dropping an entry drops its key. */
  lemma HoldsErase(log: seq<Rec>, act: set<nat>, rg: Range, m: Store, d: nat)
    requires (forall j :: j in act ==> j < |log|) && Linked(log, act, rg) && Holds(log, act, m) && d in act
    ensures Holds(log, act - {d}, m - {log[d].e.key})
  {
    forall j | j in act - {d} ensures Kept(log, m - {log[d].e.key}, j) {
      assert Kept(log, m, j);
      if log[j].e.key == log[d].e.key { SameHashSameEntry(log, act, rg, d, j); }
    }
    forall key | key in m - {log[d].e.key} ensures Backed(log, act - {d}, key) {
      assert Backed(log, act, key);
      var j :| j in act && log[j].e.key == key;
      assert j in act - {d};
    }
  }

  /** Rewriting entry i with its own value and version leaves the store alone. */
  lemma HoldsMove(log: seq<Rec>, act: set<nat>, m: Store, i: nat, r: Rec)
    requires (forall j :: j in act ==> j < |log|) && Holds(log, act, m) && i in act
    requires r.e.key == log[i].e.key && r.e.value == log[i].e.value && r.e.version == log[i].e.version
    ensures Holds(log + [r], act - {i} + {|log|}, m)
  {
    var (log', act') := (log + [r], act - {i} + {|log|});
    assert Kept(log, m, i);
    forall j | j in act' ensures Kept(log', m, j) {
      if j < |log| { assert Kept(log, m, j); }
    }
    forall key | key in m ensures Backed(log', act', key) {
      assert Backed(log, act, key);
      var j :| j in act && log[j].e.key == key;
      assert log'[if j == i then |log| else j].e.key == key;
    }
  }

  lemma WriteRefines(s: State, rg: Range, m: Store, key: Key, value: seq<nat>, version: int)
    requires Inv(s, rg) && Holds(s.log, Act(s.log), m)
    ensures StepRefines(s, rg, m, DoWrite(key, value, version))
  {
    TargetIffStored(s, rg, m, key);
    if i: nat :| IsTarget(s, key, i) && Write(s, key, value, version) == Some(Rewrite(s, i, value, version)) {
      RewriteKeepsInv(s, rg, i, value, version);
      var t := Rewrite(s, i, value, version);
      LinkedOnlyHolder(s.log, Act(s.log), rg, i);
      HoldsRewrite(s.log, Act(s.log), m, i, t.log[|s.log|]);
    }
  }

  lemma CreateRefines(s: State, rg: Range, m: Store, key: Key, value: seq<nat>, version: int)
    requires Inv(s, rg) && Holds(s.log, Act(s.log), m)
    ensures StepRefines(s, rg, m, DoCreate(key, value, version))
  {
    GapIffFree(s, rg, m, key);
    if exists p: nat :: IsGap(s, key.hash, p) {
      var t := CreateOutcome(s, rg, m, key, value, version);
      SomeRefines(s, rg, m, DoCreate(key, value, version), t, WithCreated(m, key, value, version));
    } else {
      NoneRefines(s, rg, m, DoCreate(key, value, version));
    }
  }

  lemma SomeRefines(s: State, rg: Range, m: Store, step: Step, t: State, m': Store)
    requires Next(s, step) == Some(t) && SpecNext(rg, m, step) == Some(m') && Follows(s, t, rg, m')
    ensures StepRefines(s, rg, m, step)
  {
  }

  lemma NoneRefines(s: State, rg: Range, m: Store, step: Step)
    requires Next(s, step).None? && SpecNext(rg, m, step).None?
    ensures StepRefines(s, rg, m, step)
  {
  }

  lemma CreateOutcome(s: State, rg: Range, m: Store, key: Key, value: seq<nat>, version: int) returns (t: State)
    requires Inv(s, rg) && Holds(s.log, Act(s.log), m) && key !in m && exists p: nat :: IsGap(s, key.hash, p)
    ensures Create(s, key, value, version) == Some(t) && Follows(s, t, rg, WithCreated(m, key, value, version))
  {
    var p := ChosenGap(s, key, value, version);
    CreateStep(s, rg, m, p, key, value, version);
    t := CreateAt(s, p, key, value, version);
  }

  lemma ChosenGap(s: State, key: Key, value: seq<nat>, version: int) returns (p: nat)
    requires exists p: nat :: IsGap(s, key.hash, p)
    ensures IsGap(s, key.hash, p) && Create(s, key, value, version) == Some(CreateAt(s, p, key, value, version))
  {
    p :| IsGap(s, key.hash, p) && Create(s, key, value, version) == Some(CreateAt(s, p, key, value, version));
  }

  lemma CreateStep(s: State, rg: Range, m: Store, p: nat, key: Key, value: seq<nat>, version: int)
    requires Inv(s, rg) && Holds(s.log, Act(s.log), m) && IsGap(s, key.hash, p) && key !in m
    ensures Follows(s, CreateAt(s, p, key, value, version), rg, WithCreated(m, key, value, version))
  {
    CreateKeepsInv(s, rg, p, key, value, version);
    LinkedOnlyHolder(s.log, Act(s.log), rg, p);
    GapIsPredecessor(s, rg, m, key.hash, p);
    CreateHolds(s, rg, m, p, key, value, version);
  }

  /** The map after a create. */
  ghost function WithCreated(m: Store, key: Key, value: seq<nat>, version: int): Store {
    Touched(m, key.hash, version)[key := Stored(value, version)]
  }

  /** Stored keys have distinct hashes. */
  lemma DistinctHashes(s: State, rg: Range, m: Store, a: Key, b: Key)
    requires LogInv(s, rg) && Holds(s.log, Act(s.log), m) && a in m && b in m && a.hash == b.hash
    ensures a == b
  {
    assert Backed(s.log, Act(s.log), a) && Backed(s.log, Act(s.log), b);
    var i :| i in Act(s.log) && s.log[i].e.key == a;
    var j :| j in Act(s.log) && s.log[j].e.key == b;
    SameHashSameEntry(s.log, Act(s.log), rg, i, j);
  }

  /** The active entry whose range contains h, or ends at h, has the predecessor of h. */
  lemma RangeIsPredecessor(s: State, rg: Range, m: Store, h: KeyHash, p: nat)
    requires LogInv(s, rg) && Holds(s.log, Act(s.log), m) && p in Act(s.log)
    requires Less(s.log[p].e.key.hash, h) && Leq(h, s.log[p].e.next)
    ensures IsPredecessor(m, h, s.log[p].e.key)
    ensures forall version: int {:trigger Touched(m, h, version)} ::
              Touched(m, h, version) == m[s.log[p].e.key := Stored(s.log[p].e.value, version)]
  {
    var act := Act(s.log);
    assert Kept(s.log, m, p);
    forall o | o in m && Less(o.hash, h) ensures Leq(o.hash, s.log[p].e.key.hash) {
      assert Backed(s.log, act, o);
      var j :| j in act && s.log[j].e.key == o;
      assert j == p || Before(s.log, j, p) || Before(s.log, p, j);
    }
    forall k | IsPredecessor(m, h, k) ensures k == s.log[p].e.key {
      DistinctHashes(s, rg, m, k, s.log[p].e.key);
    }
  }

  lemma GapIsPredecessor(s: State, rg: Range, m: Store, h: KeyHash, p: nat)
    requires LogInv(s, rg) && Holds(s.log, Act(s.log), m) && IsGap(s, h, p)
    ensures p in Act(s.log)
    ensures forall version: int {:trigger Touched(m, h, version)} ::
              Touched(m, h, version) == m[s.log[p].e.key := Stored(s.log[p].e.value, version)]
  {
    IndexedIffActive(s, rg, p);
    RangeIsPredecessor(s, rg, m, h, p);
  }

  lemma CreateHolds(s: State, rg: Range, m: Store, p: nat, key: Key, value: seq<nat>, version: int)
    requires Holds(s.log, Act(s.log), m) && p in Act(s.log) && key !in m && OnlyHolder(s.log, Act(s.log), p)
    requires Touched(m, key.hash, version) == m[s.log[p].e.key := Stored(s.log[p].e.value, version)]
    ensures Holds(CreateAt(s, p, key, value, version).log, Act(s.log) - {p} + {|s.log|, |s.log| + 1},
                  WithCreated(m, key, value, version))
  {
    var (n, act) := (|s.log|, Act(s.log));
    var t := CreateAt(s, p, key, value, version);
    var m1 := m[key := Stored(value, version)];
    HoldsAppend(s.log, act, m, t.log[n]);
    assert Kept(s.log, m, p);
    HoldsRewrite(s.log + [t.log[n]], act + {n}, m1, p, t.log[n + 1]);
    assert act - {p} + {n, n + 1} == act + {n} - {p} + {n + 1};
    assert t.log == s.log + [t.log[n]] + [t.log[n + 1]];
    assert m1[s.log[p].e.key := Stored(s.log[p].e.value, version)] == WithCreated(m, key, value, version);
  }

  lemma DeleteRefines(s: State, rg: Range, m: Store, key: Key, version: int)
    requires Inv(s, rg) && Holds(s.log, Act(s.log), m)
    ensures StepRefines(s, rg, m, DoDelete(key, version))
  {
    DeletableIff(s, rg, m, key);
    if exists d: nat, p: nat :: IsVictim(s, key, d) && IsPrev(s, key, p) {
      var t := DeleteOutcome(s, rg, m, key, version);
      SomeRefines(s, rg, m, DoDelete(key, version), t, Touched(m, key.hash, version) - {key});
    } else {
      NoneRefines(s, rg, m, DoDelete(key, version));
    }
  }

  lemma DeleteOutcome(s: State, rg: Range, m: Store, key: Key, version: int) returns (t: State)
    requires Inv(s, rg) && Holds(s.log, Act(s.log), m)
    requires exists d: nat, p: nat :: IsVictim(s, key, d) && IsPrev(s, key, p)
    ensures Delete(s, key, version) == Some(t) && Follows(s, t, rg, Touched(m, key.hash, version) - {key})
  {
    var d: nat, p: nat :| IsVictim(s, key, d) && IsPrev(s, key, p)
        && Delete(s, key, version) == Some(DeleteAt(s, d, p, version));
    DeleteKeepsInv(s, rg, key, d, p, version);
    assert Placeable(s.log, rg, p);
    RangeIsPredecessor(s, rg, m, key.hash, p);
    DeleteHolds(s, rg, m, d, p, version);
    t := DeleteAt(s, d, p, version);
  }

  lemma DeleteHolds(s: State, rg: Range, m: Store, d: nat, p: nat, version: int)
    requires LogInv(s, rg) && Holds(s.log, Act(s.log), m) && d in Act(s.log) && p in Act(s.log) && d != p
    requires Touched(m, s.log[d].e.key.hash, version) == m[s.log[p].e.key := Stored(s.log[p].e.value, version)]
    ensures Holds(DeleteAt(s, d, p, version).log, Act(s.log) - {d, p} + {|s.log|},
                  Touched(m, s.log[d].e.key.hash, version) - {s.log[d].e.key})
  {
    var (n, act, v) := (|s.log|, Act(s.log), s.log[d].e.key);
    var t := DeleteAt(s, d, p, version);
    HoldsErase(s.log, act, rg, m, d);
    LinkedOnlyHolder(s.log, act, rg, p);
    HoldsRewrite(s.log, act - {d}, m - {v}, p, t.log[n]);
    assert act - {d, p} + {n} == act - {d} - {p} + {n};
    assert s.log[p].e.key != v;
    assert (m - {v})[s.log[p].e.key := Stored(s.log[p].e.value, version)] == Touched(m, v.hash, version) - {v};
  }

  lemma ConsumeRefines(s: State, rg: Range, m: Store)
    requires Inv(s, rg) && Holds(s.log, Act(s.log), m)
    ensures StepRefines(s, rg, m, DoConsume)
  {
    var t := Consume(s);
    assert Follows(s, t, rg, m) by {
      ConsumeKeepsInv(s, rg);
      ConsumeAppends(s);
      if s.queue != [] && JobLive(s, s.queue[0]) { ConsumeHolds(s, m); }
    }
    SomeRefines(s, rg, m, DoConsume, t, m);
  }

  lemma ConsumeAppends(s: State)
    ensures s.log <= Consume(s).log && s.snEnd <= Consume(s).snEnd
  {
  }

  lemma ConsumeHolds(s: State, m: Store)
    requires Holds(s.log, Act(s.log), m) && s.queue != [] && JobLive(s, s.queue[0])
    requires var i := s.queue[0].e.sn;
             i in Act(s.log) && s.queue[0].e == s.log[i].e && Act(Consume(s).log) == Act(s.log) - {i} + {|s.log|}
    ensures Holds(Consume(s).log, Act(Consume(s).log), m)
  {
    HoldsMove(s.log, Act(s.log), m, s.queue[0].e.sn, Consume(s).log[|s.log|]);
  }

  /** The scanner changes neither the log nor the window. */
  lemma ScannerRefines(s: State, rg: Range, m: Store, step: Step)
    requires Inv(s, rg) && Holds(s.log, Act(s.log), m) && (step == DoLook || step == DoProduce)
    ensures StepRefines(s, rg, m, step)
  {
    var t := Next(s, step).value;
    assert t.log == s.log && t.snStart == s.snStart && t.snEnd == s.snEnd;
    assert Inv(t, rg) by { if step == DoLook { LookKeepsInv(s, rg); } else { ProduceKeepsInv(s, rg); } }
    SomeRefines(s, rg, m, step, t, m);
  }

  /** What a single step promises: it panics exactly when the map operation is undefined, and
      otherwise keeps the invariant, acts on the store as that operation does, only appends to
      the log, and never moves the window backwards or past the end. */
  ghost predicate StepRefines(s: State, rg: Range, m: Store, step: Step) {
    match Next(s, step)
    case None => SpecNext(rg, m, step).None?
    case Some(t) =>
      SpecNext(rg, m, step).Some? && Follows(s, t, rg, SpecNext(rg, m, step).value)
  }

  ghost predicate Follows(s: State, t: State, rg: Range, m: Store) {
    && Inv(t, rg) && Holds(t.log, Act(t.log), m)
    && s.log <= t.log && s.snStart <= t.snStart <= t.snEnd
  }

  lemma EveryStepRefines(s: State, rg: Range, m: Store, step: Step)
    requires Inv(s, rg) && Holds(s.log, Act(s.log), m)
    ensures StepRefines(s, rg, m, step)
  {
    match step
    case DoWrite(key, value, version) => WriteRefines(s, rg, m, key, value, version);
    case DoCreate(key, value, version) => CreateRefines(s, rg, m, key, value, version);
    case DoDelete(key, version) => DeleteRefines(s, rg, m, key, version);
    case DoConsume => ConsumeRefines(s, rg, m);
    case DoLook => ScannerRefines(s, rg, m, step);
    case DoProduce => ScannerRefines(s, rg, m, step);
  }

  // ---------------------------------------------------------------- whole runs

  /** Every run panics exactly when the plain map run is undefined, and otherwise ends in a
      state that satisfies the invariant and holds exactly the map's final contents, versions
      included. */
  lemma {:induction false} RunRefines(s: State, rg: Range, m: Store, steps: seq<Step>)
    requires Inv(s, rg) && Holds(s.log, Act(s.log), m)
    ensures Run(s, steps).Some? <==> SpecRun(rg, m, steps).Some?
    ensures Run(s, steps).Some? ==> Follows(s, Run(s, steps).value, rg, SpecRun(rg, m, steps).value)
    decreases |steps|
  {
    if steps != [] {
      EveryStepRefines(s, rg, m, steps[0]);
      if Next(s, steps[0]).Some? {
        RunRefines(Next(s, steps[0]).value, rg, SpecNext(rg, m, steps[0]).value, steps[1..]);
      }
    }
  }

  // ---------------------------------------------------------------- the chain as a list

  /** The entries of a lower part of the active set, in hash order, each linked to the next. */
  lemma {:induction false} ChainOf(log: seq<Rec>, act: set<nat>, rg: Range, b: set<nat>) returns (c: seq<nat>)
    requires (forall i :: i in act ==> i < |log|) && Linked(log, act, rg) && b <= act
    requires forall i, j :: i in act && j in b && Less(log[i].e.key.hash, log[j].e.key.hash) ==> i in b
    ensures |c| == |b| && (forall i :: i in b <==> i in c) && (forall k :: 0 <= k < |c| ==> c[k] in b)
    ensures forall k :: 0 <= k < |c| - 1 ==> log[c[k]].e.next == log[c[k + 1]].e.key.hash
    ensures c != [] ==> forall i :: i in b ==> Leq(log[i].e.key.hash, log[c[|c| - 1]].e.key.hash)
    decreases |b|
  {
    if b == {} { return []; }
    var g := Greatest(log, b);
    var b' := b - {g};
    forall i, j | i in act && j in b' && Less(log[i].e.key.hash, log[j].e.key.hash) ensures i in b' {
      assert i in b && i != g;
    }
    var c' := ChainOf(log, act, rg, b');
    if c' != [] {
      var l := c'[|c'| - 1];
      assert Before(log, l, g) || Before(log, g, l);
      assert Resolves(log, act, rg, l) && Placeable(log, rg, l) && Placeable(log, rg, g);
      var j :| j in act && log[j].e.key.hash == log[l].e.next;
      assert j !in b';
      assert j == g || Before(log, j, g) || Before(log, g, j);
      assert j == g;
    }
    c := c' + [g];
  }

  /** All active entries, each once, in hash order: every link is the next entry's key hash and
      the last link is the shard's upper bound. */
  lemma ActiveChain(s: State, rg: Range) returns (c: seq<nat>)
    requires LogInv(s, rg)
    ensures |c| == |Act(s.log)| && (forall i :: i in Act(s.log) <==> i in c)
    ensures forall k :: 0 <= k < |c| ==> c[k] < |s.log|
    ensures forall k :: 0 <= k < |c| - 1 ==>
              && s.log[c[k]].e.next == s.log[c[k + 1]].e.key.hash
              && Less(s.log[c[k]].e.key.hash, s.log[c[k + 1]].e.key.hash)
    ensures c != [] ==> s.log[c[|c| - 1]].e.next == rg.end
  {
    var act := Act(s.log);
    c := ChainOf(s.log, act, rg, act);
    forall k | 0 <= k < |c| ensures c[k] in act && Placeable(s.log, rg, c[k]) { }
    if c != [] {
      var l := c[|c| - 1];
      assert Resolves(s.log, act, rg, l) && Placeable(s.log, rg, l);
      assert forall i :: i in act ==> s.log[i].e.key.hash != s.log[l].e.next;
    }
  }

  // ---------------------------------------------------------------- the initial state

  /** The sentry of unit u: empty value, 32-byte key, linked to the next sentry. */
  function Sentry(rg: Range, i: nat): Entry {
    Entry(Key(SentryHash(rg.lo + i), 32), [], if rg.lo + i + 1 < rg.hi then SentryHash(rg.lo + i + 1)
        else rg.end, 0, i, [])
  }

  /** A fresh shard: one sentry of 88 bytes, eleven words, per unit, nothing scanned, nothing compacted. */
  function Genesis(rg: Range): State
    requires rg.lo <= rg.hi
  {
    var log := seq(rg.hi - rg.lo, i requires i >= 0 => Rec(11 * i, Sentry(rg, i)));
    State(log, 11 * (rg.hi - rg.lo), set i | 0 <= i < rg.hi - rg.lo :: IndexKV(rg.lo + i, 0, 11 * i),
          0, rg.hi - rg.lo, 0, [], 0, false)
  }

  ghost function Upto(n: nat): (r: set<nat>)
    ensures forall i: nat :: i in r <==> i < n
  {
    if n == 0 then {} else Upto(n - 1) + {n - 1}
  }

  lemma {:induction false} NothingDropped(log: seq<Rec>)
    requires forall i :: 0 <= i < |log| ==> log[i].e.dsns == []
    ensures DeactivatesActive(log) && Act(log) == Upto(|log|)
    decreases |log|
  {
    if log != [] {
      NothingDropped(log[..|log| - 1]);
      assert Elems(log[|log| - 1].e.dsns) == {};
    }
  }

  lemma GenesisLinked(rg: Range, act: set<nat>)
    requires rg.lo < rg.hi && Less(SentryHash(rg.hi - 1), rg.end)
    requires forall i :: i in act <==> 0 <= i < rg.hi - rg.lo
    ensures Linked(Genesis(rg).log, act, rg)
  {
    var log := Genesis(rg).log;
    forall u | rg.lo <= u < rg.hi ensures ActiveHash(log, act, SentryHash(u)) {
      assert log[u - rg.lo].e.key.hash == SentryHash(u);
    }
    forall i | i in act ensures Resolves(log, act, rg, i) && Placeable(log, rg, i) {
      if rg.lo + i + 1 < rg.hi { assert log[i + 1].e.key.hash == log[i].e.next; }
    }
    forall i, j | i in act && j in act && i != j ensures Before(log, i, j) || Before(log, j, i) { }
  }

  lemma GenesisIndexed(rg: Range, act: set<nat>)
    requires rg.lo < rg.hi && forall i :: i in act <==> 0 <= i < rg.hi - rg.lo
    ensures Indexed(Genesis(rg).log, act, Genesis(rg).index)
  {
    var s := Genesis(rg);
    forall kv | kv in s.index ensures Owned(s.log, act, kv) {
      var i :| 0 <= i < rg.hi - rg.lo && kv == IndexKV(rg.lo + i, 0, 11 * i);
      assert KV(s.log[i]) == kv;
    }
  }

  /** A fresh shard stores its sentries, with empty values at version 0. */
  ghost function Sentries(rg: Range): Store {
    map u | rg.lo <= u < rg.hi :: Key(SentryHash(u), 32) := Stored([], 0)
  }

  lemma GenesisHolds(rg: Range, act: set<nat>)
    requires rg.lo < rg.hi && forall i :: i in act <==> 0 <= i < rg.hi - rg.lo
    ensures Holds(Genesis(rg).log, act, Sentries(rg))
  {
    var log := Genesis(rg).log;
    forall i | i in act ensures Kept(log, Sentries(rg), i) {
      assert log[i].e.key == Key(SentryHash(rg.lo + i), 32);
    }
    forall key | key in Sentries(rg) ensures Backed(log, act, key) {
      assert log[key.hash.unit - rg.lo].e.key == key;
    }
  }

  lemma GenesisInv(rg: Range)
    requires rg.lo < rg.hi && Less(SentryHash(rg.hi - 1), rg.end)
    ensures Inv(Genesis(rg), rg) && Holds(Genesis(rg).log, Act(Genesis(rg).log), Sentries(rg))
  {
    var log := Genesis(rg).log;
    NothingDropped(log);
    GenesisLinked(rg, Act(log));
    GenesisIndexed(rg, Act(log));
    GenesisHolds(rg, Act(log));
    GenesisPlaced(rg);
  }

  lemma GenesisPlaced(rg: Range)
    requires rg.lo < rg.hi
    ensures Placed(Genesis(rg).log, Genesis(rg).endPos)
  {
    var log := Genesis(rg).log;
    forall i | 0 <= i < |log| ensures log[i].pos == 11 * i && EntryLen(log[i].e) == 11 { }
  }

  /** Every reachable shard state: from the sentries, after any run that does not panic. */
  lemma ReachableSafe(rg: Range, steps: seq<Step>)
    requires rg.lo < rg.hi && Less(SentryHash(rg.hi - 1), rg.end)
    requires Run(Genesis(rg), steps).Some?
    ensures var t := Run(Genesis(rg), steps).value;
            && Inv(t, rg) && SpecRun(rg, Sentries(rg), steps).Some?
            && Holds(t.log, Act(t.log), SpecRun(rg, Sentries(rg), steps).value)
            && t.snStart <= t.snEnd == |t.log|
            && (forall i :: 0 <= i < t.snStart ==> i !in Act(t.log))
            && (forall j1, a1, j2, a2 |
                  && 0 <= j1 < |t.log| && 0 <= j2 < |t.log|
                  && 0 <= a1 < |t.log[j1].e.dsns| && 0 <= a2 < |t.log[j2].e.dsns|
                  && t.log[j1].e.dsns[a1] == t.log[j2].e.dsns[a2]
                  :: j1 == j2 && a1 == a2)
  {
    GenesisInv(rg);
    RunRefines(Genesis(rg), rg, Sentries(rg), steps);
    var t := Run(Genesis(rg), steps).value;
    forall i | 0 <= i < t.snStart ensures i !in Act(t.log) { BelowWindowInactive(t, rg, i); }
    forall j1, a1, j2, a2 |
      && 0 <= j1 < |t.log| && 0 <= j2 < |t.log|
      && 0 <= a1 < |t.log[j1].e.dsns| && 0 <= a2 < |t.log[j2].e.dsns|
      && t.log[j1].e.dsns[a1] == t.log[j2].e.dsns[a2]
      ensures j1 == j2 && a1 == a2
    {
      DeactivatedAtMostOnce(t.log, j1, a1, j2, a2);
    }
  }
}
