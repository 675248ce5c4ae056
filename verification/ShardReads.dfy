/** What `create_kv` reads. The accessor it hands to the index keeps the entry it settles on in the
    one read buffer of the updater and asks to stop. The hybrid index stops; the in-memory index
    stops among the values of the key itself and then still visits the key before, so the buffer is
    overwritten. The in-memory index is followed here over whole runs. */
module ShardReads {
  import opened Basics
  import opened ShardLog
  import opened ShardProofs
  import opened ShardRuns

  /** The unit of h has a smaller truncated key. */
  ghost predicate HasSmaller(index: set<IndexKV>, h: KeyHash) {
    exists o :: o in index && o.unit == h.unit && o.k < h.k
  }

  /** The search of the in-memory index for the room for h goes on after it has stopped. */
  ghost predicate Overruns(inMemory: bool, s: State, h: KeyHash) {
    inMemory && HasSmaller(s.index, h) && exists p: nat :: IsGap(s, h, p) && s.log[p].e.key.hash.k == h.k
  }

  /** After the search has settled on record p, the read buffer holds record b. */
  ghost predicate LastRead(inMemory: bool, s: State, h: KeyHash, p: nat, b: nat) {
    && b < |s.log|
    && if Overruns(inMemory, s, h)
       then Adjacent(s.index, h, KV(s.log[b])) && s.log[b].e.key.hash.k < h.k
       else b == p
  }

  // ---------------------------------------------------------------- one create

  /** Two active entries are in order. */
  lemma InOrder(s: State, rg: Range, i: nat, j: nat)
    requires LogInv(s, rg) && i in Act(s.log) && j in Act(s.log)
    ensures i == j || Before(s.log, i, j) || Before(s.log, j, i)
  {
  }

  lemma GapUnique(s: State, rg: Range, h: KeyHash, p: nat, q: nat)
    requires LogInv(s, rg) && IsGap(s, h, p) && IsGap(s, h, q)
    ensures p == q && p in Act(s.log)
  {
    IndexedIffActive(s, rg, p);
    IndexedIffActive(s, rg, q);
    InOrder(s, rg, p, q);
  }

  /** An overwritten buffer holds an entry that lies, with its link, below the room found. */
  lemma OverrunReadsBelow(s: State, rg: Range, h: KeyHash, p: nat, b: nat)
    requires LogInv(s, rg) && IsGap(s, h, p) && LastRead(true, s, h, p, b) && Overruns(true, s, h)
    ensures b != p && Less(s.log[b].e.next, h)
  {
    var q: nat :| IsGap(s, h, q) && s.log[q].e.key.hash.k == h.k;
    GapUnique(s, rg, h, p, q);
    IndexedIffActive(s, rg, b);
    InOrder(s, rg, b, p);
  }

  lemma AppendedActive(s: State, p: nat, b: nat, key: Key, value: seq<nat>, version: int)
    requires p < |s.log| && b < |s.log| && s.log[b].e.sn == b
    ensures |s.log| in Act(CreateFrom(s, p, b, key, value, version).log)
  {
    var t := CreateFrom(s, p, b, key, value, version);
    ActAppend(s.log, t.log[|s.log|]);
    ActAppend(s.log + [t.log[|s.log|]], t.log[|s.log| + 1]);
    assert t.log == s.log + [t.log[|s.log|]] + [t.log[|s.log| + 1]];
  }

  /** A create that overruns links the new entry backwards. */
  lemma OverrunBreaks(s: State, rg: Range, p: nat, b: nat, key: Key, value: seq<nat>, version: int)
    requires LogInv(s, rg) && IsGap(s, key.hash, p) && LastRead(true, s, key.hash, p, b) && Overruns(true, s, key.hash)
    ensures var t := CreateFrom(s, p, b, key, value, version);
            |s.log| in Act(t.log) && !Placeable(t.log, rg, |s.log|)
  {
    OverrunReadsBelow(s, rg, key.hash, p, b);
    AppendedActive(s, p, b, key, value, version);
  }

  /** Creating is the create step, and keeps the invariant, exactly when it does not overrun. */
  lemma CreateRightIff(inMemory: bool, s: State, rg: Range, p: nat, b: nat, key: Key, value: seq<nat>, version: int)
    requires Inv(s, rg) && IsGap(s, key.hash, p) && LastRead(inMemory, s, key.hash, p, b)
    ensures CreateFrom(s, p, b, key, value, version) == CreateAt(s, p, key, value, version) <==>
            !Overruns(inMemory, s, key.hash)
    ensures Inv(CreateFrom(s, p, b, key, value, version), rg) <==> !Overruns(inMemory, s, key.hash)
  {
    CreateKeepsInv(s, rg, p, key, value, version);
    if Overruns(inMemory, s, key.hash) {
      OverrunBreaks(s, rg, p, b, key, value, version);
      BackwardLinkUnsound(CreateFrom(s, p, b, key, value, version), rg, |s.log|);
    }
  }

  lemma BackwardLinkUnsound(t: State, rg: Range, i: nat)
    requires i in Act(t.log) && !Placeable(t.log, rg, i)
    ensures !Inv(t, rg)
  {
  }

  // ---------------------------------------------------------------- in terms of the stored keys

  /** A stored key shares the truncated hash of h and lies below it; the sentry of the unit is then
      the smaller truncated key, unless that is zero. */
  ghost predicate Clash(m: Store, h: KeyHash) {
    h.k > 0 && exists o :: o in m && o.hash.unit == h.unit && o.hash.k == h.k && Less(o.hash, h)
  }

  lemma SentryIsSmaller(s: State, rg: Range, h: KeyHash)
    requires LogInv(s, rg) && rg.lo <= h.unit < rg.hi
    ensures HasSmaller(s.index, h) <==> h.k > 0
  {
    assert ActiveHash(s.log, Act(s.log), SentryHash(h.unit));
    var z :| z in Act(s.log) && s.log[z].e.key.hash == SentryHash(h.unit);
    IndexedIffActive(s, rg, z);
    assert KV(s.log[z]).k == 0;
  }

  /** The room for h starts at the greatest entry below h, so that one shares the truncated hash as
      soon as any stored key below h does. */
  lemma GapSharesIff(s: State, rg: Range, m: Store, h: KeyHash, p: nat)
    requires LogInv(s, rg) && Holds(s.log, Act(s.log), m) && IsGap(s, h, p)
    ensures s.log[p].e.key.hash.k == h.k <==>
            exists o :: o in m && o.hash.unit == h.unit && o.hash.k == h.k && Less(o.hash, h)
  {
    IndexedIffActive(s, rg, p);
    assert Kept(s.log, m, p);
    if o :| o in m && o.hash.unit == h.unit && o.hash.k == h.k && Less(o.hash, h) {
      assert Backed(s.log, Act(s.log), o);
      var j :| j in Act(s.log) && s.log[j].e.key == o;
      assert j == p || Before(s.log, j, p) || Before(s.log, p, j);
    }
  }

  /** What a caller can test: creating h overruns exactly when a stored key clashes with it. */
  lemma OverrunIff(s: State, rg: Range, m: Store, h: KeyHash, p: nat)
    requires LogInv(s, rg) && Holds(s.log, Act(s.log), m) && IsGap(s, h, p)
    ensures Overruns(true, s, h) <==> Clash(m, h)
  {
    GapSharesIff(s, rg, m, h, p);
    IndexedIffActive(s, rg, p);
    assert Placeable(s.log, rg, p);
    SentryIsSmaller(s, rg, h);
    if q: nat :| IsGap(s, h, q) && s.log[q].e.key.hash.k == h.k { GapUnique(s, rg, h, p, q); }
  }

  // ---------------------------------------------------------------- whole runs

  /** A step of a shard with either index. */
  ghost predicate Steps(inMemory: bool, s: State, step: Step, t: State) {
    if step.DoCreate? then
      exists p: nat, b: nat :: Creates(inMemory, s, step.key, step.value, step.version, p, b, t)
    else Next(s, step) == Some(t)
  }

  ghost predicate Creates(inMemory: bool, s: State, key: Key, value: seq<nat>, version: int, p: nat, b: nat, t: State) {
    && IsGap(s, key.hash, p) && LastRead(inMemory, s, key.hash, p, b)
    && t == CreateFrom(s, p, b, key, value, version)
  }

  /** Every run of these steps stays within the invariant. */
  ghost predicate Sound(s: State, rg: Range, steps: seq<Step>)
    decreases |steps|
  {
    && Inv(s, rg)
    && (steps != [] ==> forall t {:trigger Steps(true, s, steps[0], t)} ::
          Steps(true, s, steps[0], t) ==> Sound(t, rg, steps[1..]))
  }

  /** None of the creates meets a clash in the map, run on its own. */
  ghost predicate Clear(rg: Range, m: Store, steps: seq<Step>)
    decreases |steps|
  {
    steps != [] ==>
      && !(steps[0].DoCreate? && Clash(m, steps[0].key.hash))
      && (SpecNext(rg, m, steps[0]).Some? ==> Clear(rg, SpecNext(rg, m, steps[0]).value, steps[1..]))
  }

  /** A record to read exists whichever way the search went. */
  lemma SomethingRead(inMemory: bool, s: State, h: KeyHash, p: nat, rg: Range) returns (b: nat)
    requires LogInv(s, rg) && IsGap(s, h, p)
    ensures LastRead(inMemory, s, h, p, b)
  {
    b := p;
    if Overruns(inMemory, s, h) {
      var below := set o | o in s.index && o.unit == h.unit && o.k < h.k;
      var x :| x in s.index && x.unit == h.unit && x.k < h.k;
      assert x in below;
      var o := LargestKey(below);
      assert Owned(s.log, Act(s.log), o);
      b :| b in Act(s.log) && KV(s.log[b]) == o;
    }
  }

  lemma {:induction false} LargestKey(kvs: set<IndexKV>) returns (o: IndexKV)
    requires kvs != {}
    ensures o in kvs && forall x :: x in kvs ==> x.k <= o.k
  {
    o :| o in kvs;
    if kvs != {o} {
      var r := LargestKey(kvs - {o});
      assert kvs == (kvs - {o}) + {o};
      if r.k > o.k { o := r; }
    }
  }

  lemma CreateMeans(s: State, rg: Range, key: Key, value: seq<nat>, version: int, p: nat)
    requires LogInv(s, rg) && IsGap(s, key.hash, p)
    ensures Create(s, key, value, version) == Some(CreateAt(s, p, key, value, version))
  {
    var q := ChosenGap(s, key, value, version);
    GapUnique(s, rg, key.hash, p, q);
  }

  /** Without a clash the step is the plain one. */
  lemma ClearStep(s: State, rg: Range, m: Store, step: Step, t: State)
    requires Inv(s, rg) && Holds(s.log, Act(s.log), m)
    requires !(step.DoCreate? && Clash(m, step.key.hash))
    ensures Steps(true, s, step, t) <==> Next(s, step) == Some(t)
  {
    if step.DoCreate? {
      if exists p: nat :: IsGap(s, step.key.hash, p) {
        var p: nat :| IsGap(s, step.key.hash, p);
        OverrunIff(s, rg, m, step.key.hash, p);
        CreateMeans(s, rg, step.key, step.value, step.version, p);
        ClearCreate(s, rg, step, p, t);
      }
    }
  }

  lemma ClearCreate(s: State, rg: Range, step: Step, p: nat, t: State)
    requires LogInv(s, rg) && step.DoCreate? && IsGap(s, step.key.hash, p) && !Overruns(true, s, step.key.hash)
    ensures Steps(true, s, step, t) <==> t == CreateAt(s, p, step.key, step.value, step.version)
  {
    if t == CreateAt(s, p, step.key, step.value, step.version) {
      assert Creates(true, s, step.key, step.value, step.version, p, p, t);
    }
    if Steps(true, s, step, t) {
      var q: nat, b: nat :| Creates(true, s, step.key, step.value, step.version, q, b, t);
      GapUnique(s, rg, step.key.hash, p, q);
    }
  }

  /** With a clash the step leaves the invariant. */
  lemma ClashingStep(s: State, rg: Range, m: Store, step: Step) returns (t: State)
    requires Inv(s, rg) && Holds(s.log, Act(s.log), m) && SpecNext(rg, m, step).Some?
    requires step.DoCreate? && Clash(m, step.key.hash)
    ensures Steps(true, s, step, t) && !Inv(t, rg)
  {
    GapIffFree(s, rg, m, step.key);
    var p: nat :| IsGap(s, step.key.hash, p);
    OverrunIff(s, rg, m, step.key.hash, p);
    var b := SomethingRead(true, s, step.key.hash, p, rg);
    t := CreateFrom(s, p, b, step.key, step.value, step.version);
    assert Creates(true, s, step.key, step.value, step.version, p, b, t);
    CreateRightIff(true, s, rg, p, b, step.key, step.value, step.version);
  }

  /** With the in-memory index, runs that the map allows stay within the invariant exactly when no
      create clashes with a stored key. */
  lemma {:induction false} SoundIffClear(s: State, rg: Range, m: Store, steps: seq<Step>)
    requires Inv(s, rg) && Holds(s.log, Act(s.log), m) && SpecRun(rg, m, steps).Some?
    ensures Sound(s, rg, steps) <==> Clear(rg, m, steps)
    decreases |steps|
  {
    if steps == [] { return; }
    var step := steps[0];
    if step.DoCreate? && Clash(m, step.key.hash) {
      var t := ClashingStep(s, rg, m, step);
      assert !Sound(t, rg, steps[1..]);
    } else {
      EveryStepRefines(s, rg, m, step);
      var u := Next(s, step).value;
      ClearStep(s, rg, m, step, u);
      forall t | Steps(true, s, step, t) ensures t == u { ClearStep(s, rg, m, step, t); }
      SoundIffClear(u, rg, SpecNext(rg, m, step).value, steps[1..]);
    }
  }

  /** The states that a run can end in. */
  ghost predicate Reaches(s: State, steps: seq<Step>, t: State)
    decreases |steps|
  {
    if steps == [] then t == s
    else exists u :: Steps(true, s, steps[0], u) && Reaches(u, steps[1..], t)
  }

  /** And then they end where the plain run ends. */
  lemma {:induction false} ClearRun(s: State, rg: Range, m: Store, steps: seq<Step>, t: State)
    requires Inv(s, rg) && Holds(s.log, Act(s.log), m) && Clear(rg, m, steps)
    ensures Reaches(s, steps, t) <==> Run(s, steps) == Some(t)
    decreases |steps|
  {
    if steps == [] { return; }
    forall u ensures Steps(true, s, steps[0], u) <==> Next(s, steps[0]) == Some(u) {
      ClearStep(s, rg, m, steps[0], u);
    }
    EveryStepRefines(s, rg, m, steps[0]);
    if Next(s, steps[0]).Some? {
      ClearRun(Next(s, steps[0]).value, rg, SpecNext(rg, m, steps[0]).value, steps[1..], t);
    }
  }

  // ---------------------------------------------------------------- an input that fails

  /** Two keys of unit 0 whose hashes differ only in the part that the index drops. */
  const First := Key(KeyHash(0, 5, 1), 8)
  const Second := Key(KeyHash(0, 5, 2), 8)
  const OneUnit := Range(0, 1, KeyHash(1, 0, 0))

  /** The shard after the first of them was created, behind the sentry. */
  function AfterFirst(): State { CreateAt(Genesis(OneUnit), 0, First, [7], 1) }

  lemma CreatedOnce(s: State, rg: Range, key: Key, value: seq<nat>, version: int, p: nat)
    requires Inv(s, rg) && IsGap(s, key.hash, p)
    ensures Inv(CreateAt(s, p, key, value, version), rg)
    ensures Run(s, [DoCreate(key, value, version)]) == Some(CreateAt(s, p, key, value, version))
  {
    CreateKeepsInv(s, rg, p, key, value, version);
    CreateMeans(s, rg, key, value, version, p);
    RunOne(s, DoCreate(key, value, version), CreateAt(s, p, key, value, version));
  }

  lemma RunOne(s: State, step: Step, t: State)
    requires Next(s, step) == Some(t)
    ensures Run(s, [step]) == Some(t)
  {
    assert [step][1..] == [];
  }

  lemma GenesisIndex()
    ensures Genesis(OneUnit).index == {IndexKV(0, 0, 0)}
  {
    var index := Genesis(OneUnit).index;
    forall kv | kv in index ensures kv == IndexKV(0, 0, 0) { }
    assert forall i | 0 <= i < OneUnit.hi - OneUnit.lo :: IndexKV(OneUnit.lo + i, 0, 11 * i) in index;
    assert IndexKV(OneUnit.lo + 0, 0, 11 * 0) in index;
  }

  lemma FirstCreated()
    ensures Inv(AfterFirst(), OneUnit) && Run(Genesis(OneUnit), [DoCreate(First, [7], 1)]) == Some(AfterFirst())
  {
    GenesisInv(OneUnit);
    GenesisIndex();
    CreatedOnce(Genesis(OneUnit), OneUnit, First, [7], 1, 0);
  }

  lemma SecondRead()
    ensures var s := AfterFirst();
            && |s.log| == 3 && s.log[1].e.key == First && s.log[2].e.key == Key(SentryHash(0), 32)
            && s.log[2].e.sn == 2 && s.log[2].e.next == First.hash
            && IsGap(s, Second.hash, 1) && Overruns(true, s, Second.hash) && LastRead(true, s, Second.hash, 1, 2)
  {
    var s := AfterFirst();
    GenesisIndex();
    var (a, b) := (KV(s.log[1]), KV(s.log[2]));
    assert s.index == {a, b};
    assert IsGap(s, Second.hash, 1);
    assert b in s.index && b.unit == 0 && b.k == 0;
  }

  /** Created one after the other in a fresh shard, the second is built from the sentry that follows
      the first in the enumeration: it is linked backwards, the sentry is dropped in place of the
      first key, and the index leads from the first key to a copy of the sentry. */
  lemma SecondCreateFails()
    ensures Run(Genesis(OneUnit), [DoCreate(First, [7], 1)]) == Some(AfterFirst())
    ensures var s := AfterFirst();
            && IsGap(s, Second.hash, 1) && LastRead(true, s, Second.hash, 1, 2)
            && var t := CreateFrom(s, 1, 2, Second, [8], 1);
            && t != CreateAt(s, 1, Second, [8], 1) && !Inv(t, OneUnit)
            && t.log[3].e.next == First.hash && t.log[4].e.dsns == [2]
            && t.log[4].e.key == Key(SentryHash(0), 32) && IndexKV(0, 5, t.log[4].pos) in t.index
  {
    FirstCreated();
    SecondRead();
    CreateRightIff(true, AfterFirst(), OneUnit, 1, 2, Second, [8], 1);
  }
}
