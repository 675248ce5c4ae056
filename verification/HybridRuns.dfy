/** Runs of a shard with the hybrid index: the steps of the updater and of the scanner, lookups of the
    prefetcher and merges, in any order. */
module HybridRuns {
  import opened Basics
  import opened ShardLog
  import opened ShardProofs
  import opened ShardRuns
  import opened ShardReads
  import opened HybridShard
  import H = Hybrid
  import F = HybridFile
  import U = HybridUnit

  type Units = map<nat, U.UnitState>

  datatype Joint = Joint(s: State, units: Units)

  /** A step of the shard; the merging of a unit; a lookup of the prefetcher for a block of this
      height, adjacent for a create or a delete, of the values alone for a write. */
  datatype Event = Own(step: Step) | Merge(u: nat) | Peek(h: KeyHash, height: int, adjacent: bool)

  /** The height of a block from a version number. */
  function Height(version: int): int { version / 0x100_0000 }

  /** Versions number the transactions of a block from its height on. */
  lemma HeightOf(height: nat, idx: nat)
    requires idx < 0x100_0000
    ensures Height(height * 0x100_0000 + idx) == height
  {
  }

  // ---------------------------------------------------------------- updates of the units

  function Add(units: Units, u: nat, k: nat, v: nat): Units {
    if u in units then units[u := units[u].(w := H.Added(units[u].w, k, v))] else units
  }
  function Erase(units: Units, u: nat, k: nat, v: nat): Units {
    if u in units then units[u := units[u].(w := H.Erased(units[u].w, k, v))] else units
  }
  function Change(units: Units, u: nat, k: nat, v: nat, n: nat): Units {
    if u in units then units[u := units[u].(w := Changed(units[u].w, k, v, n))] else units
  }

  function ChangeRec(units: Units, r: Rec, n: nat): Units {
    Change(units, r.e.key.hash.unit, r.e.key.hash.k, r.pos, n)
  }

  function RewriteUnits(s: State, i: nat, units: Units): Units
    requires i < |s.log|
  {
    ChangeRec(units, s.log[i], s.endPos)
  }

  function CreateUnits(s: State, h: KeyHash, p: nat, n: nat, units: Units): Units
    requires p < |s.log|
  {
    ChangeRec(Add(units, h.unit, h.k, s.endPos), s.log[p], n)
  }

  function DeleteUnits(s: State, d: nat, p: nat, units: Units): Units
    requires d < |s.log| && p < |s.log|
  {
    var r := s.log[d];
    ChangeRec(Erase(units, r.e.key.hash.unit, r.e.key.hash.k, r.pos), s.log[p], s.endPos)
  }

  function ConsumeUnits(s: State, units: Units): Units {
    if s.queue == [] || !JobLive(s, s.queue[0]) then units
    else
      var j := s.queue[0];
      Change(units, j.e.key.hash.unit, j.e.key.hash.k, j.oldPos, s.endPos)
  }

  /** A lookup leaves the pairs alone and may add to the caches of its unit. */
  ghost predicate Seen(units: Units, h: KeyHash, height: int, adjacent: bool, units': Units) {
    if h.unit !in units then units' == units
    else exists x' :: SeenIn(units[h.unit], h.k, height, adjacent, x') && units' == units[h.unit := x']
  }

  ghost predicate SeenIn(x: U.UnitState, k: nat, height: int, adjacent: bool, x': U.UnitState) {
    if adjacent then U.BothSeen(x, height, k, x') else U.ValueSeen(x, height, k, x')
  }

  // ---------------------------------------------------------------- what the searches settle on

  /** Record i is handed out by the adjacent lookup of h. */
  ghost predicate Offered(j: Joint, height: int, h: KeyHash, i: nat) {
    && i < |j.s.log| && h.unit in j.units && j.s.log[i].e.key.hash.unit == h.unit
    && Offers(j.units[h.unit], height, h.k, j.s.log[i].e.key.hash.k, j.s.log[i].pos)
  }

  ghost predicate FindsTarget(j: Joint, key: Key, i: nat) {
    && i < |j.s.log| && key.hash.unit in j.units && H.IsLive(j.units[key.hash.unit].w, key.hash.k, j.s.log[i].pos)
    && j.s.log[i].e.key == key
  }
  ghost predicate FindsGap(j: Joint, height: int, h: KeyHash, p: nat) {
    Offered(j, height, h, p) && Less(j.s.log[p].e.key.hash, h) && Less(h, j.s.log[p].e.next)
  }
  ghost predicate FindsVictim(j: Joint, height: int, key: Key, d: nat) {
    Offered(j, height, key.hash, d) && j.s.log[d].e.key == key
  }
  ghost predicate FindsPrev(j: Joint, height: int, key: Key, p: nat) {
    Offered(j, height, key.hash, p) && j.s.log[p].e.next == key.hash && j.s.log[p].e.key != key
  }

  // ---------------------------------------------------------------- events

  ghost predicate Writes(j: Joint, key: Key, value: seq<nat>, version: int, i: nat, seen: Units, j': Joint) {
    && FindsTarget(j, key, i) && Seen(j.units, key.hash, Height(version), false, seen)
    && j' == Joint(Rewrite(j.s, i, value, version), RewriteUnits(j.s, i, seen))
  }
  ghost predicate CreatesAt(j: Joint, key: Key, value: seq<nat>, version: int, p: nat, seen: Units, j': Joint) {
    && FindsGap(j, Height(version), key.hash, p) && Seen(j.units, key.hash, Height(version), true, seen)
    && var t := CreateAt(j.s, p, key, value, version);
    j' == Joint(t, CreateUnits(j.s, key.hash, p, t.log[|j.s.log| + 1].pos, seen))
  }
  ghost predicate Deletes(j: Joint, key: Key, version: int, d: nat, p: nat, seen: Units, j': Joint) {
    && FindsVictim(j, Height(version), key, d) && FindsPrev(j, Height(version), key, p)
    && Seen(j.units, key.hash, Height(version), true, seen)
    && j' == Joint(DeleteAt(j.s, d, p, version), DeleteUnits(j.s, d, p, seen))
  }
  ghost predicate Merges(j: Joint, u: nat, w': H.View, j': Joint) {
    u in j.units && H.IsMerge(j.units[u].w, w') && j' == j.(units := j.units[u := U.UnitState(w', map[])])
  }

  /** The event leads from j to j'. */
  ghost predicate Moves(j: Joint, event: Event, j': Joint) {
    match event
    case Own(DoWrite(key, value, version)) => exists i, seen :: Writes(j, key, value, version, i, seen, j')
    case Own(DoCreate(key, value, version)) => exists p, seen :: CreatesAt(j, key, value, version, p, seen, j')
    case Own(DoDelete(key, version)) => exists d, p, seen :: Deletes(j, key, version, d, p, seen, j')
    case Own(DoConsume) => j' == Joint(Consume(j.s), ConsumeUnits(j.s, j.units))
    case Own(DoLook) => j' == j.(s := Look(j.s))
    case Own(DoProduce) => j' == j.(s := Produce(j.s))
    case Merge(u) => exists w' :: Merges(j, u, w', j')
    case Peek(h, height, adjacent) => j'.s == j.s && Seen(j.units, h, height, adjacent, j'.units)
  }

  /** The event is an update whose search finds nothing. */
  ghost predicate Panics(j: Joint, event: Event) {
    match event
    case Own(DoWrite(key, _, _)) => !exists i :: FindsTarget(j, key, i)
    case Own(DoCreate(key, _, version)) => !exists p :: FindsGap(j, Height(version), key.hash, p)
    case Own(DoDelete(key, version)) =>
      !exists d, p :: FindsVictim(j, Height(version), key, d) && FindsPrev(j, Height(version), key, p)
    case _ => false
  }

  /** Entry p is lost to an adjacent lookup of h at this height. */
  ghost predicate LostTo(j: Joint, height: int, h: KeyHash, p: nat)
    requires p < |j.s.log|
  {
    h.unit in j.units && Lost(j.units[h.unit], height, h.k, j.s.log[p].e.key.hash.k, j.s.log[p].pos)
  }

  /** The event is a create or a delete whose predecessor exists and is lost. */
  ghost predicate Loses(j: Joint, event: Event) {
    match event
    case Own(DoCreate(key, _, version)) =>
      exists p: nat :: IsGap(j.s, key.hash, p) && LostTo(j, Height(version), key.hash, p)
    case Own(DoDelete(key, version)) =>
      exists p: nat :: IsPrev(j.s, key, p) && LostTo(j, Height(version), key.hash, p)
    case _ => false
  }

  /** Every unit of the shard is in step with the shard. */
  ghost predicate Joined(j: Joint, rg: Range) {
    && (forall u: nat {:trigger u in j.units} :: u in j.units <==> rg.lo <= u < rg.hi)
    && forall u: nat {:trigger j.units[u]} :: u in j.units ==> UnitOk(j.s, u, j.units[u])
  }

  // ---------------------------------------------------------------- when the searches succeed

  /** An active entry of the unit of h whose range contains h, or ends at h, is the nearest below it. */
  lemma RangeIsNearest(s: State, rg: Range, h: KeyHash, p: nat)
    requires LogInv(s, rg) && p in Act(s.log) && s.log[p].e.key.hash.unit == h.unit
    requires Less(s.log[p].e.key.hash, h) && Leq(h, s.log[p].e.next)
    ensures Nearest(s, h, p) && Adjacent(s.index, h, KV(s.log[p]))
  {
    forall i | i in Act(s.log) && Less(s.log[i].e.key.hash, h) ensures Leq(s.log[i].e.key.hash, s.log[p].e.key.hash) {
      InOrder(s, rg, i, p);
    }
    IndexedIffActive(s, rg, p);
    forall o | o in s.index && o.unit == h.unit && o.k < h.k ensures o.k <= s.log[p].e.key.hash.k {
      assert Owned(s.log, Act(s.log), o);
      var i :| i in Act(s.log) && KV(s.log[i]) == o;
      assert Leq(s.log[i].e.key.hash, s.log[p].e.key.hash);
    }
  }

  /** What is handed out is active. */
  lemma OfferedActive(j: Joint, rg: Range, height: int, h: KeyHash, i: nat)
    requires LogInv(j.s, rg) && Joined(j, rg) && Offered(j, height, h, i)
    ensures i in Act(j.s.log) && Placeable(j.s.log, rg, i)
  {
    var a := OfferedIsActive(j.s, rg, h.unit, height, h.k, j.units[h.unit], j.s.log[i].e.key.hash.k, j.s.log[i].pos);
    IndexedIffActive(j.s, rg, a);
    IndexedIffActive(j.s, rg, i);
  }

  lemma NearestOfferedIff(j: Joint, rg: Range, height: int, h: KeyHash, p: nat)
    requires LogInv(j.s, rg) && Joined(j, rg) && Nearest(j.s, h, p)
    ensures Offered(j, height, h, p) <==> !LostTo(j, height, h, p)
  {
    assert Placeable(j.s.log, rg, p);
    PredecessorOfferedIff(j.s, rg, h, height, p, j.units[h.unit]);
  }

  lemma TargetIff(j: Joint, rg: Range, key: Key, i: nat)
    requires LogInv(j.s, rg) && Joined(j, rg)
    ensures FindsTarget(j, key, i) <==> IsTarget(j.s, key, i)
  {
    if IsTarget(j.s, key, i) {
      IndexedIffActive(j.s, rg, i);
      assert Placeable(j.s.log, rg, i);
    }
    if key.hash.unit in j.units && i < |j.s.log| && j.s.log[i].e.key == key {
      assert KV(j.s.log[i]) == IndexKV(key.hash.unit, key.hash.k, j.s.log[i].pos);
      assert Mirrors(j.s.index, key.hash.unit, j.units[key.hash.unit].w);
    }
  }

  lemma GapIff(j: Joint, rg: Range, height: int, h: KeyHash, p: nat)
    requires LogInv(j.s, rg) && Joined(j, rg)
    ensures FindsGap(j, height, h, p) <==> IsGap(j.s, h, p) && !LostTo(j, height, h, p)
  {
    if FindsGap(j, height, h, p) {
      OfferedActive(j, rg, height, h, p);
      RangeIsNearest(j.s, rg, h, p);
      NearestOfferedIff(j, rg, height, h, p);
    }
    if IsGap(j.s, h, p) {
      IndexedIffActive(j.s, rg, p);
      RangeIsNearest(j.s, rg, h, p);
      NearestOfferedIff(j, rg, height, h, p);
    }
  }

  lemma VictimIff(j: Joint, rg: Range, height: int, key: Key, d: nat)
    requires LogInv(j.s, rg) && Joined(j, rg)
    ensures FindsVictim(j, height, key, d) <==> IsVictim(j.s, key, d)
  {
    if FindsVictim(j, height, key, d) {
      OfferedActive(j, rg, height, key.hash, d);
      IndexedIffActive(j.s, rg, d);
    }
    if IsVictim(j.s, key, d) {
      IndexedIffActive(j.s, rg, d);
      assert Placeable(j.s.log, rg, d);
      LivePair(j.s, rg, j.units[key.hash.unit].w, d);
    }
  }

  lemma PrevIff(j: Joint, rg: Range, height: int, key: Key, p: nat)
    requires LogInv(j.s, rg) && Joined(j, rg)
    ensures FindsPrev(j, height, key, p) <==> IsPrev(j.s, key, p) && !LostTo(j, height, key.hash, p)
  {
    if FindsPrev(j, height, key, p) {
      OfferedActive(j, rg, height, key.hash, p);
      RangeIsNearest(j.s, rg, key.hash, p);
      NearestOfferedIff(j, rg, height, key.hash, p);
    }
    if IsPrev(j.s, key, p) {
      IndexedIffActive(j.s, rg, p);
      assert Placeable(j.s.log, rg, p);
      RangeIsNearest(j.s, rg, key.hash, p);
      NearestOfferedIff(j, rg, height, key.hash, p);
    }
  }

  // ---------------------------------------------------------------- what every event keeps

  /** New pairs of a unit leave its caches as right as they were. */
  lemma SoundKept(x: U.UnitState, w': H.View)
    requires U.Sound(x) && H.Ok(w') && w'.file == x.w.file
    ensures U.Sound(x.(w := w'))
    ensures forall h: int, k: nat {:trigger U.Missing(x.(w := w'), h, k)} ::
              U.Missing(x.(w := w'), h, k) <==> U.Missing(x, h, k)
  {
    forall h | h in x.caches ensures U.CacheSound(x.caches[h], w') { U.SameFile(x.caches[h], x.w, w'); }
    forall h: int, k: nat ensures U.Missing(x.(w := w'), h, k) <==> U.Missing(x, h, k) {
      if h in x.caches { U.SameFile(x.caches[h], x.w, w'); }
    }
  }

  lemma SeenJoined(j: Joint, rg: Range, h: KeyHash, height: int, adjacent: bool, seen: Units)
    requires Joined(j, rg) && Seen(j.units, h, height, adjacent, seen)
    ensures Joined(j.(units := seen), rg)
  {
    if h.unit in j.units {
      var x' :| SeenIn(j.units[h.unit], h.k, height, adjacent, x') && seen == j.units[h.unit := x'];
      if adjacent { U.BothSeenKeeps(j.units[h.unit], height, h.k, x'); }
      else { U.ValueSeenIff(j.units[h.unit], height, h.k, x'); }
    }
  }

  /** The entries of the other units are the same in both logs. */
  ghost predicate OthersSame(s: State, t: State, u: nat) {
    forall y: nat {:trigger SameUnit(s, t, y)} :: y != u ==> SameUnit(s, t, y)
  }

  /** One unit follows its shard and the others are not concerned. */
  lemma OneUnitJoined(j: Joint, rg: Range, t: State, u: nat, w': H.View)
    requires Joined(j, rg) && u in j.units && w'.file == j.units[u].w.file && ViewOk(t, u, w') && OthersSame(j.s, t, u)
    ensures Joined(Joint(t, j.units[u := j.units[u].(w := w')]), rg)
  {
    SoundKept(j.units[u], w');
    var j' := Joint(t, j.units[u := j.units[u].(w := w')]);
    forall y: nat | y in j'.units ensures UnitOk(t, y, j'.units[y]) {
      if y != u {
        assert j'.units[y] == j.units[y] && SameUnit(j.s, t, y);
        ElsewhereKeeps(j.s, t, y, j.units[y].w);
      }
    }
  }

  lemma RewroteJoined(j: Joint, rg: Range, t: State, i: nat)
    requires LogInv(j.s, rg) && Joined(j, rg) && Rewrote(j.s, t, i) && t.endPos <= LIMIT
    ensures Joined(Joint(t, RewriteUnits(j.s, i, j.units)), rg)
  {
    var h := j.s.log[i].e.key.hash;
    assert Placeable(j.s.log, rg, i);
    var w := j.units[h.unit].w;
    RewroteKeeps(j.s, rg, t, i, w);
    forall y: nat | y != h.unit ensures SameUnit(j.s, t, y) { }
    OneUnitJoined(j, rg, t, h.unit, Changed(w, h.k, j.s.log[i].pos, j.s.endPos));
  }

  lemma CreatedJoined(j: Joint, rg: Range, t: State, h: KeyHash, p: nat)
    requires LogInv(j.s, rg) && Joined(j, rg) && Created(j.s, t, h, p) && t.endPos <= LIMIT
    ensures Joined(Joint(t, CreateUnits(j.s, h, p, t.log[|j.s.log| + 1].pos, j.units)), rg)
  {
    assert Placeable(j.s.log, rg, p);
    var w := j.units[h.unit].w;
    CreatedKeeps(j.s, rg, t, h, p, w);
    forall y: nat | y != h.unit ensures SameUnit(j.s, t, y) { }
    var w' := Spliced(w, h.k, j.s.endPos, j.s.log[p].e.key.hash.k, j.s.log[p].pos, t.log[|j.s.log| + 1].pos);
    OneUnitJoined(j, rg, t, h.unit, w');
    assert CreateUnits(j.s, h, p, t.log[|j.s.log| + 1].pos, j.units) == j.units[h.unit := j.units[h.unit].(w := w')];
  }

  lemma DeletedJoined(j: Joint, rg: Range, t: State, d: nat, p: nat)
    requires LogInv(j.s, rg) && Joined(j, rg) && Deleted(j.s, t, d, p) && t.endPos <= LIMIT
    ensures Joined(Joint(t, DeleteUnits(j.s, d, p, j.units)), rg)
  {
    var h := j.s.log[d].e.key.hash;
    assert Placeable(j.s.log, rg, d);
    var w := j.units[h.unit].w;
    DeletedKeeps(j.s, rg, t, d, p, w);
    forall y: nat | y != h.unit ensures SameUnit(j.s, t, y) { }
    var w' := Dropped(w, h.k, j.s.log[d].pos, j.s.log[p].e.key.hash.k, j.s.log[p].pos, j.s.endPos);
    OneUnitJoined(j, rg, t, h.unit, w');
    assert DeleteUnits(j.s, d, p, j.units) == j.units[h.unit := j.units[h.unit].(w := w')];
  }

  /** The steps that leave log and index alone. */
  lemma StillJoined(j: Joint, rg: Range, t: State)
    requires Joined(j, rg) && t.log == j.s.log && t.index == j.s.index && t.endPos == j.s.endPos
    ensures Joined(Joint(t, j.units), rg)
  {
    forall u: nat | u in j.units ensures UnitOk(t, u, j.units[u]) { assert UnitOk(j.s, u, j.units[u]); }
  }

  lemma WriteMoves(j: Joint, rg: Range, key: Key, value: seq<nat>, version: int, i: nat, seen: Units, j': Joint)
    requires Inv(j.s, rg) && Joined(j, rg) && Writes(j, key, value, version, i, seen, j')
    ensures Write(j.s, key, value, version) == Some(j'.s) && (j'.s.endPos <= LIMIT ==> Joined(j', rg))
  {
    TargetIff(j, rg, key, i);
    WriteChooses(j.s, rg, key, value, version, i);
    RewriteKeepsInv(j.s, rg, i, value, version);
    SeenJoined(j, rg, key.hash, Height(version), false, seen);
    if j'.s.endPos <= LIMIT { RewroteJoined(Joint(j.s, seen), rg, j'.s, i); }
  }

  lemma CreateIsCreated(s: State, rg: Range, p: nat, key: Key, value: seq<nat>, version: int)
    requires Inv(s, rg) && IsGap(s, key.hash, p)
    ensures Created(s, CreateAt(s, p, key, value, version), key.hash, p)
  {
    CreateKeepsInv(s, rg, p, key, value, version);
    assert CreateAt(s, p, key, value, version).log[..|s.log|] == s.log;
  }

  lemma CreateMoves(j: Joint, rg: Range, key: Key, value: seq<nat>, version: int, p: nat, seen: Units, j': Joint)
    requires Inv(j.s, rg) && Joined(j, rg) && CreatesAt(j, key, value, version, p, seen, j')
    ensures Create(j.s, key, value, version) == Some(j'.s) && (j'.s.endPos <= LIMIT ==> Joined(j', rg))
  {
    GapIff(j, rg, Height(version), key.hash, p);
    CreateMeans(j.s, rg, key, value, version, p);
    CreateIsCreated(j.s, rg, p, key, value, version);
    SeenJoined(j, rg, key.hash, Height(version), true, seen);
    if j'.s.endPos <= LIMIT { CreatedJoined(Joint(j.s, seen), rg, j'.s, key.hash, p); }
  }

  lemma DeleteIsDeleted(s: State, rg: Range, key: Key, d: nat, p: nat, version: int)
    requires Inv(s, rg) && IsVictim(s, key, d) && IsPrev(s, key, p)
    ensures Deleted(s, DeleteAt(s, d, p, version), d, p)
  {
    DeleteKeepsInv(s, rg, key, d, p, version);
    assert Placeable(s.log, rg, p);
    RangeIsNearest(s, rg, key.hash, p);
  }

  lemma DeleteMoves(j: Joint, rg: Range, key: Key, version: int, d: nat, p: nat, seen: Units, j': Joint)
    requires Inv(j.s, rg) && Joined(j, rg) && Deletes(j, key, version, d, p, seen, j')
    ensures Delete(j.s, key, version) == Some(j'.s) && (j'.s.endPos <= LIMIT ==> Joined(j', rg))
  {
    VictimIff(j, rg, Height(version), key, d);
    PrevIff(j, rg, Height(version), key, p);
    DeleteChooses(j.s, rg, key, version, d, p);
    DeleteIsDeleted(j.s, rg, key, d, p, version);
    SeenJoined(j, rg, key.hash, Height(version), true, seen);
    if j'.s.endPos <= LIMIT { DeletedJoined(Joint(j.s, seen), rg, j'.s, d, p); }
  }

  lemma ConsumeMovesUnits(j: Joint, rg: Range)
    requires Inv(j.s, rg) && Joined(j, rg) && Consume(j.s).endPos <= LIMIT
    ensures Joined(Joint(Consume(j.s), ConsumeUnits(j.s, j.units)), rg)
  {
    var (s, t) := (j.s, Consume(j.s));
    ConsumeKeepsInv(s, rg);
    if s.queue != [] && JobLive(s, s.queue[0]) {
      RewroteJoined(j, rg, t, s.queue[0].e.sn);
    } else {
      StillJoined(j, rg, t);
    }
  }

  lemma MergeMoves(j: Joint, rg: Range, u: nat, w': H.View, j': Joint)
    requires LogInv(j.s, rg) && Joined(j, rg) && Merges(j, u, w', j')
    ensures Joined(j', rg)
  {
    MergeKeepsView(j.s, rg, u, j.units[u].w, w');
  }

  /** Every event keeps shard and units in step, and the steps of the shard are those of a shard with
      an exact index. */
  lemma EventKeeps(j: Joint, rg: Range, event: Event, j': Joint)
    requires Inv(j.s, rg) && Joined(j, rg) && Moves(j, event, j')
    ensures if event.Own? then Next(j.s, event.step) == Some(j'.s) else j'.s == j.s
    ensures j'.s.endPos <= LIMIT ==> Joined(j', rg)
  {
    match event
    case Own(DoWrite(key, value, version)) =>
      var i, seen :| Writes(j, key, value, version, i, seen, j');
      WriteMoves(j, rg, key, value, version, i, seen, j');
    case Own(DoCreate(key, value, version)) =>
      var p, seen :| CreatesAt(j, key, value, version, p, seen, j');
      CreateMoves(j, rg, key, value, version, p, seen, j');
    case Own(DoDelete(key, version)) =>
      var d, p, seen :| Deletes(j, key, version, d, p, seen, j');
      DeleteMoves(j, rg, key, version, d, p, seen, j');
    case Own(DoConsume) => if j'.s.endPos <= LIMIT { ConsumeMovesUnits(j, rg); }
    case Own(DoLook) => StillJoined(j, rg, Look(j.s));
    case Own(DoProduce) => StillJoined(j, rg, Produce(j.s));
    case Merge(u) =>
      var w' :| Merges(j, u, w', j');
      MergeMoves(j, rg, u, w', j');
    case Peek(h, height, adjacent) => SeenJoined(j, rg, h, height, adjacent, j'.units);
  }

  // ---------------------------------------------------------------- when an event panics

  /** What the plain map allows. */
  ghost function SpecEvent(rg: Range, m: Store, event: Event): Option<Store> {
    if event.Own? then SpecNext(rg, m, event.step) else Some(m)
  }

  /** Every event panics if and only if the plain map forbids it or it is a create or a delete that
      loses its predecessor to a stale cached answer. */
  lemma PanicsIff(j: Joint, rg: Range, m: Store, event: Event)
    requires LogInv(j.s, rg) && Joined(j, rg) && Holds(j.s.log, Act(j.s.log), m)
    ensures Panics(j, event) <==> SpecEvent(rg, m, event).None? || Loses(j, event)
  {
    match event
    case Own(DoWrite(key, _, _)) =>
      TargetIffStored(j.s, rg, m, key);
      forall i: nat ensures FindsTarget(j, key, i) <==> IsTarget(j.s, key, i) { TargetIff(j, rg, key, i); }
    case Own(DoCreate(key, _, version)) => CreatePanicsIff(j, rg, m, key, version);
    case Own(DoDelete(key, version)) => DeletePanicsIff(j, rg, m, key, version);
    case _ =>
  }

  lemma CreatePanicsIff(j: Joint, rg: Range, m: Store, key: Key, version: int)
    requires LogInv(j.s, rg) && Joined(j, rg) && Holds(j.s.log, Act(j.s.log), m)
    ensures (exists p: nat :: FindsGap(j, Height(version), key.hash, p)) <==>
            && InRange(rg, key.hash) && (forall k :: k in m ==> k.hash != key.hash)
            && !exists p: nat :: IsGap(j.s, key.hash, p) && LostTo(j, Height(version), key.hash, p)
  {
    GapIffFree(j.s, rg, m, key);
    forall p: nat
      ensures FindsGap(j, Height(version), key.hash, p) <==>
              IsGap(j.s, key.hash, p) && !LostTo(j, Height(version), key.hash, p)
    {
      GapIff(j, rg, Height(version), key.hash, p);
    }
    forall p: nat, q: nat | IsGap(j.s, key.hash, p) && IsGap(j.s, key.hash, q) ensures p == q {
      GapUnique(j.s, rg, key.hash, p, q);
    }
  }

  lemma PrevUnique(s: State, rg: Range, key: Key, p: nat, q: nat)
    requires LogInv(s, rg) && IsPrev(s, key, p) && IsPrev(s, key, q)
    ensures p == q
  {
    IndexedIffActive(s, rg, p);
    IndexedIffActive(s, rg, q);
    assert Placeable(s.log, rg, p) && Placeable(s.log, rg, q);
    InOrder(s, rg, p, q);
  }

  lemma DeletePanicsIff(j: Joint, rg: Range, m: Store, key: Key, version: int)
    requires LogInv(j.s, rg) && Joined(j, rg) && Holds(j.s.log, Act(j.s.log), m)
    ensures (exists d: nat, p: nat ::
               FindsVictim(j, Height(version), key, d) && FindsPrev(j, Height(version), key, p)) <==>
            && key in m && key.hash != SentryHash(key.hash.unit)
            && !exists p: nat :: IsPrev(j.s, key, p) && LostTo(j, Height(version), key.hash, p)
  {
    DeletableIff(j.s, rg, m, key);
    forall i: nat
      ensures FindsVictim(j, Height(version), key, i) <==> IsVictim(j.s, key, i)
      ensures FindsPrev(j, Height(version), key, i) <==>
              IsPrev(j.s, key, i) && !LostTo(j, Height(version), key.hash, i)
    {
      VictimIff(j, rg, Height(version), key, i);
      PrevIff(j, rg, Height(version), key, i);
    }
    forall p: nat, q: nat | IsPrev(j.s, key, p) && IsPrev(j.s, key, q) ensures p == q {
      PrevUnique(j.s, rg, key, p, q);
    }
  }

  // ---------------------------------------------------------------- whole runs

  ghost predicate IsTrace(js: seq<Joint>, events: seq<Event>) {
    && |js| == |events| + 1
    && (forall i {:trigger events[i]} :: 0 <= i < |events| ==> Moves(js[i], events[i], js[i + 1]))
    && forall i {:trigger js[i]} :: 0 <= i < |js| ==> js[i].s.endPos <= LIMIT
  }

  /** The steps of the shard among the events. */
  function Plain(events: seq<Event>): seq<Step> {
    if events == [] then []
    else if events[0].Own? then [events[0].step] + Plain(events[1..])
    else Plain(events[1..])
  }

  lemma FirstMove(js: seq<Joint>, events: seq<Event>)
    requires IsTrace(js, events) && events != []
    ensures Moves(js[0], events[0], js[1]) && js[1].s.endPos <= LIMIT && IsTrace(js[1..], events[1..])
  {
    assert Moves(js[0], events[0], js[0 + 1]);
    forall i | 0 <= i < |events[1..]| ensures Moves(js[1..][i], events[1..][i], js[1..][i + 1]) {
      assert Moves(js[i + 1], events[i + 1], js[i + 2]);
    }
  }

  lemma EventRefines(j: Joint, rg: Range, m: Store, event: Event, j': Joint)
    requires Inv(j.s, rg) && Joined(j, rg) && Holds(j.s.log, Act(j.s.log), m) && Moves(j, event, j')
    requires j'.s.endPos <= LIMIT
    ensures Joined(j', rg) && SpecEvent(rg, m, event).Some? && Follows(j.s, j'.s, rg, SpecEvent(rg, m, event).value)
  {
    EventKeeps(j, rg, event, j');
    if event.Own? { EveryStepRefines(j.s, rg, m, event.step); }
  }

  lemma PlainStep(events: seq<Event>, s: State, t: State, rg: Range, m: Store)
    requires events != []
    requires if events[0].Own? then Next(s, events[0].step) == Some(t) else s == t
    ensures Run(s, Plain(events)) == Run(t, Plain(events[1..]))
    ensures SpecEvent(rg, m, events[0]).Some? ==>
              SpecRun(rg, m, Plain(events)) == SpecRun(rg, SpecEvent(rg, m, events[0]).value, Plain(events[1..]))
  {
    if events[0].Own? {
      assert Plain(events)[0] == events[0].step && Plain(events)[1..] == Plain(events[1..]);
    }
  }

  /** Every run, with lookups and merges anywhere in between, does to the log exactly what the plain
      run of its steps does, and to the stored keys what the map operations do. */
  lemma {:induction false} TraceRefines(js: seq<Joint>, events: seq<Event>, rg: Range, m: Store)
    requires IsTrace(js, events)
    requires Inv(js[0].s, rg) && Joined(js[0], rg) && Holds(js[0].s.log, Act(js[0].s.log), m)
    ensures Run(js[0].s, Plain(events)) == Some(js[|events|].s) && SpecRun(rg, m, Plain(events)).Some?
    ensures Follows(js[0].s, js[|events|].s, rg, SpecRun(rg, m, Plain(events)).value) && Joined(js[|events|], rg)
    decreases |events|
  {
    if events != [] {
      FirstMove(js, events);
      EventKeeps(js[0], rg, events[0], js[1]);
      EventRefines(js[0], rg, m, events[0], js[1]);
      TraceRefines(js[1..], events[1..], rg, SpecEvent(rg, m, events[0]).value);
      PlainStep(events, js[0].s, js[1].s, rg, m);
    }
  }

  // ---------------------------------------------------------------- events that do not panic happen

  /** The positions of key k in a file; marked; the records that are not erased. */
  function Values(file: seq<H.KV>, k: nat): seq<nat> {
    if file == [] then [] else (if file[0].0 == k then [file[0].1] else []) + Values(file[1..], k)
  }
  function Marks(vs: seq<nat>): seq<nat> { if vs == [] then [] else [F.MARK + vs[0]] + Marks(vs[1..]) }
  function Alive(file: seq<H.KV>, erased: set<nat>): seq<H.KV> {
    if file == [] then [] else (if file[0].1 in erased then [] else [file[0]]) + Alive(file[1..], erased)
  }
  function InsertAll(kvs: seq<H.KV>, onto: seq<H.KV>): seq<H.KV> {
    if kvs == [] then onto else InsertAll(kvs[1..], H.Insert(onto, kvs[0]))
  }

  lemma {:induction false} ValuesOk(file: seq<H.KV>, k: nat)
    requires H.Strict(file)
    ensures F.NoRepeats(Values(file, k)) && forall v: nat :: v in Values(file, k) <==> (k, v) in file
  {
    if file != [] {
      H.StrictTail(file);
      ValuesOk(file[1..], k);
      if file[0].0 == k {
        assert (k, file[0].1) !in file[1..];
        U.ConsNoRepeats(file[0].1, Values(file[1..], k));
      } else {
        assert Values(file, k) == Values(file[1..], k);
      }
    }
  }

  lemma {:induction false} MarksOk(vs: seq<nat>)
    requires F.NoRepeats(vs)
    ensures F.NoRepeats(Marks(vs)) && forall x: nat :: x in Marks(vs) <==> x >= F.MARK && x - F.MARK in vs
  {
    if vs != [] {
      assert vs == [vs[0]] + vs[1..] && vs[0] !in vs[1..];
      MarksOk(vs[1..]);
      U.ConsNoRepeats(F.MARK + vs[0], Marks(vs[1..]));
    }
  }

  lemma {:induction false} AliveOk(file: seq<H.KV>, erased: set<nat>)
    requires H.Strict(file)
    ensures H.Strict(Alive(file, erased)) && forall q :: q in Alive(file, erased) <==> q in file && q.1 !in erased
  {
    if file != [] {
      H.StrictTail(file);
      AliveOk(file[1..], erased);
      if file[0].1 in erased {
        assert Alive(file, erased) == Alive(file[1..], erased);
      } else {
        H.PrependStrict(file[0], Alive(file[1..], erased));
      }
    }
  }

  lemma {:induction false} InsertAllOk(kvs: seq<H.KV>, onto: seq<H.KV>)
    requires H.Strict(onto)
    ensures H.Strict(InsertAll(kvs, onto)) && forall q :: q in InsertAll(kvs, onto) <==> q in kvs || q in onto
    decreases |kvs|
  {
    if kvs != [] {
      assert kvs == [kvs[0]] + kvs[1..];
      H.InsertOk(onto, kvs[0]);
      InsertAllOk(kvs[1..], H.Insert(onto, kvs[0]));
    }
  }

  lemma ValueAnswerExists(w: H.View, k: nat) returns (list: seq<nat>)
    requires H.Ok(w)
    ensures F.Answer(w, k, false, None, 0, list)
  {
    list := Values(w.file, k);
    ValuesOk(w.file, k);
    forall x | x in list ensures x < F.MARK { assert (k, x) in w.file; }
  }

  lemma BothAnswerExists(w: H.View, k: nat) returns (f: Option<nat>, prev: nat, list: seq<nat>)
    requires H.Ok(w)
    ensures F.Answer(w, k, true, f, prev, list)
  {
    f := FileAnswers(w, k);
    list := ValueAnswerExists(w, k);
    if f.None? { return f, 0, list; }
    var before := ValueAnswerExists(w, f.value);
    prev := f.value;
    var values := list;
    list := ListBoth(values, before);
    forall v: nat | v < F.MARK
      ensures (0 + v in list <==> (k, v) in w.file) && (F.MARK + v in list <==> (f.value, v) in w.file)
    {
      assert 0 + v in values <==> (k, v) in w.file;
      assert 0 + v in before <==> (f.value, v) in w.file;
    }
  }

  lemma ListBoth(list: seq<nat>, before: seq<nat>) returns (both: seq<nat>)
    requires F.NoRepeats(list) && F.NoRepeats(before)
    requires forall x :: x in list ==> x < F.MARK
    requires forall x :: x in before ==> x < F.MARK
    ensures F.NoRepeats(both) && forall x: nat :: x in both ==> x < 2 * F.MARK
    ensures forall v: nat {:trigger v in list} :: v < F.MARK ==> (v in both <==> v in list)
    ensures forall v: nat {:trigger v in before} :: v < F.MARK ==> (F.MARK + v in both <==> v in before)
  {
    MarksOk(before);
    both := list + Marks(before);
    var b := Marks(before);
    assert forall i {:trigger b[i]} :: 0 <= i < |b| ==> b[i] in b;
    assert forall i {:trigger list[i]} :: 0 <= i < |list| ==> list[i] in list;
  }

  lemma RememberedExists(caches: map<int, U.Cache>, height: int, k: nat, prev: nat, list: seq<nat>)
      returns (caches': map<int, U.Cache>)
    ensures U.Remembered(caches, height, k, prev, list, caches')
  {
    if height < 0 { return caches; }
    var base := caches;
    if !(height in caches || forall h :: h in caches ==> h >= height - 2) {
      var h :| h in caches && h < height - 2;
      base := if h > 0 then caches - {h} else caches;
    }
    assert U.Thinned(caches, height, base);
    caches' := base[height := U.CacheAdd(U.CacheAt(caches, height), k, prev, list)];
  }

  lemma SeenExists(units: Units, h: KeyHash, height: int, adjacent: bool) returns (seen: Units)
    requires h.unit in units ==> H.Ok(units[h.unit].w)
    ensures Seen(units, h, height, adjacent, seen)
  {
    seen := units;
    if h.unit in units {
      var x := units[h.unit];
      var x' := x;
      if adjacent && !U.KnownBoth(x, height, h.k) {
        var f, prev, list := BothAnswerExists(x.w, h.k);
        var c := RememberedExists(x.caches, height, h.k, prev, list);
        x' := x.(caches := c);
      } else if !adjacent && !U.Known(x, height, h.k) {
        var list := ValueAnswerExists(x.w, h.k);
        var c := RememberedExists(x.caches, height, h.k, 0, list);
        x' := x.(caches := c);
      }
      assert SeenIn(x, h.k, height, adjacent, x');
      seen := units[h.unit := x'];
    }
  }

  lemma MergeExists(w: H.View) returns (w': H.View)
    requires H.Ok(w)
    ensures H.IsMerge(w, w')
  {
    AliveOk(w.file, w.erased);
    InsertAllOk(w.newKv, Alive(w.file, w.erased));
    w' := H.View(InsertAll(w.newKv, Alive(w.file, w.erased)), [], {});
  }

  /** An event that does not panic leads somewhere. */
  lemma EventHappens(j: Joint, rg: Range, event: Event) returns (j': Joint)
    requires Joined(j, rg) && !Panics(j, event) && (event.Merge? ==> event.u in j.units)
    ensures Moves(j, event, j')
  {
    match event
    case Own(DoWrite(key, value, version)) =>
      var i :| FindsTarget(j, key, i);
      var seen := SeenExists(j.units, key.hash, Height(version), false);
      j' := Joint(Rewrite(j.s, i, value, version), RewriteUnits(j.s, i, seen));
      assert Writes(j, key, value, version, i, seen, j');
    case Own(DoCreate(key, value, version)) =>
      var p :| FindsGap(j, Height(version), key.hash, p);
      var seen := SeenExists(j.units, key.hash, Height(version), true);
      var t := CreateAt(j.s, p, key, value, version);
      j' := Joint(t, CreateUnits(j.s, key.hash, p, t.log[|j.s.log| + 1].pos, seen));
      assert CreatesAt(j, key, value, version, p, seen, j');
    case Own(DoDelete(key, version)) =>
      var d, p :| FindsVictim(j, Height(version), key, d) && FindsPrev(j, Height(version), key, p);
      var seen := SeenExists(j.units, key.hash, Height(version), true);
      j' := Joint(DeleteAt(j.s, d, p, version), DeleteUnits(j.s, d, p, seen));
      assert Deletes(j, key, version, d, p, seen, j');
    case Own(DoConsume) => j' := Joint(Consume(j.s), ConsumeUnits(j.s, j.units));
    case Own(DoLook) => j' := j.(s := Look(j.s));
    case Own(DoProduce) => j' := j.(s := Produce(j.s));
    case Merge(u) =>
      var w' := MergeExists(j.units[u].w);
      j' := j.(units := j.units[u := U.UnitState(w', map[])]);
      assert Merges(j, u, w', j');
    case Peek(h, height, adjacent) =>
      var seen := SeenExists(j.units, h, height, adjacent);
      j' := j.(units := seen);
  }

  // ---------------------------------------------------------------- from the sentries on

  /** The units of a fresh shard: the sentry of each is in its file. */
  function FreshUnits(rg: Range): Units {
    map u: nat | rg.lo <= u < rg.hi :: u := FreshUnit(SentryPos(rg, u))
  }
  function SentryPos(rg: Range, u: nat): nat
    requires rg.lo <= u
  {
    11 * (u - rg.lo)
  }
  function FreshUnit(pos: nat): U.UnitState { U.UnitState(H.View([(0, pos)], [], {}), map[]) }

  function FreshJoint(rg: Range): Joint
    requires rg.lo <= rg.hi
  {
    Joint(Genesis(rg), FreshUnits(rg))
  }

  lemma FreshUnitOk(s: State, u: nat, pos: nat)
    requires pos < LIMIT
    requires forall k: nat, v: nat {:trigger IndexKV(u, k, v)} :: IndexKV(u, k, v) in s.index <==> (k, v) == (0, pos)
    ensures UnitOk(s, u, FreshUnit(pos))
  {
    var w := FreshUnit(pos).w;
    forall k: nat, v: nat ensures H.IsLive(w, k, v) <==> IndexKV(u, k, v) in s.index {
      assert (k, v) in w.file <==> (k, v) == (0, pos);
    }
    forall q: nat ensures !H.Dead(w, q) {
      if H.FileKey(w, q) { assert H.LiveInFile(w, 0, pos) && (0, pos) in w.file; }
    }
  }

  lemma FreshJoined(rg: Range)
    requires rg.lo < rg.hi && 11 * (rg.hi - rg.lo) <= LIMIT
    ensures Joined(FreshJoint(rg), rg)
  {
    var s := Genesis(rg);
    forall u: nat | rg.lo <= u < rg.hi ensures UnitOk(s, u, FreshUnit(SentryPos(rg, u))) {
      var i := u - rg.lo;
      assert IndexKV(rg.lo + i, 0, 11 * i) in s.index;
      FreshUnitOk(s, u, SentryPos(rg, u));
    }
    assert forall u: nat :: u in FreshUnits(rg) ==> FreshUnits(rg)[u] == FreshUnit(SentryPos(rg, u));
  }

  /** In every reachable state of a shard with the hybrid index: the log is that of the plain run, the
      units are in step, and the next event panics if and only if the plain map forbids it or it
      loses its predecessor. */
  lemma HybridReachable(rg: Range, js: seq<Joint>, events: seq<Event>, event: Event)
    requires rg.lo < rg.hi && Less(SentryHash(rg.hi - 1), rg.end)
    requires IsTrace(js, events) && js[0] == FreshJoint(rg)
    ensures var j := js[|events|];
            && Run(Genesis(rg), Plain(events)) == Some(j.s) && Inv(j.s, rg) && Joined(j, rg)
            && SpecRun(rg, Sentries(rg), Plain(events)).Some?
            && var m := SpecRun(rg, Sentries(rg), Plain(events)).value;
            && Holds(j.s.log, Act(j.s.log), m)
            && (Panics(j, event) <==> SpecEvent(rg, m, event).None? || Loses(j, event))
  {
    GenesisInv(rg);
    FreshJoined(rg);
    TraceRefines(js, events, rg, Sentries(rg));
    PanicsIff(js[|events|], rg, SpecRun(rg, Sentries(rg), Plain(events)).value, event);
  }
}
