/** The hybrid indexer: one hybrid unit per two-byte prefix of key hashes. */
module HybridIndex {
  import opened Basics
  import opened ShardLog
  import opened HybridShard
  import opened HybridRuns
  import H = Hybrid
  import U = HybridUnit

  type UnitMap = map<nat, U.Unit>

  /** No unit stands under two numbers. */
  ghost predicate Distinct(units: UnitMap) {
    forall u, v {:trigger units[u], units[v]} :: u in units && v in units && units[u] == units[v] ==> u == v
  }

  ghost function States(units: UnitMap): Units
    reads units.Values
  {
    map u | u in units :: units[u].Now()
  }

  ghost predicate AllValid(units: UnitMap)
    reads units.Values
  {
    forall u {:trigger units[u]} :: u in units ==> units[u].Valid()
  }

  /** The units of a shard, each with its sentry, written to the files. */
  method MakeUnits(rg: Range) returns (units: UnitMap)
    requires rg.lo <= rg.hi && 11 * (rg.hi - rg.lo) <= LIMIT
    ensures fresh(units.Values) && Distinct(units) && AllValid(units) && States(units) == FreshUnits(rg)
  {
    units := map[];
    for u := rg.lo to rg.hi
      invariant fresh(units.Values) && Distinct(units)
      invariant AllValid(units)
      invariant forall v {:trigger v in units} :: v in units <==> rg.lo <= v < u
      invariant forall v {:trigger units[v]} :: v in units ==> units[v].Now() == FreshUnit(SentryPos(rg, v))
    {
      var unit := MakeUnit(SentryPos(rg, u));
      assert forall v {:trigger units[v]} :: v in units ==> units[v] in units.Values && units[v] != unit;
      units := units[u := unit];
    }
  }

  /** `add_kv` of the sentry and `dump_mem_to_file`. */
  method MakeUnit(pos: nat) returns (unit: U.Unit)
    requires pos < LIMIT
    ensures fresh(unit) && unit.Valid() && unit.Now() == FreshUnit(pos)
  {
    unit := new U.Unit();
    var added := unit.AddKv(0, pos);
    ghost var w := unit.W();
    unit.MergeFiles();
    assert unit.file == [(0, pos)] by { OneRecord(w, unit.W(), pos); }
  }

  lemma OneRecord(w: H.View, w': H.View, pos: nat)
    requires w == H.Added(H.View([], [], {}), 0, pos) && H.IsMerge(w, w')
    ensures w'.file == [(0, pos)]
  {
    assert w.newKv == [(0, pos)];
    forall k: nat, v: nat ensures (k, v) in w'.file <==> (k, v) == (0, pos) {
      assert (k, v) in w'.file <==> H.IsLive(w, k, v);
    }
    assert (0, pos) in w'.file;
    OnlyOne(w'.file, (0, pos));
  }

  lemma OnlyOne(s: seq<H.KV>, q: H.KV)
    requires H.Strict(s) && q in s && forall p {:trigger p in s} :: p in s ==> p == q
    ensures s == [q]
  {
    assert s[0] in s;
    assert |s| > 1 ==> s[1] in s && H.Lt(s[0], s[1]);
  }

  /** All units but u are valid and as they were. */
  ghost predicate OthersAs(units: UnitMap, u: nat, was: Units)
    reads units.Values
  {
    && units.Keys == was.Keys
    && forall v {:trigger units[v]} :: v in units && v != u ==> units[v].Valid() && units[v].Now() == was[v]
  }

  lemma OneChanged(units: UnitMap, u: nat, was: Units)
    requires u in units && units[u].Valid() && OthersAs(units, u, was)
    ensures AllValid(units) && States(units) == was[u := units[u].Now()]
  {
  }

  /** The indexer of a fresh shard; without units with the in-memory index. */
  method MakeIndexer(rg: Range, inMemory: bool) returns (indexer: Indexer)
    requires rg.lo <= rg.hi && 11 * (rg.hi - rg.lo) <= LIMIT
    ensures fresh(indexer) && fresh(indexer.units.Values) && indexer.Valid()
    ensures if inMemory then indexer.units == map[] else indexer.Now() == FreshUnits(rg)
  {
    var units: UnitMap := map[];
    if !inMemory { units := MakeUnits(rg); }
    indexer := new Indexer(units);
  }

  class Indexer {
    const units: UnitMap

    ghost function Now(): Units
      reads units.Values
    {
      States(units)
    }

    ghost predicate Valid()
      reads units.Values
    {
      Distinct(units) && AllValid(units)
    }

    /** An indexer with the given units. */
    constructor (given: UnitMap)
      requires Distinct(given) && AllValid(given)
      ensures units == given && Valid() && Now() == States(given)
    {
      units := given;
    }

    method AddKv(u: nat, k: nat, v: nat)
      requires Valid() && (u in units ==> H.Fresh(Now()[u].w, v))
      modifies units.Values
      ensures Valid() && Now() == Add(old(Now()), u, k, v)
    {
      if u !in units { return; }
      ghost var was := Now();
      assert !H.IsLive(units[u].W(), k, v);
      var added := units[u].AddKv(k, v);
      OneChanged(units, u, was);
    }

    method EraseKv(u: nat, k: nat, v: nat)
      requires Valid() && (u in units ==> H.IsLive(Now()[u].w, k, v))
      modifies units.Values
      ensures Valid() && Now() == Erase(old(Now()), u, k, v)
    {
      if u !in units { return; }
      ghost var was := Now();
      H.LiveNotElsewhere(units[u].W(), k, v);
      units[u].EraseKv(k, v);
      OneChanged(units, u, was);
    }

    method ChangeKv(u: nat, k: nat, v: nat, n: nat)
      requires Valid() && (u in units ==> H.IsLive(Now()[u].w, k, v) && H.Fresh(Now()[u].w, n))
      modifies units.Values
      ensures Valid() && Now() == Change(old(Now()), u, k, v, n)
    {
      if u !in units { return; }
      ghost var was := Now();
      H.LiveNotElsewhere(units[u].W(), k, v);
      units[u].ChangeKv(k, v, n);
      OneChanged(units, u, was);
    }

    /** One unit of the merger's round. */
    method MergeUnit(u: nat)
      requires Valid() && u in units
      modifies units.Values
      ensures Valid() && exists w' :: H.IsMerge(old(Now())[u].w, w') && Now() == old(Now())[u := U.UnitState(w', map[])]
    {
      ghost var was := Now();
      units[u].MergeFiles();
      OneChanged(units, u, was);
      assert H.IsMerge(old(Now())[u].w, units[u].W());
    }

    /** `for_each_value` for an accessor that does not stop. */
    method ForEachValue(h: KeyHash, height: int) returns (cands: seq<IndexKV>)
      requires Valid() && (h.unit in units ==> StartsAtZero(Now()[h.unit].w))
      modifies units.Values
      ensures Valid() && Seen(old(Now()), h, height, false, Now())
      ensures forall kv :: kv in cands <==>
                kv.unit == h.unit && kv.k == h.k && h.unit in units && H.IsLive(old(Now())[h.unit].w, kv.k, kv.pos)
    {
      ghost var was := Now();
      cands := [];
      if h.unit in units {
        ghost var x := units[h.unit].Now();
        var r, all := units[h.unit].ForEachValue(height, h.k, _ => false);
        OneChanged(units, h.unit, was);
        OfferedAll([], all, _ => false);
        assert SeenIn(x, h.k, height, false, units[h.unit].Now());
        cands := seq(|r.value|, i requires 0 <= i < |r.value| => IndexKV(h.unit, h.k, r.value[i]));
        PairsOf(h.unit, h.k, r.value, cands);
      }
    }

    /** `for_each_adjacent_value`, likewise. */
    method ForEachAdjacentValue(h: KeyHash, height: int) returns (cands: seq<IndexKV>)
      requires Valid() && (h.unit in units ==> StartsAtZero(Now()[h.unit].w))
      modifies units.Values
      ensures Valid() && Seen(old(Now()), h, height, true, Now())
      ensures forall kv :: kv in cands <==>
                kv.unit == h.unit && h.unit in units && Offers(old(Now())[h.unit], height, h.k, kv.k, kv.pos)
    {
      ghost var was := Now();
      cands := [];
      if h.unit in units {
        ghost var x := units[h.unit].Now();
        var r, all, f, o := units[h.unit].ForEachAdjacentValue(height, h.k, _ => false);
        OneChanged(units, h.unit, was);
        OfferedAll([], all, _ => false);
        assert SeenIn(x, h.k, height, true, units[h.unit].Now());
        cands := seq(|r.value|, i requires 0 <= i < |r.value| => IndexKV(h.unit, r.value[i].0, r.value[i].1));
        HandedOut(x, height, h, f, o, r.value, cands);
      }
    }
  }

  lemma HandedOut(x: U.UnitState, height: int, h: KeyHash, f: Option<nat>, o: Option<nat>, all: seq<H.KV>,
                  cands: seq<IndexKV>)
    requires U.Looked(x, height, h.k, f) && H.OverAnswer(x.w, h.k, o)
    requires forall p: H.KV {:trigger p in all} ::
               p in all <==> (p.0 == h.k && H.IsLive(x.w, h.k, p.1)) || H.Delivered(x.w, h.k, f, o, p.0, p.1)
    requires |cands| == |all|
    requires forall i {:trigger cands[i]} :: 0 <= i < |all| ==> cands[i] == IndexKV(h.unit, all[i].0, all[i].1)
    ensures forall kv {:trigger kv in cands} ::
              kv in cands <==> kv.unit == h.unit && Offers(x, height, h.k, kv.k, kv.pos)
  {
    forall kv: IndexKV ensures kv in cands <==> kv.unit == h.unit && Offers(x, height, h.k, kv.k, kv.pos) {
      OffersBy(x, height, h.k, f, o, kv.k, kv.pos);
      if kv.unit == h.unit && (kv.k, kv.pos) in all {
        var i :| 0 <= i < |all| && all[i] == (kv.k, kv.pos);
        assert cands[i] == kv;
      }
    }
  }

  lemma PairsOf(u: nat, k: nat, vs: seq<nat>, cands: seq<IndexKV>)
    requires |cands| == |vs| && forall i {:trigger cands[i]} :: 0 <= i < |vs| ==> cands[i] == IndexKV(u, k, vs[i])
    ensures forall kv {:trigger kv in cands} :: kv in cands <==> kv.unit == u && kv.k == k && kv.pos in vs
  {
    forall kv: IndexKV | kv.unit == u && kv.k == k && kv.pos in vs ensures kv in cands {
      var i :| 0 <= i < |vs| && vs[i] == kv.pos;
      assert cands[i] == kv;
    }
  }

  /** The two answers that a lookup used decide what it hands out. */
  lemma OffersBy(x: U.UnitState, height: int, k: nat, f: Option<nat>, o: Option<nat>, y: nat, v: nat)
    requires U.Looked(x, height, k, f) && H.OverAnswer(x.w, k, o)
    ensures Offers(x, height, k, y, v) <==> (y == k && H.IsLive(x.w, k, v)) || H.Delivered(x.w, k, f, o, y, v)
  {
    forall f', o' | U.Looked(x, height, k, f') && H.OverAnswer(x.w, k, o') ensures f' == f && o' == o {
      SameAnswers(x.w, k, f, f', o, o');
    }
  }
}
