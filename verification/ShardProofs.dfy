/** What every step of the update log keeps. */
module ShardProofs {
  import opened ShardLog

  // ---------------------------------------------------------------- index and positions

  /** A record's pair is in the index exactly when the record is active. */
  lemma IndexedIffActive(s: State, rg: Range, i: nat)
    requires LogInv(s, rg) && i < |s.log|
    ensures KV(s.log[i]) in s.index <==> i in Act(s.log)
  {
    if KV(s.log[i]) in s.index {
      assert Owned(s.log, Act(s.log), KV(s.log[i]));
      var j :| j in Act(s.log) && KV(s.log[j]) == KV(s.log[i]);
      assert i == j || Apart(s.log, i, j) || Apart(s.log, j, i);
    }
  }

  /** The entry with the greatest hash. */
  lemma {:induction false} Greatest(log: seq<Rec>, b: set<nat>) returns (p: nat)
    requires b != {} && forall i :: i in b ==> i < |log|
    ensures p in b && forall i :: i in b ==> Leq(log[i].e.key.hash, log[p].e.key.hash)
  {
    p :| p in b;
    if b != {p} {
      assert b == (b - {p}) + {p};
      var q := Greatest(log, b - {p});
      if Less(log[p].e.key.hash, log[q].e.key.hash) { p := q; }
    }
  }

  /** Truncation is monotone, so the full-hash predecessor of any non-sentry hash of the shard
      is among the adjacent candidates of the index. */
  lemma PredecessorIsAdjacent(log: seq<Rec>, index: set<IndexKV>, rg: Range, h: KeyHash) returns (p: nat)
    requires Linked(log, Act(log), rg) && Indexed(log, Act(log), index)
    requires InRange(rg, h) && h != SentryHash(h.unit)
    ensures p in Act(log) && Adjacent(index, h, KV(log[p]))
    ensures Less(log[p].e.key.hash, h) && Leq(h, log[p].e.next)
  {
    var act := Act(log);
    var b := set i | i in act && Less(log[i].e.key.hash, h);
    assert ActiveHash(log, act, SentryHash(h.unit));
    var z :| z in act && log[z].e.key.hash == SentryHash(h.unit);
    assert z in b;
    p := Greatest(log, b);
    assert Resolves(log, act, rg, p);
    if log[p].e.next != rg.end {
      var j :| j in act && log[j].e.key.hash == log[p].e.next;
      assert Placeable(log, rg, p);
      assert j !in b;
    }
    forall o | o in index && o.unit == h.unit && o.k < h.k
      ensures o.k <= log[p].e.key.hash.k
    {
      assert Owned(log, act, o);
      var j :| j in act && KV(log[j]) == o;
      assert j in b;
    }
  }

  // ---------------------------------------------------------------- preservation

  /** Appending keeps the file gapless. */
  lemma AppendPlaced(s: State, e: Entry)
    requires Placed(s.log, s.endPos) && s.snEnd == |s.log| == e.sn
    ensures Placed(Append(s, e).log, Append(s, e).endPos)
  {
    var t := Append(s, e);
    forall n | 0 < n <= |t.log|
      ensures PosOf(t.log, t.endPos, n) == t.log[n - 1].pos + EntryLen(t.log[n - 1].e)
    {
      if n <= |s.log| { assert PosOf(s.log, s.endPos, n) == s.log[n - 1].pos + EntryLen(s.log[n - 1].e); }
    }
    forall i, j | 0 <= i < j < |t.log|
      ensures Apart(t.log, i, j)
    {
      if j < |s.log| {
        assert Apart(s.log, i, j);
      } else {
        assert PosOf(s.log, s.endPos, j) == s.endPos;
        if i + 1 < j { assert Apart(s.log, i, j - 1); }
      }
    }
  }

  /** A hash stays active when its entry is kept or handed over to p'. */
  lemma StaysActive(log: seq<Rec>, act: set<nat>, log': seq<Rec>, act': set<nat>, p: nat, p': nat, h: KeyHash)
    requires (forall j :: j in act ==> j < |log|) && (forall j :: j in act' ==> j < |log'|)
    requires log <= log' && p in act && p' in act' && log'[p'].e.key == log[p].e.key
    requires forall j :: j in act && j != p && log[j].e.key.hash == h ==> j in act'
    requires ActiveHash(log, act, h)
    ensures ActiveHash(log', act', h)
  {
    var j :| j in act && log[j].e.key.hash == h;
    assert log'[if j == p then p' else j].e.key.hash == h;
  }

  /** The links survive a replacement of entry i by a newer entry with the same key and link. */
  lemma RelinkRewrite(log: seq<Rec>, act: set<nat>, rg: Range, i: nat, r: Rec)
    requires forall j :: j in act ==> j < |log|
    requires Linked(log, act, rg) && i in act
    requires r.e.key == log[i].e.key && r.e.next == log[i].e.next
    ensures Linked(log + [r], act - {i} + {|log|}, rg)
  {
    var (log', act') := (log + [r], act - {i} + {|log|});
    forall h | ActiveHash(log, act, h) ensures ActiveHash(log', act', h) {
      var j :| j in act && log[j].e.key.hash == h;
      var j' := if j == i then |log| else j;
      assert j' in act' && log'[j'].e.key.hash == h;
    }
    forall j | j in act' ensures Placeable(log', rg, j) && Resolves(log', act', rg, j) {
      var o := if j == |log| then i else j;
      assert Placeable(log, rg, o) && Resolves(log, act, rg, o);
    }
    forall j, k | j in act' && k in act' && j != k ensures Before(log', j, k) || Before(log', k, j) {
      var (a, b) := (if j == |log| then i else j, if k == |log| then i else k);
      assert Before(log, a, b) || Before(log, b, a);
    }
  }

  /** log' is the log after an insertion behind p: the new entry, then the relinked p. */
  ghost predicate Inserted(log: seq<Rec>, log': seq<Rec>, p: nat)
    requires p < |log|
  {
    var n := |log|;
    && |log'| == n + 2 && log <= log'
    && Less(log[p].e.key.hash, log'[n].e.key.hash) && Less(log'[n].e.key.hash, log[p].e.next)
    && log'[n].e.key.hash.unit == log[p].e.key.hash.unit
    && log'[n].e.next == log[p].e.next
    && log'[n + 1].e.key == log[p].e.key && log'[n + 1].e.next == log'[n].e.key.hash
  }

  /** The links survive an insertion behind p. */
  lemma RelinkCreate(log: seq<Rec>, act: set<nat>, rg: Range, p: nat, log': seq<Rec>)
    requires forall j :: j in act ==> j < |log|
    requires Linked(log, act, rg) && p in act && Inserted(log, log', p)
    ensures Linked(log', act - {p} + {|log|, |log| + 1}, rg)
  {
    var n := |log|;
    var act' := act - {p} + {n, n + 1};
    forall u | rg.lo <= u < rg.hi ensures ActiveHash(log', act', SentryHash(u)) {
      StaysActive(log, act, log', act', p, n + 1, SentryHash(u));
    }
    forall j | j in act' ensures Resolves(log', act', rg, j) && Placeable(log', rg, j) {
      CreateResolves(log, act, rg, p, log', j);
    }
    forall j, k | j in act' && k in act' && j != k ensures Before(log', j, k) || Before(log', k, j) {
      CreateOrdered(log, act, rg, p, log', j, k);
    }
  }

  lemma CreateResolves(log: seq<Rec>, act: set<nat>, rg: Range, p: nat, log': seq<Rec>, j: nat)
    requires forall i :: i in act ==> i < |log|
    requires Linked(log, act, rg) && p in act && Inserted(log, log', p)
    requires j in act - {p} + {|log|, |log| + 1}
    ensures Resolves(log', act - {p} + {|log|, |log| + 1}, rg, j) && Placeable(log', rg, j)
  {
    var n := |log|;
    var o := if j >= n then p else j;
    assert Resolves(log, act, rg, o) && Placeable(log, rg, o);
    if j == n + 1 {
      assert log'[n].e.key.hash == log'[j].e.next;
    } else if log[o].e.next != rg.end {
      StaysActive(log, act, log', act - {p} + {n, n + 1}, p, n + 1, log[o].e.next);
    }
  }

  /** An old entry stays on its side of both the new entry and the rewritten predecessor. */
  lemma CreateOrdered(log: seq<Rec>, act: set<nat>, rg: Range, p: nat, log': seq<Rec>, j: nat, k: nat)
    requires forall i :: i in act ==> i < |log|
    requires Linked(log, act, rg) && p in act && Inserted(log, log', p)
    requires j != k && j in act - {p} + {|log|, |log| + 1} && k in act - {p} + {|log|, |log| + 1}
    ensures Before(log', j, k) || Before(log', k, j)
  {
    var (a, b) := (if j < |log| then j else p, if k < |log| then k else p);
    assert a == b || Before(log, a, b) || Before(log, b, a);
  }

  /** The links survive the removal of d, whose predecessor p is rewritten past it. */
  lemma RelinkDelete(log: seq<Rec>, act: set<nat>, rg: Range, d: nat, p: nat, r: Rec)
    requires forall j :: j in act ==> j < |log|
    requires Linked(log, act, rg) && d in act && p in act
    requires log[p].e.next == log[d].e.key.hash && log[d].e.key.hash != SentryHash(log[d].e.key.hash.unit)
    requires r.e.key == log[p].e.key && r.e.next == log[d].e.next
    ensures Linked(log + [r], act - {d, p} + {|log|}, rg)
  {
    var n := |log|;
    var (log', act') := (log + [r], act - {d, p} + {n});
    assert Placeable(log, rg, p) && Placeable(log, rg, d);
    forall h | ActiveHash(log, act, h) && h != log[d].e.key.hash ensures ActiveHash(log', act', h) {
      var j :| j in act && log[j].e.key.hash == h;
      var j' := if j == p then n else j;
      assert j' in act' && log'[j'].e.key.hash == h;
    }
    forall j | j in act' ensures Placeable(log', rg, j) && Resolves(log', act', rg, j) {
      var o := if j == n then d else j;
      assert Placeable(log, rg, o) && Resolves(log, act, rg, o);
      if j != n { assert Before(log, j, p) || Before(log, p, j); }
    }
    forall j, k | j in act' && k in act' && j != k ensures Before(log', j, k) || Before(log', k, j) {
      var (a, b) := (if j == n then p else j, if k == n then p else k);
      var (x, y) := (if j == n then d else j, if k == n then d else k);
      assert Before(log, a, b) || Before(log, b, a);
      assert Before(log, x, y) || Before(log, y, x);
    }
  }

  /** The three index updates follow the three changes of the active set. */
  lemma ReindexAppend(log: seq<Rec>, act: set<nat>, index: set<IndexKV>, r: Rec)
    requires forall j :: j in act ==> j < |log|
    requires Indexed(log, act, index)
    ensures Indexed(log + [r], act + {|log|}, index + {KV(r)})
  {
    var (log', act', index') := (log + [r], act + {|log|}, index + {KV(r)});
    forall kv | kv in index' ensures Owned(log', act', kv) {
      if kv == KV(r) { assert KV(log'[|log|]) == kv; } else {
        assert Owned(log, act, kv);
        var j :| j in act && KV(log[j]) == kv;
        assert KV(log'[j]) == kv;
      }
    }
    forall i | i in act' ensures KV(log'[i]) in index' {
      if i < |log| { assert KV(log[i]) in index; }
    }
  }

  lemma ReindexErase(log: seq<Rec>, act: set<nat>, index: set<IndexKV>, d: nat)
    requires forall j :: j in act ==> j < |log|
    requires forall i, j {:trigger Apart(log, i, j)} :: 0 <= i < j < |log| ==> Apart(log, i, j)
    requires Indexed(log, act, index) && d in act
    ensures Indexed(log, act - {d}, index - {KV(log[d])})
  {
    var (act', index') := (act - {d}, index - {KV(log[d])});
    forall i | i in act' ensures KV(log[i]) in index' { assert Apart(log, i, d) || Apart(log, d, i); }
    forall kv | kv in index' ensures Owned(log, act', kv) {
      assert Owned(log, act, kv);
      var j :| j in act && KV(log[j]) == kv;
      assert j in act';
    }
  }

  lemma ReindexRewrite(log: seq<Rec>, act: set<nat>, index: set<IndexKV>, i: nat, r: Rec)
    requires forall j :: j in act ==> j < |log|
    requires forall a, b {:trigger Apart(log, a, b)} :: 0 <= a < b < |log| ==> Apart(log, a, b)
    requires Indexed(log, act, index) && i in act && r.e.key == log[i].e.key
    ensures Indexed(log + [r], act - {i} + {|log|},
                    ChangeKV(index, r.e.key.hash.unit, r.e.key.hash.k, log[i].pos, r.pos))
  {
    ReindexErase(log, act, index, i);
    ReindexAppend(log, act - {i}, index - {KV(log[i])}, r);
  }

  lemma ReindexCreate(log1: seq<Rec>, act: set<nat>, index: set<IndexKV>, p: nat, r1: Rec, r2: Rec)
    requires log1 != [] && log1[|log1| - 1] == r1
    requires forall j :: j in act ==> j < |log1| - 1
    requires forall a, b {:trigger Apart(log1, a, b)} :: 0 <= a < b < |log1| ==> Apart(log1, a, b)
    requires Indexed(log1[..|log1| - 1], act, index) && p in act && r2.e.key == log1[p].e.key
    ensures Indexed(log1 + [r2], act - {p} + {|log1| - 1, |log1|},
                    ChangeKV(index + {KV(r1)}, r2.e.key.hash.unit, r2.e.key.hash.k, log1[p].pos, r2.pos))
  {
    var n := |log1| - 1;
    ReindexAppend(log1[..n], act, index, r1);
    assert log1[..n] + [r1] == log1;
    ReindexRewrite(log1, act + {n}, index + {KV(r1)}, p, r2);
    assert act - {p} + {n, n + 1} == act + {n} - {p} + {n + 1};
  }

  lemma ReindexDelete(log: seq<Rec>, act: set<nat>, index: set<IndexKV>, d: nat, p: nat, r: Rec)
    requires forall j :: j in act ==> j < |log|
    requires forall a, b {:trigger Apart(log, a, b)} :: 0 <= a < b < |log| ==> Apart(log, a, b)
    requires Indexed(log, act, index) && d in act && p in act && d != p && r.e.key == log[p].e.key
    ensures Indexed(log + [r], act - {d, p} + {|log|},
                    ChangeKV(index - {KV(log[d])}, r.e.key.hash.unit, r.e.key.hash.k, log[p].pos, r.pos))
  {
    ReindexErase(log, act, index, d);
    ReindexRewrite(log, act - {d}, index - {KV(log[d])}, p, r);
    assert act - {d, p} + {|log|} == act - {d} - {p} + {|log|};
  }

  /** A rewrite of an active entry keeps the log invariant. */
  lemma RewriteKeepsLog(s: State, rg: Range, i: nat, value: seq<nat>, version: int)
    requires LogInv(s, rg) && i in Act(s.log)
    ensures LogInv(Rewrite(s, i, value, version), rg)
    ensures Act(Rewrite(s, i, value, version).log) == Act(s.log) - {i} + {|s.log|}
  {
    var t := Rewrite(s, i, value, version);
    var (n, act) := (|s.log|, Act(s.log));
    var r := t.log[n];
    assert t.log == s.log + [r];
    assert Act(t.log) == act - {i} + {n} && DeactivatesActive(t.log) by { ActAppend(s.log, r); }
    assert Placed(t.log, t.endPos) by { AppendPlaced(s, r.e); }
    assert Linked(t.log, Act(t.log), rg) by { RelinkRewrite(s.log, act, rg, i, r); }
    assert Indexed(t.log, Act(t.log), t.index) by { ReindexRewrite(s.log, act, s.index, i, r); }
  }

  /** Appending entries and dropping active ones does not disturb the queue. */
  lemma PipelineSurvivesAppend(log: seq<Rec>, log': seq<Rec>, queue: seq<Job>, cursor: nat, start: nat)
    requires Pipelined(log, queue, cursor, start) && log <= log'
    requires forall i :: i in Act(log') && i < |log| ==> i in Act(log)
    ensures Pipelined(log', queue, cursor, start)
  {
  }

  lemma RewriteKeepsInv(s: State, rg: Range, i: nat, value: seq<nat>, version: int)
    requires Inv(s, rg) && i in Act(s.log)
    ensures Inv(Rewrite(s, i, value, version), rg)
    ensures Act(Rewrite(s, i, value, version).log) == Act(s.log) - {i} + {|s.log|}
  {
    RewriteKeepsLog(s, rg, i, value, version);
    PipelineSurvivesAppend(s.log, Rewrite(s, i, value, version).log, s.queue, s.cursor, s.snStart);
  }

  /** A step that only appends keeps the invariant if it keeps the log in order. */
  lemma InvSurvivesAppend(s: State, t: State, rg: Range)
    requires Inv(s, rg) && LogInv(t, rg) && s.log <= t.log
    requires (forall i :: i in Act(t.log) && i < |s.log| ==> i in Act(s.log))
    requires t.queue == s.queue && t.cursor == s.cursor && t.snStart == s.snStart
    requires t.compactDonePos == s.compactDonePos
    requires PosOf(t.log, t.endPos, s.snStart) == PosOf(s.log, s.endPos, s.snStart) && t.held == s.held
    ensures Inv(t, rg)
  {
    PipelineSurvivesAppend(s.log, t.log, s.queue, s.cursor, s.snStart);
  }

  lemma CreateActs(s: State, p: nat, key: Key, value: seq<nat>, version: int)
    requires DeactivatesActive(s.log) && p in Act(s.log) && s.log[p].e.sn == p
    ensures DeactivatesActive(CreateAt(s, p, key, value, version).log)
    ensures Act(CreateAt(s, p, key, value, version).log) == Act(s.log) - {p} + {|s.log|, |s.log| + 1}
  {
    var t := CreateAt(s, p, key, value, version);
    var n := |s.log|;
    ActAppend(s.log, t.log[n]);
    ActAppend(s.log + [t.log[n]], t.log[n + 1]);
    assert Elems(t.log[n].e.dsns) == {} && Elems(t.log[n + 1].e.dsns) == {p};
  }

  lemma CreatePlaced(s: State, p: nat, key: Key, value: seq<nat>, version: int)
    requires Placed(s.log, s.endPos) && s.snEnd == |s.log| && p < |s.log|
    ensures Placed(CreateAt(s, p, key, value, version).log, CreateAt(s, p, key, value, version).endPos)
    ensures Placed(s.log + [CreateAt(s, p, key, value, version).log[|s.log|]],
                   CreateAt(s, p, key, value, version).log[|s.log| + 1].pos)
  {
    var t := CreateAt(s, p, key, value, version);
    var n := |s.log|;
    AppendPlaced(s, t.log[n].e);
    AppendPlaced(Append(s, t.log[n].e), t.log[n + 1].e);
  }

  lemma CreateLinked(s: State, rg: Range, p: nat, key: Key, value: seq<nat>, version: int)
    requires Linked(s.log, Act(s.log), rg) && p in Act(s.log) && key.hash.unit == s.log[p].e.key.hash.unit
    requires Less(s.log[p].e.key.hash, key.hash) && Less(key.hash, s.log[p].e.next)
    ensures Linked(CreateAt(s, p, key, value, version).log, Act(s.log) - {p} + {|s.log|, |s.log| + 1}, rg)
  {
    RelinkCreate(s.log, Act(s.log), rg, p, CreateAt(s, p, key, value, version).log);
  }

  lemma CreateIndexed(s: State, p: nat, key: Key, value: seq<nat>, version: int)
    requires Placed(s.log, s.endPos) && s.snEnd == |s.log| && Indexed(s.log, Act(s.log), s.index) && p in Act(s.log)
    ensures var t := CreateAt(s, p, key, value, version);
            Indexed(t.log, Act(s.log) - {p} + {|s.log|, |s.log| + 1}, t.index)
  {
    var t := CreateAt(s, p, key, value, version);
    var (r1, r2) := (t.log[|s.log|], t.log[|s.log| + 1]);
    assert (s.log + [r1])[..|s.log|] == s.log && t.log == s.log + [r1] + [r2];
    CreatePlaced(s, p, key, value, version);
    ReindexCreate(s.log + [r1], Act(s.log), s.index, p, r1, r2);
  }

  lemma CreateKeepsLog(s: State, rg: Range, p: nat, key: Key, value: seq<nat>, version: int)
    requires LogInv(s, rg) && p in Act(s.log) && key.hash.unit == s.log[p].e.key.hash.unit
    requires Less(s.log[p].e.key.hash, key.hash) && Less(key.hash, s.log[p].e.next)
    ensures LogInv(CreateAt(s, p, key, value, version), rg)
    ensures Act(CreateAt(s, p, key, value, version).log) == Act(s.log) - {p} + {|s.log|, |s.log| + 1}
  {
    CreateActs(s, p, key, value, version);
    CreatePlaced(s, p, key, value, version);
    CreateLinked(s, rg, p, key, value, version);
    CreateIndexed(s, p, key, value, version);
  }

  lemma CreateKeepsInv(s: State, rg: Range, p: nat, key: Key, value: seq<nat>, version: int)
    requires Inv(s, rg) && IsGap(s, key.hash, p)
    ensures p in Act(s.log) && Inv(CreateAt(s, p, key, value, version), rg)
    ensures Act(CreateAt(s, p, key, value, version).log) == Act(s.log) - {p} + {|s.log|, |s.log| + 1}
  {
    IndexedIffActive(s, rg, p);
    var t := CreateAt(s, p, key, value, version);
    assert LogInv(t, rg) && Act(t.log) == Act(s.log) - {p} + {|s.log|, |s.log| + 1} by {
      CreateKeepsLog(s, rg, p, key, value, version);
    }
    InvSurvivesAppend(s, t, rg);
  }

  lemma DeleteActs(s: State, d: nat, p: nat, version: int)
    requires DeactivatesActive(s.log) && d in Act(s.log) && p in Act(s.log) && d != p
    requires s.log[d].e.sn == d && s.log[p].e.sn == p
    ensures DeactivatesActive(DeleteAt(s, d, p, version).log)
    ensures Act(DeleteAt(s, d, p, version).log) == Act(s.log) - {d, p} + {|s.log|}
  {
    var r := DeleteAt(s, d, p, version).log[|s.log|];
    ActAppend(s.log, r);
    assert Elems(r.e.dsns) == {d, p};
  }

  lemma DeleteKeepsLog(s: State, rg: Range, d: nat, p: nat, version: int)
    requires LogInv(s, rg) && d in Act(s.log) && p in Act(s.log) && d != p
    requires s.log[p].e.next == s.log[d].e.key.hash
    requires s.log[d].e.key.hash != SentryHash(s.log[d].e.key.hash.unit)
    ensures LogInv(DeleteAt(s, d, p, version), rg)
    ensures Act(DeleteAt(s, d, p, version).log) == Act(s.log) - {d, p} + {|s.log|}
  {
    var t := DeleteAt(s, d, p, version);
    var r := t.log[|s.log|];
    DeleteActs(s, d, p, version);
    assert Placed(t.log, t.endPos) by { AppendPlaced(s, r.e); }
    assert Linked(t.log, Act(t.log), rg) by { RelinkDelete(s.log, Act(s.log), rg, d, p, r); }
    assert Indexed(t.log, Act(t.log), t.index) by { ReindexDelete(s.log, Act(s.log), s.index, d, p, r); }
  }

  lemma DeleteFinds(s: State, rg: Range, key: Key, d: nat, p: nat)
    requires LogInv(s, rg) && IsVictim(s, key, d) && IsPrev(s, key, p)
    ensures d in Act(s.log) && p in Act(s.log) && key.hash != SentryHash(key.hash.unit)
  {
    IndexedIffActive(s, rg, d);
    IndexedIffActive(s, rg, p);
    assert Placeable(s.log, rg, p);
  }

  lemma DeleteKeepsInv(s: State, rg: Range, key: Key, d: nat, p: nat, version: int)
    requires Inv(s, rg) && IsVictim(s, key, d) && IsPrev(s, key, p)
    ensures d in Act(s.log) && p in Act(s.log) && key.hash != SentryHash(key.hash.unit)
    ensures Inv(DeleteAt(s, d, p, version), rg)
    ensures Act(DeleteAt(s, d, p, version).log) == Act(s.log) - {d, p} + {|s.log|}
  {
    DeleteFinds(s, rg, key, d, p);
    var t := DeleteAt(s, d, p, version);
    assert LogInv(t, rg) && Act(t.log) == Act(s.log) - {d, p} + {|s.log|} by { DeleteKeepsLog(s, rg, d, p, version); }
    InvSurvivesAppend(s, t, rg);
  }

  /** The head of the queue is the oldest serial number that can still be active. */
  lemma HeadIsOldest(log: seq<Rec>, queue: seq<Job>, cursor: nat, start: nat, i: nat)
    requires Pipelined(log, queue, cursor, start) && queue != [] && i in Act(log)
    ensures queue[0].e.sn <= i
  {
    assert i < cursor ==> Queued(queue, i);
  }

  /** A queue that starts with a stale job may drop it, and the window may close behind it. */
  lemma DropStaleHead(log: seq<Rec>, queue: seq<Job>, cursor: nat, start: nat, start': nat)
    requires Pipelined(log, queue, cursor, start) && queue != [] && queue[0].e.sn !in Act(log)
    requires start' == start || start' == queue[0].e.sn + 1
    ensures Pipelined(log, queue[1..], cursor, start')
  {
    forall i | i in Act(log) && i < cursor ensures Queued(queue[1..], i) {
      assert Queued(queue, i);
      var q :| 0 <= q < |queue| && queue[q].e.sn == i;
      assert queue[1..][q - 1].e.sn == i;
    }
  }

  /** A consumed job either was stale and disappears, or names the oldest active entry, which
      moves to the end unchanged while the window closes behind it. */
  lemma ConsumeKeepsInv(s: State, rg: Range)
    requires Inv(s, rg)
    ensures Inv(Consume(s), rg) && s.snStart <= Consume(s).snStart <= s.snEnd
    ensures s.queue != [] && JobLive(s, s.queue[0]) ==>
              && s.queue[0].e.sn in Act(s.log)
              && (forall i :: i in Act(s.log) ==> s.queue[0].e.sn <= i)
              && Act(Consume(s).log) == Act(s.log) - {s.queue[0].e.sn} + {|s.log|}
    ensures !(s.queue != [] && JobLive(s, s.queue[0])) ==> Consume(s).log == s.log
  {
    if s.queue != [] {
      var j := s.queue[0];
      var i := j.e.sn;
      IndexedIffActive(s, rg, i);
      if !JobLive(s, j) {
        DropStaleHead(s.log, s.queue, s.cursor, s.snStart, s.snStart);
      } else {
        ConsumeLive(s, rg);
        forall k | k in Act(s.log) ensures i <= k { HeadIsOldest(s.log, s.queue, s.cursor, s.snStart, k); }
      }
    }
  }

  /** The head job goes and the window closes behind it. */
  ghost function Closed(u: State): State
    requires u.queue != []
  {
    u.(queue := u.queue[1..], snStart := u.queue[0].e.sn + 1,
       compactDonePos := u.queue[0].oldPos + EntryLen(u.queue[0].e))
  }

  lemma ConsumeLive(s: State, rg: Range)
    requires Inv(s, rg) && s.queue != [] && JobLive(s, s.queue[0]) && s.queue[0].e.sn in Act(s.log)
    ensures Inv(Consume(s), rg)
    ensures Act(Consume(s).log) == Act(s.log) - {s.queue[0].e.sn} + {|s.log|}
  {
    var j := s.queue[0].e;
    RewriteKeepsInv(s, rg, j.sn, j.value, j.version);
    CloseWindow(Rewrite(s, j.sn, j.value, j.version), rg);
    ConsumeMoves(s);
  }

  /** Consuming a live job is a rewrite of its entry followed by closing the window. */
  lemma ConsumeMoves(s: State)
    requires s.queue != [] && JobLive(s, s.queue[0])
    requires s.queue[0].e.sn < |s.log|
    requires s.queue[0] == Job(s.log[s.queue[0].e.sn].pos, s.log[s.queue[0].e.sn].e)
    ensures var j := s.queue[0].e; Consume(s) == Closed(Rewrite(s, j.sn, j.value, j.version))
  {
  }

  /** Once its entry is inactive the head job may go and the window closes behind it. */
  lemma CloseWindow(u: State, rg: Range)
    requires Inv(u, rg) && u.queue != [] && u.queue[0].e.sn !in Act(u.log)
    ensures Inv(Closed(u), rg) && Closed(u).log == u.log
  {
    var j := u.queue[0];
    DropStaleHead(u.log, u.queue, u.cursor, u.snStart, j.e.sn + 1);
    assert PosOf(u.log, u.endPos, j.e.sn + 1) == j.oldPos + EntryLen(j.e);
  }

  /** A scanned entry may be queued whether it is active or not, and must be if it is. */
  lemma ScanKeepsPipeline(log: seq<Rec>, queue: seq<Job>, cursor: nat, start: nat, queue': seq<Job>)
    requires Pipelined(log, queue, cursor, start) && cursor < |log| && log[cursor].e.sn == cursor
    requires queue' == queue + [Job(log[cursor].pos, log[cursor].e)] || (queue' == queue && cursor !in Act(log))
    ensures Pipelined(log, queue', cursor + 1, start)
  {
    forall i | i in Act(log) && i < cursor + 1 ensures Queued(queue', i) {
      if i == cursor {
        assert queue'[|queue|].e.sn == cursor;
      } else {
        assert Queued(queue, i);
        var q :| 0 <= q < |queue| && queue[q].e.sn == i;
        assert queue'[q].e.sn == i;
      }
    }
  }

  /** Passing over a dead entry keeps the invariant. */
  lemma LookKeepsInv(s: State, rg: Range)
    requires Inv(s, rg)
    ensures Inv(Look(s), rg)
  {
    if s.cursor < |s.log| && Look(s).cursor > s.cursor {
      IndexedIffActive(s, rg, s.cursor);
      ScanKeepsPipeline(s.log, s.queue, s.cursor, s.snStart, s.queue);
    }
  }

  /** So does queueing an entry that was live when the scanner looked, whatever the updater has
      done to it since. */
  lemma ProduceKeepsInv(s: State, rg: Range)
    requires Inv(s, rg)
    ensures Inv(Produce(s), rg)
  {
    if s.held { ScanKeepsPipeline(s.log, s.queue, s.cursor, s.snStart, Produce(s).queue); }
  }

  /** Everything below the window is inactive. */
  lemma BelowWindowInactive(s: State, rg: Range, i: nat)
    requires Inv(s, rg) && i < s.snStart
    ensures i !in Act(s.log)
  {
    if i in Act(s.log) && Queued(s.queue, i) {
      assert false;
    }
  }
}
