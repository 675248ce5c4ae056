/** A shard with the hybrid index. Every unit of the shard is mirrored by a hybrid unit with its file,
    overlay and caches; the lookups of the updater and of the prefetcher pass through them, and the
    merger may rewrite a unit at any time. */
module HybridShard {
  import opened Basics
  import opened ShardLog
  import opened ShardProofs
  import opened ShardRuns
  import H = Hybrid
  import U = HybridUnit

  /** Positions that the hybrid index can hold. */
  const LIMIT := 0x8000_0000_0000

  // ---------------------------------------------------------------- a unit and its part of the shard

  /** The visible pairs of the unit are the pairs of the index. */
  ghost predicate Mirrors(index: set<IndexKV>, u: nat, w: H.View) {
    forall k: nat, v: nat {:trigger H.IsLive(w, k, v)} {:trigger IndexKV(u, k, v)} ::
      H.IsLive(w, k, v) <==> IndexKV(u, k, v) in index
  }

  /** Entry i belongs to unit u and its truncated key is below q. */
  ghost predicate Under(log: seq<Rec>, u: nat, q: nat, i: nat)
    requires i < |log|
  {
    log[i].e.key.hash.unit == u && log[i].e.key.hash.k < q
  }

  /** The active entry with the greatest hash among those whose truncated key is below q. */
  ghost predicate Topmost(log: seq<Rec>, act: set<nat>, u: nat, q: nat, p: nat)
    requires forall i :: i in act ==> i < |log|
  {
    && p in act && Under(log, u, q, p)
    && forall i {:trigger Under(log, u, q, i)} ::
         i in act && Under(log, u, q, i) ==> Leq(log[i].e.key.hash, log[p].e.key.hash)
  }

  ghost predicate InOverlay(w: H.View, r: Rec) { (r.e.key.hash.k, r.pos) in w.newKv }

  /** A file key whose records are all erased hides nothing that an update could need: the greatest
      active entry below it is in the overlay. */
  ghost predicate Guarded(log: seq<Rec>, act: set<nat>, u: nat, w: H.View)
    requires forall i :: i in act ==> i < |log|
  {
    forall q: nat, p: nat {:trigger Topmost(log, act, u, q, p)} ::
      H.Dead(w, q) && Topmost(log, act, u, q, p) ==> InOverlay(w, log[p])
  }

  /** Only old positions are erased. */
  ghost predicate OldErased(w: H.View, endPos: nat) {
    forall v {:trigger v in w.erased} :: v in w.erased ==> v < endPos
  }

  ghost predicate StartsAtZero(w: H.View) { w.file != [] && w.file[0].0 == 0 }

  ghost predicate ViewOk(s: State, u: nat, w: H.View) {
    && H.Ok(w) && Mirrors(s.index, u, w) && StartsAtZero(w)
    && Guarded(s.log, Act(s.log), u, w) && OldErased(w, s.endPos)
  }

  ghost predicate UnitOk(s: State, u: nat, x: U.UnitState) { U.Sound(x) && ViewOk(s, u, x.w) }

  // ---------------------------------------------------------------- what a lookup finds

  /** `for_each_adjacent_value` at this height hands out the pair. */
  ghost predicate Offers(x: U.UnitState, height: int, k: nat, y: nat, v: nat) {
    || (y == k && H.IsLive(x.w, k, v))
    || exists f, o :: U.Looked(x, height, k, f) && H.OverAnswer(x.w, k, o) && H.Delivered(x.w, k, f, o, y, v)
  }

  /** The answer comes from a cache that misses the key before, and the overlay does not make up for it. */
  ghost predicate Lost(x: U.UnitState, height: int, k: nat, y: nat, v: nat) {
    U.Missing(x, height, k) && y < k && (y, v) !in x.w.newKv
  }

  /** Entry p is the greatest active one below h, and in the unit of h. */
  ghost predicate Nearest(s: State, h: KeyHash, p: nat) {
    && p in Act(s.log) && s.log[p].e.key.hash.unit == h.unit && Less(s.log[p].e.key.hash, h)
    && forall i {:trigger s.log[i]} ::
         i in Act(s.log) && Less(s.log[i].e.key.hash, h) ==> Leq(s.log[i].e.key.hash, s.log[p].e.key.hash)
  }

  lemma LivePair(s: State, rg: Range, w: H.View, i: nat)
    requires LogInv(s, rg) && i in Act(s.log) && Mirrors(s.index, s.log[i].e.key.hash.unit, w)
    ensures H.IsLive(w, s.log[i].e.key.hash.k, s.log[i].pos)
  {
    IndexedIffActive(s, rg, i);
    assert KV(s.log[i]) == IndexKV(s.log[i].e.key.hash.unit, s.log[i].e.key.hash.k, s.log[i].pos);
  }

  lemma PairLive(s: State, rg: Range, u: nat, w: H.View, k: nat, v: nat) returns (i: nat)
    requires LogInv(s, rg) && Mirrors(s.index, u, w) && H.IsLive(w, k, v)
    ensures i in Act(s.log) && KV(s.log[i]) == IndexKV(u, k, v)
  {
    assert Owned(s.log, Act(s.log), IndexKV(u, k, v));
    i :| i in Act(s.log) && KV(s.log[i]) == IndexKV(u, k, v);
  }

  /** Below the truncated key of h nothing visible lies above its predecessor. */
  lemma NothingAbove(s: State, rg: Range, h: KeyHash, p: nat, w: H.View, y: nat)
    requires LogInv(s, rg) && Mirrors(s.index, h.unit, w) && Nearest(s, h, p)
    requires y < h.k && H.LiveKey(w, y)
    ensures y <= s.log[p].e.key.hash.k
  {
    var v: nat :| H.IsLive(w, y, v);
    var i := PairLive(s, rg, h.unit, w, y, v);
    assert Leq(s.log[i].e.key.hash, s.log[p].e.key.hash);
  }

  lemma NearestIsLivePred(s: State, rg: Range, h: KeyHash, p: nat, w: H.View)
    requires LogInv(s, rg) && Mirrors(s.index, h.unit, w) && Nearest(s, h, p) && s.log[p].e.key.hash.k < h.k
    ensures H.LivePred(w, h.k, s.log[p].e.key.hash.k) && H.IsLive(w, s.log[p].e.key.hash.k, s.log[p].pos)
  {
    LivePair(s, rg, w, p);
    assert H.LiveKey(w, s.log[p].e.key.hash.k);
    forall y: nat | s.log[p].e.key.hash.k < y < h.k ensures !H.LiveKey(w, y) {
      if H.LiveKey(w, y) { NothingAbove(s, rg, h, p, w, y); }
    }
  }

  /** The predecessor is also the topmost entry below any key between. */
  lemma NearestIsTopmost(s: State, h: KeyHash, p: nat, q: nat)
    requires Nearest(s, h, p) && s.log[p].e.key.hash.k < q <= h.k
    ensures Topmost(s.log, Act(s.log), h.unit, q, p)
  {
  }

  /** If it is in the overlay, it is at the overlay's largest smaller key. */
  lemma OverlayPred(w: H.View, k: nat, y: nat, v: nat, o: Option<nat>)
    requires H.LivePred(w, k, y) && (y, v) in w.newKv && H.OverAnswer(w, k, o)
    ensures o == Some(y)
  {
    assert H.OverKey(w, y);
    if o.Some? { H.KeysOfParts(w, o.value); }
  }

  /** An overlay pair of the key before is delivered whatever the file says. */
  lemma OverlayDelivered(w: H.View, k: nat, y: nat, v: nat, f: Option<nat>, o: Option<nat>)
    requires H.LivePred(w, k, y) && (y, v) in w.newKv && H.OverAnswer(w, k, o) && (f.None? || H.FileAnswer(w, k, f))
    ensures H.Delivered(w, k, f, o, y, v)
  {
    OverlayPred(w, k, y, v, o);
    if f.Some? && f.value > y {
      H.KeysOfParts(w, f.value);
      assert !H.LiveKey(w, f.value);
      assert H.AllErased(w, f);
    }
  }

  /** A file pair of the key before is delivered if the file's answer is that key. */
  lemma FileDelivered(w: H.View, k: nat, y: nat, v: nat, o: Option<nat>)
    requires H.LivePred(w, k, y) && H.LiveInFile(w, y, v) && H.OverAnswer(w, k, o)
    ensures H.Delivered(w, k, Some(y), o, y, v)
  {
    if o.Some? && o.value >= y { H.KeysOfParts(w, o.value); }
    assert !H.AllErased(w, Some(y));
  }

  /** A file key strictly between is dead. */
  lemma BetweenIsDead(w: H.View, k: nat, y: nat, q: nat)
    requires H.LivePred(w, k, y) && H.FilePred(w, k, q) && y < q
    ensures H.Dead(w, q)
  {
    H.KeysOfParts(w, q);
    assert !H.LiveKey(w, q);
  }

  /** If the predecessor is in the file, the file's answer leads to it, or it is in the overlay. */
  lemma FileOrOverlay(s: State, h: KeyHash, p: nat, w: H.View, f: Option<nat>)
    requires Guarded(s.log, Act(s.log), h.unit, w) && Nearest(s, h, p) && s.log[p].e.key.hash.k < h.k
    requires H.LivePred(w, h.k, s.log[p].e.key.hash.k) && H.FileAnswer(w, h.k, f)
    requires (s.log[p].e.key.hash.k, s.log[p].pos) in w.file
    ensures f == Some(s.log[p].e.key.hash.k) || InOverlay(w, s.log[p])
  {
    var y := s.log[p].e.key.hash.k;
    assert H.FileKey(w, y);
    if f != Some(y) {
      BetweenIsDead(w, h.k, y, f.value);
      NearestIsTopmost(s, h, p, f.value);
    }
  }

  /** Without a stale answer the predecessor is delivered, also when other records are not. */
  lemma FreshDelivers(s: State, rg: Range, h: KeyHash, p: nat, w: H.View, f: Option<nat>, o: Option<nat>)
    requires LogInv(s, rg) && ViewOk(s, h.unit, w) && Nearest(s, h, p) && s.log[p].e.key.hash.k < h.k
    requires H.FileAnswer(w, h.k, f) && H.OverAnswer(w, h.k, o)
    ensures H.Delivered(w, h.k, f, o, s.log[p].e.key.hash.k, s.log[p].pos)
  {
    var (y, v) := (s.log[p].e.key.hash.k, s.log[p].pos);
    NearestIsLivePred(s, rg, h, p, w);
    if (y, v) in w.newKv {
      OverlayDelivered(w, h.k, y, v, f, o);
    } else {
      FileOrOverlay(s, h, p, w, f);
      FileDelivered(w, h.k, y, v, o);
    }
  }

  lemma {:induction false} FileAnswers(w: H.View, k: nat) returns (f: Option<nat>)
    ensures H.FileAnswer(w, k, f)
  {
    if k == 0 { return None; }
    f := FileAnswers(w, k - 1);
    if H.FileKey(w, k - 1) { f := Some(k - 1); }
  }

  /** Both answers are determined. */
  lemma SameAnswers(w: H.View, k: nat, f: Option<nat>, f': Option<nat>, o: Option<nat>, o': Option<nat>)
    ensures H.FileAnswer(w, k, f) && H.FileAnswer(w, k, f') ==> f == f'
    ensures H.OverAnswer(w, k, o) && H.OverAnswer(w, k, o') ==> o == o'
  {
    if H.FileAnswer(w, k, f) && H.FileAnswer(w, k, f') {
      assert f.Some? ==> H.FileKey(w, f.value);
      assert f'.Some? ==> H.FileKey(w, f'.value);
    }
    if H.OverAnswer(w, k, o) && H.OverAnswer(w, k, o') {
      assert o.Some? ==> H.OverKey(w, o.value);
      assert o'.Some? ==> H.OverKey(w, o'.value);
    }
  }

  /** The lookup hands out the full-hash predecessor of h, if and only if it is not lost: without a
      stale answer always, and with one when the predecessor has the truncated key of h or is among
      the overlay values at the overlay's largest smaller key. */
  lemma PredecessorOfferedIff(s: State, rg: Range, h: KeyHash, height: int, p: nat, x: U.UnitState)
    requires LogInv(s, rg) && UnitOk(s, h.unit, x) && Nearest(s, h, p)
    ensures Offers(x, height, h.k, s.log[p].e.key.hash.k, s.log[p].pos) <==>
            !Lost(x, height, h.k, s.log[p].e.key.hash.k, s.log[p].pos)
  {
    var (y, v) := (s.log[p].e.key.hash.k, s.log[p].pos);
    LivePair(s, rg, x.w, p);
    if y < h.k {
      var o := H.OverAnswers(x.w, h.k);
      if !U.Missing(x, height, h.k) {
        var f := FileAnswers(x.w, h.k);
        FreshDelivers(s, rg, h, p, x.w, f, o);
        assert U.Looked(x, height, h.k, f);
      } else if (y, v) in x.w.newKv {
        NearestIsLivePred(s, rg, h, p, x.w);
        OverlayDelivered(x.w, h.k, y, v, None, o);
        assert U.Looked(x, height, h.k, None);
      }
    }
  }

  /** And then it stands at the overlay's largest smaller key. */
  lemma LostInOverlayTerms(s: State, rg: Range, h: KeyHash, height: int, p: nat, x: U.UnitState, o: Option<nat>)
    requires LogInv(s, rg) && UnitOk(s, h.unit, x) && Nearest(s, h, p) && H.OverAnswer(x.w, h.k, o)
    ensures Lost(x, height, h.k, s.log[p].e.key.hash.k, s.log[p].pos) <==>
            && U.Missing(x, height, h.k) && s.log[p].e.key.hash.k < h.k
            && !(o == Some(s.log[p].e.key.hash.k) && (o.value, s.log[p].pos) in x.w.newKv)
  {
    if s.log[p].e.key.hash.k < h.k && InOverlay(x.w, s.log[p]) {
      NearestIsLivePred(s, rg, h, p, x.w);
      OverlayPred(x.w, h.k, s.log[p].e.key.hash.k, s.log[p].pos, o);
    }
  }

  /** Whatever it hands out is an active entry of the unit. */
  lemma OfferedIsActive(s: State, rg: Range, u: nat, height: int, k: nat, x: U.UnitState, y: nat, v: nat)
      returns (i: nat)
    requires LogInv(s, rg) && UnitOk(s, u, x) && Offers(x, height, k, y, v)
    ensures i in Act(s.log) && KV(s.log[i]) == IndexKV(u, y, v)
  {
    assert H.IsLive(x.w, y, v);
    i := PairLive(s, rg, u, x.w, y, v);
  }

  // ---------------------------------------------------------------- what the updates keep

  function Changed(w: H.View, k: nat, v: nat, n: nat): H.View { H.Added(H.Erased(w, k, v), k, n) }

  lemma PosBelowEnd(s: State, rg: Range, i: nat)
    requires LogInv(s, rg) && i < |s.log|
    ensures s.log[i].pos < s.endPos
  {
    var n := |s.log|;
    assert PosOf(s.log, s.endPos, n) == s.log[n - 1].pos + EntryLen(s.log[n - 1].e);
    if i < n - 1 { assert Apart(s.log, i, n - 1); }
  }

  /** Positions at and behind the end of the log are fresh. */
  lemma FreshPos(s: State, rg: Range, u: nat, w: H.View, n: nat)
    requires LogInv(s, rg) && Mirrors(s.index, u, w) && OldErased(w, s.endPos) && s.endPos <= n < LIMIT
    ensures H.Fresh(w, n)
  {
    forall k: nat ensures !H.IsLive(w, k, n) {
      if H.IsLive(w, k, n) {
        var i := PairLive(s, rg, u, w, k, n);
        PosBelowEnd(s, rg, i);
      }
    }
  }

  lemma MirrorsAdd(index: set<IndexKV>, u: nat, w: H.View, k: nat, v: nat)
    requires H.Ok(w) && Mirrors(index, u, w) && H.Fresh(w, v)
    ensures Mirrors(index + {IndexKV(u, k, v)}, u, H.Added(w, k, v))
  {
    H.AddedOk(w, k, v);
  }

  lemma MirrorsErase(index: set<IndexKV>, u: nat, w: H.View, k: nat, v: nat)
    requires H.Ok(w) && Mirrors(index, u, w) && H.IsLive(w, k, v)
    ensures H.Ok(H.Erased(w, k, v)) && Mirrors(index - {IndexKV(u, k, v)}, u, H.Erased(w, k, v))
  {
    H.LiveNotElsewhere(w, k, v);
    H.ErasedOk(w, k, v);
    forall x: nat, y: nat
      ensures H.IsLive(H.Erased(w, k, v), x, y) <==> IndexKV(u, x, y) in index - {IndexKV(u, k, v)}
    {
      assert H.IsLive(w, x, y) && H.IsLive(w, k, v) && y == v ==> x == k;
    }
  }

  lemma MirrorsChange(index: set<IndexKV>, u: nat, w: H.View, k: nat, v: nat, n: nat)
    requires H.Ok(w) && Mirrors(index, u, w) && H.IsLive(w, k, v) && H.Fresh(w, n)
    ensures H.Ok(Changed(w, k, v, n)) && Mirrors(ChangeKV(index, u, k, v, n), u, Changed(w, k, v, n))
    ensures H.OverKey(Changed(w, k, v, n), k)
  {
    MirrorsErase(index, u, w, k, v);
    H.FreshLater(w, k, v, n);
    H.AddedOk(H.Erased(w, k, v), k, n);
    MirrorsAdd(index - {IndexKV(u, k, v)}, u, H.Erased(w, k, v), k, n);
  }

  lemma MirrorsElsewhere(index: set<IndexKV>, index': set<IndexKV>, u: nat, w: H.View)
    requires Mirrors(index, u, w)
    requires forall kv: IndexKV {:trigger kv in index'} :: kv.unit == u ==> (kv in index' <==> kv in index)
    ensures Mirrors(index', u, w)
  {
  }

  lemma DeadAdded(w: H.View, k: nat, v: nat, q: nat)
    requires H.Ok(w) && H.Fresh(w, v) && H.Dead(H.Added(w, k, v), q)
    ensures H.Dead(w, q)
  {
    H.AddedOk(w, k, v);
    H.DeadSame(w, H.Added(w, k, v), q);
  }

  lemma DeadChanged(w: H.View, k: nat, v: nat, n: nat, q: nat)
    requires H.Ok(w) && H.IsLive(w, k, v) && H.Fresh(w, n) && H.Dead(Changed(w, k, v, n), q)
    ensures H.Dead(w, q)
  {
    H.ChangeEffect(w, k, v, n);
    assert H.OverKey(Changed(w, k, v, n), k);
    H.OthersStay(w, k, v, q);
    H.DeadSame(w, Changed(w, k, v, n), q);
  }

  /** The overlay after a change: the old pairs without the changed one, and the new one. */
  lemma OverlayChanged(w: H.View, k: nat, v: nat, n: nat)
    requires H.Ok(w)
    ensures forall q: H.KV {:trigger q in Changed(w, k, v, n).newKv} ::
              q in Changed(w, k, v, n).newKv <==> (q in w.newKv && q != (k, v)) || q == (k, n)
  {
    H.RemoveOk(w.newKv, (k, v));
    H.InsertHas(H.Remove(w.newKv, (k, v)), (k, n));
  }

  /** An entry of the later log is in the overlay or was there, and not in the overlay, before. */
  ghost predicate Carried(log: seq<Rec>, act: set<nat>, w: H.View, log': seq<Rec>, w': H.View, i: nat)
    requires i < |log'| && forall j :: j in act ==> j < |log|
  {
    InOverlay(w', log'[i]) || (i in act && log'[i] == log[i] && !InOverlay(w, log[i]))
  }

  /** The guard survives if no file key dies, no key is dropped, and only entries outside the overlay
      stay outside of it. */
  lemma GuardKept(log: seq<Rec>, act: set<nat>, w: H.View, log': seq<Rec>, act': set<nat>, w': H.View, u: nat)
    requires (forall j :: j in act ==> j < |log|) && (forall j :: j in act' ==> j < |log'|)
    requires Guarded(log, act, u, w)
    requires forall q: nat {:trigger H.Dead(w', q)} :: H.Dead(w', q) ==> H.Dead(w, q)
    requires forall i {:trigger Carried(log, act, w, log', w', i)} ::
               i in act' && log'[i].e.key.hash.unit == u ==> Carried(log, act, w, log', w', i)
    requires forall i {:trigger log[i]} ::
               i in act && log[i].e.key.hash.unit == u ==> Backed(log', act', log[i].e.key)
    ensures Guarded(log', act', u, w')
  {
    forall q: nat, p: nat | H.Dead(w', q) && Topmost(log', act', u, q, p) ensures InOverlay(w', log'[p]) {
      assert Carried(log, act, w, log', w', p);
      if !InOverlay(w', log'[p]) {
        forall i | i in act && Under(log, u, q, i) ensures Leq(log[i].e.key.hash, log[p].e.key.hash) {
          var i' :| i' in act' && log'[i'].e.key == log[i].e.key;
          assert Under(log', u, q, i');
        }
        assert Topmost(log, act, u, q, p);
      }
    }
  }

  /** t is s after entry i was rewritten at the end. */
  ghost predicate Rewrote(s: State, t: State, i: nat) {
    && i in Act(s.log) && s.endPos < t.endPos && |t.log| == |s.log| + 1 && s.log <= t.log
    && t.log[|s.log|].pos == s.endPos && t.log[|s.log|].e.key == s.log[i].e.key
    && Act(t.log) == Act(s.log) - {i} + {|s.log|}
    && t.index == ChangeKV(s.index, s.log[i].e.key.hash.unit, s.log[i].e.key.hash.k, s.log[i].pos, s.endPos)
  }

  lemma RewroteGuarded(s: State, rg: Range, t: State, i: nat, w: H.View)
    requires LogInv(s, rg) && Rewrote(s, t, i) && ViewOk(s, s.log[i].e.key.hash.unit, w) && s.endPos < LIMIT
    ensures var w' := Changed(w, s.log[i].e.key.hash.k, s.log[i].pos, s.endPos);
            Guarded(t.log, Act(t.log), s.log[i].e.key.hash.unit, w')
  {
    var (u, k, v, n) := (s.log[i].e.key.hash.unit, s.log[i].e.key.hash.k, s.log[i].pos, s.endPos);
    var w' := Changed(w, k, v, n);
    LivePair(s, rg, w, i);
    FreshPos(s, rg, u, w, n);
    forall q: nat | H.Dead(w', q) ensures H.Dead(w, q) { DeadChanged(w, k, v, n, q); }
    OverlayChanged(w, k, v, n);
    forall j | j in Act(t.log) && t.log[j].e.key.hash.unit == u ensures Carried(s.log, Act(s.log), w, t.log, w', j) {
      if j < |s.log| { assert Apart(s.log, i, j) || Apart(s.log, j, i); }
    }
    forall j | j in Act(s.log) && s.log[j].e.key.hash.unit == u ensures Backed(t.log, Act(t.log), s.log[j].e.key) {
      assert t.log[if j == i then |s.log| else j].e.key == s.log[j].e.key;
    }
    GuardKept(s.log, Act(s.log), w, t.log, Act(t.log), w', u);
  }

  /** Rewriting an entry and changing its unit accordingly keeps them in step. */
  lemma RewroteKeeps(s: State, rg: Range, t: State, i: nat, w: H.View)
    requires LogInv(s, rg) && Rewrote(s, t, i) && ViewOk(s, s.log[i].e.key.hash.unit, w) && s.endPos < LIMIT
    ensures ViewOk(t, s.log[i].e.key.hash.unit, Changed(w, s.log[i].e.key.hash.k, s.log[i].pos, s.endPos))
  {
    var (u, k, v, n) := (s.log[i].e.key.hash.unit, s.log[i].e.key.hash.k, s.log[i].pos, s.endPos);
    LivePair(s, rg, w, i);
    FreshPos(s, rg, u, w, n);
    PosBelowEnd(s, rg, i);
    MirrorsChange(s.index, u, w, k, v, n);
    RewroteGuarded(s, rg, t, i, w);
  }

  /** Entries of unit u are the same in both logs. */
  ghost predicate SameUnit(s: State, t: State, u: nat) {
    && s.endPos <= t.endPos && |s.log| <= |t.log| && s.log <= t.log
    && (forall i {:trigger i in Act(t.log)} ::
      i in Act(t.log) && t.log[i].e.key.hash.unit == u ==> i in Act(s.log))
    && (forall i {:trigger i in Act(s.log)} ::
      i in Act(s.log) && s.log[i].e.key.hash.unit == u ==> i in Act(t.log))
    && forall kv: IndexKV {:trigger kv in t.index} :: kv.unit == u ==> (kv in t.index <==> kv in s.index)
  }

  lemma ElsewhereKeeps(s: State, t: State, u: nat, w: H.View)
    requires ViewOk(s, u, w) && SameUnit(s, t, u)
    ensures ViewOk(t, u, w)
  {
    MirrorsElsewhere(s.index, t.index, u, w);
    forall i | i in Act(t.log) && t.log[i].e.key.hash.unit == u ensures Carried(s.log, Act(s.log), w, t.log, w, i) { }
    forall i | i in Act(s.log) && s.log[i].e.key.hash.unit == u ensures Backed(t.log, Act(t.log), s.log[i].e.key) {
      assert t.log[i].e.key == s.log[i].e.key;
    }
    GuardKept(s.log, Act(s.log), w, t.log, Act(t.log), w, u);
  }

  /** Merging keeps a unit in step; it leaves no erased records. */
  lemma MergeKeepsView(s: State, rg: Range, u: nat, w: H.View, w': H.View)
    requires LogInv(s, rg) && ViewOk(s, u, w) && H.IsMerge(w, w') && rg.lo <= u < rg.hi
    ensures ViewOk(s, u, w')
  {
    H.MergeKeeps(w, w');
    forall q: nat ensures !H.Dead(w', q) {
      if z: nat :| (q, z) in w'.file { assert H.LiveInFile(w', q, z); }
    }
    assert ActiveHash(s.log, Act(s.log), SentryHash(u));
    var z :| z in Act(s.log) && s.log[z].e.key.hash == SentryHash(u);
    LivePair(s, rg, w, z);
    assert (0, s.log[z].pos) in w'.file;
    var n :| 0 <= n < |w'.file| && w'.file[n] == (0, s.log[z].pos);
    assert n == 0 || H.Lt(w'.file[0], w'.file[n]);
  }

  /** t is s after an entry for h was inserted behind entry p. */
  ghost predicate Created(s: State, t: State, h: KeyHash, p: nat) {
    var n := |s.log|;
    && p in Act(s.log) && s.log[p].e.key.hash.unit == h.unit && |t.log| == n + 2 && s.log <= t.log
    && t.log[n].pos == s.endPos < t.log[n + 1].pos < t.endPos
    && t.log[n].e.key.hash == h && t.log[n + 1].e.key == s.log[p].e.key
    && Act(t.log) == Act(s.log) - {p} + {n, n + 1}
    && t.index == ChangeKV(s.index + {IndexKV(h.unit, h.k, s.endPos)},
                           h.unit, s.log[p].e.key.hash.k, s.log[p].pos, t.log[n + 1].pos)
  }

  function Spliced(w: H.View, k: nat, n: nat, y: nat, v: nat, n': nat): H.View {
    Changed(H.Added(w, k, n), y, v, n')
  }

  /** What is needed of the positions. */
  lemma CreatedPositions(s: State, rg: Range, t: State, h: KeyHash, p: nat, w: H.View)
    requires LogInv(s, rg) && Created(s, t, h, p) && ViewOk(s, h.unit, w) && t.endPos <= LIMIT
    ensures var w1 := H.Added(w, h.k, s.endPos);
            && H.Fresh(w, s.endPos) && H.Ok(w1) && H.IsLive(w1, s.log[p].e.key.hash.k, s.log[p].pos)
            && H.Fresh(w1, t.log[|s.log| + 1].pos) && s.log[p].pos < s.endPos
  {
    var n' := t.log[|s.log| + 1].pos;
    FreshPos(s, rg, h.unit, w, s.endPos);
    FreshPos(s, rg, h.unit, w, n');
    LivePair(s, rg, w, p);
    PosBelowEnd(s, rg, p);
    H.AddedOk(w, h.k, s.endPos);
    forall k: nat ensures !H.IsLive(H.Added(w, h.k, s.endPos), k, n') { assert !H.IsLive(w, k, n'); }
  }

  lemma OverlaySpliced(w: H.View, k: nat, n: nat, y: nat, v: nat, n': nat)
    requires H.Ok(H.Added(w, k, n))
    ensures forall q: H.KV {:trigger q in Spliced(w, k, n, y, v, n').newKv} ::
              q in Spliced(w, k, n, y, v, n').newKv <==> ((q in w.newKv || q == (k, n)) && q != (y, v)) || q == (y, n')
  {
    H.InsertHas(w.newKv, (k, n));
    OverlayChanged(H.Added(w, k, n), y, v, n');
  }

  lemma CreatedGuarded(s: State, rg: Range, t: State, h: KeyHash, p: nat, w: H.View)
    requires LogInv(s, rg) && Created(s, t, h, p) && ViewOk(s, h.unit, w) && t.endPos <= LIMIT
    ensures var w' := Spliced(w, h.k, s.endPos, s.log[p].e.key.hash.k, s.log[p].pos, t.log[|s.log| + 1].pos);
            Guarded(t.log, Act(t.log), h.unit, w')
  {
    var (n, y, v, n') := (s.endPos, s.log[p].e.key.hash.k, s.log[p].pos, t.log[|s.log| + 1].pos);
    var w' := Spliced(w, h.k, n, y, v, n');
    CreatedPositions(s, rg, t, h, p, w);
    forall q: nat | H.Dead(w', q) ensures H.Dead(w, q) {
      DeadChanged(H.Added(w, h.k, n), y, v, n', q);
      DeadAdded(w, h.k, n, q);
    }
    OverlaySpliced(w, h.k, n, y, v, n');
    forall j | j in Act(t.log) && t.log[j].e.key.hash.unit == h.unit
      ensures Carried(s.log, Act(s.log), w, t.log, w', j)
    {
      if j < |s.log| { assert Apart(s.log, p, j) || Apart(s.log, j, p); }
    }
    forall j | j in Act(s.log) && s.log[j].e.key.hash.unit == h.unit
      ensures Backed(t.log, Act(t.log), s.log[j].e.key)
    {
      assert t.log[if j == p then |s.log| + 1 else j].e.key == s.log[j].e.key;
    }
    GuardKept(s.log, Act(s.log), w, t.log, Act(t.log), w', h.unit);
  }

  /** Inserting an entry keeps the unit in step. */
  lemma CreatedKeeps(s: State, rg: Range, t: State, h: KeyHash, p: nat, w: H.View)
    requires LogInv(s, rg) && Created(s, t, h, p) && ViewOk(s, h.unit, w) && t.endPos <= LIMIT
    ensures ViewOk(t, h.unit,
                   Spliced(w, h.k, s.endPos, s.log[p].e.key.hash.k, s.log[p].pos, t.log[|s.log| + 1].pos))
  {
    var (n, y, v, n') := (s.endPos, s.log[p].e.key.hash.k, s.log[p].pos, t.log[|s.log| + 1].pos);
    CreatedPositions(s, rg, t, h, p, w);
    MirrorsAdd(s.index, h.unit, w, h.k, n);
    MirrorsChange(s.index + {IndexKV(h.unit, h.k, n)}, h.unit, H.Added(w, h.k, n), y, v, n');
    CreatedGuarded(s, rg, t, h, p, w);
  }

  /** t is s after entry d was deleted and its predecessor p rewritten. */
  ghost predicate Deleted(s: State, t: State, d: nat, p: nat) {
    var n := |s.log|;
    && d in Act(s.log) && Nearest(s, s.log[d].e.key.hash, p)
    && |t.log| == n + 1 && s.log <= t.log && s.endPos < t.endPos
    && t.log[n].pos == s.endPos && t.log[n].e.key == s.log[p].e.key
    && Act(t.log) == Act(s.log) - {d, p} + {n}
    && t.index == ChangeKV(s.index - {KV(s.log[d])}, s.log[p].e.key.hash.unit, s.log[p].e.key.hash.k, s.log[p].pos,
                           s.endPos)
  }

  function Dropped(w: H.View, k: nat, v: nat, y: nat, v': nat, n: nat): H.View { Changed(H.Erased(w, k, v), y, v', n) }

  lemma DeletedPositions(s: State, rg: Range, t: State, d: nat, p: nat, w: H.View)
    requires LogInv(s, rg) && Deleted(s, t, d, p) && ViewOk(s, s.log[d].e.key.hash.unit, w) && s.endPos < LIMIT
    ensures var (k, v) := (s.log[d].e.key.hash.k, s.log[d].pos);
            var w1 := H.Erased(w, k, v);
            && d != p && H.IsLive(w, k, v) && H.Ok(w1) && H.IsLive(w1, s.log[p].e.key.hash.k, s.log[p].pos)
            && H.Fresh(w1, s.endPos) && v < s.endPos && s.log[p].pos < s.endPos
  {
    var (k, v) := (s.log[d].e.key.hash.k, s.log[d].pos);
    LivePair(s, rg, w, d);
    LivePair(s, rg, w, p);
    FreshPos(s, rg, s.log[d].e.key.hash.unit, w, s.endPos);
    H.LiveNotElsewhere(w, k, v);
    H.ErasedOk(w, k, v);
    H.FreshLater(w, k, v, s.endPos);
    PosBelowEnd(s, rg, d);
    PosBelowEnd(s, rg, p);
    assert Apart(s.log, d, p) || Apart(s.log, p, d);
  }

  /** Only the key of the deleted entry can have died. */
  lemma DeadDropped(w: H.View, k: nat, v: nat, y: nat, v': nat, n: nat, q: nat)
    requires H.Ok(w) && H.IsLive(w, k, v)
    requires var w1 := H.Erased(w, k, v); H.Ok(w1) && H.IsLive(w1, y, v') && H.Fresh(w1, n)
    requires H.Dead(Dropped(w, k, v, y, v', n), q)
    ensures q != y && (q != k ==> H.Dead(w, q))
  {
    var w1 := H.Erased(w, k, v);
    DeadChanged(w1, y, v', n, q);
    H.ChangeEffect(w1, y, v', n);
    assert H.OverKey(Dropped(w, k, v, y, v', n), y);
    if q != k {
      H.LiveNotElsewhere(w, k, v);
      H.ErasedOk(w, k, v);
      H.OthersStay(w, k, v, q);
      H.DeadSame(w, w1, q);
    }
  }

  lemma OverlayDropped(w: H.View, k: nat, v: nat, y: nat, v': nat, n: nat)
    requires H.Ok(w) && H.Ok(H.Erased(w, k, v))
    ensures forall q: H.KV {:trigger q in Dropped(w, k, v, y, v', n).newKv} ::
              q in Dropped(w, k, v, y, v', n).newKv <==> (q in w.newKv && q != (k, v) && q != (y, v')) || q == (y, n)
  {
    H.RemoveOk(w.newKv, (k, v));
    OverlayChanged(H.Erased(w, k, v), y, v', n);
  }

  /** After a deletion the topmost entry below q is the rewritten predecessor or was topmost before, and
      then q is not the key of the deleted entry. */
  lemma DeletedTopmost(s: State, rg: Range, t: State, d: nat, p: nat, q: nat, i: nat)
    requires LogInv(s, rg) && Deleted(s, t, d, p) && q != s.log[p].e.key.hash.k
    requires Topmost(t.log, Act(t.log), s.log[d].e.key.hash.unit, q, i)
    ensures i == |s.log| || (Topmost(s.log, Act(s.log), s.log[d].e.key.hash.unit, q, i) && q != s.log[d].e.key.hash.k)
  {
    var (n, u) := (|s.log|, s.log[d].e.key.hash.unit);
    if i != n {
      assert i in Act(s.log) && t.log[i] == s.log[i];
      assert i == d || Before(s.log, i, d) || Before(s.log, d, i);
      assert i == p || Before(s.log, i, p) || Before(s.log, p, i);
      assert Under(t.log, u, q, n) ==> Leq(t.log[n].e.key.hash, t.log[i].e.key.hash);
      forall j | j in Act(s.log) && Under(s.log, u, q, j) ensures Leq(s.log[j].e.key.hash, s.log[i].e.key.hash) {
        if j == p {
          assert Under(t.log, u, q, n);
        } else if j != d {
          assert Under(t.log, u, q, j);
        }
      }
    }
  }

  lemma DeletedGuarded(s: State, rg: Range, t: State, d: nat, p: nat, w: H.View)
    requires LogInv(s, rg) && Deleted(s, t, d, p) && ViewOk(s, s.log[d].e.key.hash.unit, w) && s.endPos < LIMIT
    ensures var w' := Dropped(w, s.log[d].e.key.hash.k, s.log[d].pos, s.log[p].e.key.hash.k, s.log[p].pos, s.endPos);
            Guarded(t.log, Act(t.log), s.log[d].e.key.hash.unit, w')
  {
    var (k, v, y, v', n) := (s.log[d].e.key.hash.k, s.log[d].pos, s.log[p].e.key.hash.k, s.log[p].pos, s.endPos);
    var w' := Dropped(w, k, v, y, v', n);
    DeletedPositions(s, rg, t, d, p, w);
    OverlayDropped(w, k, v, y, v', n);
    forall q: nat, i: nat | H.Dead(w', q) && Topmost(t.log, Act(t.log), s.log[d].e.key.hash.unit, q, i)
      ensures InOverlay(w', t.log[i])
    {
      DeadDropped(w, k, v, y, v', n, q);
      DeletedTopmost(s, rg, t, d, p, q, i);
      if i < |s.log| {
        assert InOverlay(w, s.log[i]);
        assert Apart(s.log, i, d) || Apart(s.log, d, i);
        assert Apart(s.log, i, p) || Apart(s.log, p, i);
      }
    }
  }

  /** Deleting an entry keeps the unit in step, also when it exposes records of the key before. */
  lemma DeletedKeeps(s: State, rg: Range, t: State, d: nat, p: nat, w: H.View)
    requires LogInv(s, rg) && Deleted(s, t, d, p) && ViewOk(s, s.log[d].e.key.hash.unit, w) && s.endPos < LIMIT
    ensures ViewOk(t, s.log[d].e.key.hash.unit,
                   Dropped(w, s.log[d].e.key.hash.k, s.log[d].pos, s.log[p].e.key.hash.k, s.log[p].pos, s.endPos))
  {
    var (u, k, v, y, v', n) :=
      (s.log[d].e.key.hash.unit, s.log[d].e.key.hash.k, s.log[d].pos, s.log[p].e.key.hash.k, s.log[p].pos, s.endPos);
    DeletedPositions(s, rg, t, d, p, w);
    MirrorsErase(s.index, u, w, k, v);
    MirrorsChange(s.index - {IndexKV(u, k, v)}, u, H.Erased(w, k, v), y, v', n);
    DeletedGuarded(s, rg, t, d, p, w);
  }
}
