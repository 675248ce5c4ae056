/** The hybrid unit: overlay, cache and file behind one interface. */
module HybridUnit {
  import opened Basics
  import opened Hybrid
  import opened HybridFile

  // ---------------------------------------------------------------- the cache of file answers

  /** `IndexCache`: keys with at most one position and nothing else known, and full answers. */
  datatype Cache = Cache(withoutPrev: map<nat, Option<nat>>, withPrev: map<nat, (nat, seq<nat>)>)

  /** `IndexCache::add` */
  function CacheAdd(c: Cache, k: nat, prev: nat, list: seq<nat>): Cache {
    if |list| == 0 then c.(withoutPrev := c.withoutPrev[k := None])
    else if |list| == 1 && list[0] < MARK then c.(withoutPrev := c.withoutPrev[k := Some(list[0])])
    else c.(withPrev := c.withPrev[k := (prev, list)])
  }

  function Unmarked(list: seq<nat>): seq<nat> {
    if list == [] then [] else if list[0] < MARK then [list[0]] + Unmarked(list[1..]) else Unmarked(list[1..])
  }

  /** `lookup_without_prev` and `lookup_with_prev` */
  function WithoutPrev(c: Cache, k: nat): Option<seq<nat>> {
    if k in c.withoutPrev then Some(if c.withoutPrev[k].Some? then [c.withoutPrev[k].value] else [])
    else if k in c.withPrev then Some(Unmarked(c.withPrev[k].1))
    else None
  }

  function WithPrev(c: Cache, k: nat): Option<(nat, seq<nat>)> { if k in c.withPrev then Some(c.withPrev[k]) else None }

  /** A full answer: the file's values of k unmarked and, marked, those of the key f before it. */
  ghost predicate Answered(w: View, k: nat, f: Option<nat>, prev: nat, list: seq<nat>) {
    && NoRepeats(list) && Members(w, k, f, list) && (f.Some? ==> FilePred(w, k, f.value))
    && prev == if f.Some? then f.value else 0
  }

  /** Membership in a full answer. */
  ghost predicate Members(w: View, k: nat, f: Option<nat>, list: seq<nat>) {
    forall x: nat {:trigger MemberRight(w, k, f, list, x)} :: MemberRight(w, k, f, list, x)
  }

  ghost predicate MemberRight(w: View, k: nat, f: Option<nat>, list: seq<nat>, x: nat) {
    x in list <==> if x < MARK then (k, x) in w.file else x < 2 * MARK && f.Some? && (f.value, x - MARK) in w.file
  }

  /** The values that a cache gives for a key are the file's; what it says about the key before may be
      that there is none. */
  ghost predicate CacheSound(c: Cache, w: View) {
    && (forall k {:trigger c.withoutPrev[k]} :: k in c.withoutPrev ==> ShortRight(w, k, c.withoutPrev[k]))
    && forall k {:trigger c.withPrev[k]} ::
         k in c.withPrev ==> exists f :: Answered(w, k, f, c.withPrev[k].0, c.withPrev[k].1)
  }

  ghost predicate ShortRight(w: View, k: nat, p: Option<nat>) {
    (p.Some? ==> p.value < MARK) && forall v: nat {:trigger (k, v) in w.file} ::
        v < MARK ==> ((k, v) in w.file <==> p == Some(v))
  }

  /** The cache has an answer for k that misses the key before. */
  ghost predicate Stale(c: Cache, w: View, k: nat) {
    k in c.withPrev && c.withPrev[k].0 == 0 && Answered(w, k, None, 0, c.withPrev[k].1) && !FileAnswer(w, k, None)
  }

  lemma {:induction false} UnmarkedOk(list: seq<nat>)
    requires NoRepeats(list)
    ensures NoRepeats(Unmarked(list))
    ensures forall x {:trigger x in Unmarked(list)} :: x in Unmarked(list) <==> x in list && x < MARK
  {
    if list != [] {
      var t := list[1..];
      assert list == [list[0]] + t && list[0] !in t;
      UnmarkedOk(t);
      ConsNoRepeats(list[0], Unmarked(t));
    }
  }

  lemma ConsNoRepeats(x: nat, s: seq<nat>)
    requires NoRepeats(s) && x !in s
    ensures NoRepeats([x] + s) && NoRepeats(s + [x])
  {
  }

  /** What the file gives for k and the key before is a full answer. */
  lemma FullAnswer(w: View, k: nat, f: Option<nat>, prev: nat, list: seq<nat>)
    requires Answer(w, k, true, f, prev, list)
    ensures Answered(w, k, f, prev, list)
  {
    forall x: nat ensures MemberRight(w, k, f, list, x) {
      if x < MARK {
        assert 0 + x in list <==> (k, x) in w.file;
      } else if x < 2 * MARK && f.Some? {
        var v: nat := x - MARK;
        assert MARK + v in list <==> (f.value, v) in w.file;
      }
    }
  }

  /** What it gives for k alone is a full answer of a file without a smaller key. */
  lemma ValueAnswer(w: View, k: nat, list: seq<nat>)
    requires Answer(w, k, false, None, 0, list)
    ensures Answered(w, k, None, 0, list)
  {
    forall x: nat ensures MemberRight(w, k, None, list, x) {
      assert x < MARK ==> (0 + x in list <==> (k, x) in w.file);
    }
  }

  lemma MembersValues(w: View, k: nat, f: Option<nat>, prev: nat, list: seq<nat>)
    requires Answered(w, k, f, prev, list)
    ensures Answer(w, k, false, None, 0, Unmarked(list))
  {
    UnmarkedOk(list);
    forall v: nat | v < MARK ensures 0 + v in Unmarked(list) <==> (k, v) in w.file {
      assert MemberRight(w, k, f, list, v);
    }
  }

  /** A cached answer without the key before is the file's. */
  lemma WithoutPrevRight(c: Cache, w: View, k: nat)
    requires CacheSound(c, w)
    ensures WithoutPrev(c, k).Some? ==> Answer(w, k, false, None, 0, WithoutPrev(c, k).value)
  {
    if k in c.withoutPrev {
      assert ShortRight(w, k, c.withoutPrev[k]);
    } else if k in c.withPrev {
      var f :| Answered(w, k, f, c.withPrev[k].0, c.withPrev[k].1);
      MembersValues(w, k, f, c.withPrev[k].0, c.withPrev[k].1);
    }
  }

  /** A cached answer with the key before is the file's unless it is stale. */
  lemma WithPrevRight(c: Cache, w: View, k: nat) returns (f: Option<nat>)
    requires CacheSound(c, w) && WithPrev(c, k).Some?
    ensures Answered(w, k, f, WithPrev(c, k).value.0, WithPrev(c, k).value.1)
    ensures (FileAnswer(w, k, f) || (f.None? && Stale(c, w, k)))
  {
    f :| Answered(w, k, f, c.withPrev[k].0, c.withPrev[k].1);
  }

  lemma ShortFromAnswer(w: View, k: nat, f: Option<nat>, prev: nat, list: seq<nat>)
    requires Answered(w, k, f, prev, list) && (list == [] || (|list| == 1 && list[0] < MARK))
    ensures ShortRight(w, k, if list == [] then None else Some(list[0]))
  {
    forall v: nat | v < MARK ensures (k, v) in w.file <==> (list != [] && v == list[0]) {
      assert MemberRight(w, k, f, list, v);
    }
  }

  /** Caching an answer keeps the cache sound, and makes k stale exactly when the answer misses a key
      before and has more than one value. */
  lemma CachedOk(c: Cache, w: View, k: nat, f: Option<nat>, prev: nat, list: seq<nat>)
    requires CacheSound(c, w) && Answered(w, k, f, prev, list)
    ensures CacheSound(CacheAdd(c, k, prev, list), w)
    ensures forall x {:trigger Stale(c, w, x)} {:trigger Stale(CacheAdd(c, k, prev, list), w, x)} ::
              x != k ==> (Stale(CacheAdd(c, k, prev, list), w, x) <==> Stale(c, w, x))
  {
    var c' := CacheAdd(c, k, prev, list);
    if list == [] || (|list| == 1 && list[0] < MARK) {
      ShortFromAnswer(w, k, f, prev, list);
    } else {
      assert c'.withPrev[k] == (prev, list);
      assert Answered(w, k, f, c'.withPrev[k].0, c'.withPrev[k].1);
    }
    forall x | x in c'.withPrev ensures exists g :: Answered(w, x, g, c'.withPrev[x].0, c'.withPrev[x].1) {
      if x != k || list == [] || (|list| == 1 && list[0] < MARK) { assert c'.withPrev[x] == c.withPrev[x]; }
    }
  }

  /** Caching a full answer makes nothing stale. */
  lemma FullCached(c: Cache, w: View, k: nat, f: Option<nat>, prev: nat, list: seq<nat>)
    requires Ok(w) && CacheSound(c, w) && Answer(w, k, true, f, prev, list)
    ensures Stale(CacheAdd(c, k, prev, list), w, k) ==> Stale(c, w, k)
  {
    FullAnswer(w, k, f, prev, list);
    if f.Some? {
      var v: nat :| (f.value, v) in w.file;
      assert v < MARK && MemberRight(w, k, f, list, MARK + v);
      assert MemberRight(w, k, None, list, MARK + v) ==> MARK + v !in list;
      assert !Members(w, k, None, list);
    }
  }

  /** Caching the answer of a value-only lookup makes a key that was not stale so if and only if the
      answer has two or more values and the file has a smaller key. */
  lemma ValueCachedIff(c: Cache, w: View, k: nat, list: seq<nat>)
    requires Ok(w) && CacheSound(c, w) && Answer(w, k, false, None, 0, list) && !Stale(c, w, k)
    ensures Stale(CacheAdd(c, k, 0, list), w, k) <==> |list| > 1 && !FileAnswer(w, k, None)
  {
    ValueAnswer(w, k, list);
    assert list != [] ==> list[0] in list && MemberRight(w, k, None, list, list[0]);
  }

  /** Two values of key 2, looked up on their own and cached, hide key 1 from the adjacent lookup. */
  lemma TwoValuesHideKeyBefore()
    ensures var w := View([(1, 10), (2, 20), (2, 21)], [], {});
            var c := CacheAdd(Cache(map[], map[]), 2, 0, [20, 21]);
            && Ok(w) && Answer(w, 2, false, None, 0, [20, 21]) && WithPrev(c, 2) == Some((0, [20, 21]))
            && Stale(c, w, 2)
            && FileAnswer(w, 2, Some(1)) && OverAnswer(w, 2, None) && Wanted(w, 2, 1, 10)
            && Delivered(w, 2, Some(1), None, 1, 10) && !Delivered(w, 2, None, None, 1, 10)
  {
    var w := View([(1, 10), (2, 20), (2, 21)], [], {});
    assert (1, 10) in w.file && (2, 20) in w.file && (2, 21) in w.file;
    var list := [20, 21];
    assert list[0] == 20 && list[1] == 21;
    forall v: nat | v < MARK ensures 0 + v in list <==> (2, v) in w.file { }
    ValueAnswer(w, 2, list);
    assert FileKey(w, 1) && IsLive(w, 1, 10) && LiveKey(w, 1);
  }

  lemma SameAnswered(w: View, w': View, k: nat, f: Option<nat>, prev: nat, list: seq<nat>)
    requires Answered(w, k, f, prev, list) && w'.file == w.file
    ensures Answered(w', k, f, prev, list)
  {
    assert forall y: nat :: FileKey(w, y) <==> FileKey(w', y);
    forall x: nat ensures MemberRight(w', k, f, list, x) { assert MemberRight(w, k, f, list, x); }
  }

  lemma SameFile(c: Cache, w: View, w': View)
    requires CacheSound(c, w) && w'.file == w.file
    ensures CacheSound(c, w') && forall k {:trigger Stale(c, w', k)} :: Stale(c, w', k) <==> Stale(c, w, k)
  {
    assert forall y: nat :: FileKey(w, y) <==> FileKey(w', y);
    forall k | k in c.withoutPrev ensures ShortRight(w', k, c.withoutPrev[k]) {
      assert ShortRight(w, k, c.withoutPrev[k]);
    }
    forall k | k in c.withPrev ensures exists f :: Answered(w', k, f, c.withPrev[k].0, c.withPrev[k].1) {
      var f := WithPrevRight(c, w, k);
      SameAnswered(w, w', k, f, c.withPrev[k].0, c.withPrev[k].1);
    }
    forall k ensures Stale(c, w', k) <==> Stale(c, w, k) {
      if Stale(c, w, k) { SameAnswered(w, w', k, None, 0, c.withPrev[k].1); }
      if Stale(c, w', k) { SameAnswered(w', w, k, None, 0, c.withPrev[k].1); }
    }
  }

  // ---------------------------------------------------------------- what lookups leave in the caches

  /** A unit as a value: its pairs and, per height, the cached answers of its file. */
  datatype UnitState = UnitState(w: View, caches: map<int, Cache>)

  ghost predicate Sound(x: UnitState) {
    Ok(x.w) && forall h {:trigger x.caches[h]} :: h in x.caches ==> CacheSound(x.caches[h], x.w)
  }

  /** The cache of this height misses the key before k. */
  ghost predicate Missing(x: UnitState, height: int, k: nat) {
    height >= 0 && height in x.caches && Stale(x.caches[height], x.w, k)
  }

  function CacheAt(caches: map<int, Cache>, height: int): Cache {
    if height in caches then caches[height] else Cache(map[], map[])
  }

  /** The cache of this height has an answer for the values of k; for k and the key before. */
  predicate Known(x: UnitState, height: int, k: nat) { height >= 0 && WithoutPrev(CacheAt(x.caches, height), k).Some? }
  predicate KnownBoth(x: UnitState, height: int, k: nat) { height >= 0 && WithPrev(CacheAt(x.caches, height), k).Some? }

  /** A first answer for a height displaces one of an older height, if there is one; never height 0. */
  ghost predicate Thinned(caches: map<int, Cache>, height: int, base: map<int, Cache>) {
    if height in caches || forall h :: h in caches ==> h >= height - 2 then base == caches
    else exists h :: h in caches && h < height - 2 && base == if h > 0 then caches - {h} else caches
  }

  ghost predicate Remembered(caches: map<int, Cache>, height: int, k: nat, prev: nat, list: seq<nat>,
                             caches': map<int, Cache>) {
    if height < 0 then caches' == caches
    else exists base :: Thinned(caches, height, base)
                        && caches' == base[height := CacheAdd(CacheAt(caches, height), k, prev, list)]
  }

  /** After a lookup of the values of k; after one of k and the key before. */
  ghost predicate ValueSeen(x: UnitState, height: int, k: nat, x': UnitState) {
    && x'.w == x.w
    && if Known(x, height, k) then x'.caches == x.caches
       else exists list :: Answer(x.w, k, false, None, 0, list) && Remembered(x.caches, height, k, 0, list, x'.caches)
  }
  ghost predicate BothSeen(x: UnitState, height: int, k: nat, x': UnitState) {
    && x'.w == x.w
    && if KnownBoth(x, height, k) then x'.caches == x.caches
       else exists f, prev, list ::
         Answer(x.w, k, true, f, prev, list) && Remembered(x.caches, height, k, prev, list, x'.caches)
  }

  /** The key before k as the lookup takes it from cache or file. */
  ghost predicate Looked(x: UnitState, height: int, k: nat, f: Option<nat>) {
    if Missing(x, height, k) then f.None? else FileAnswer(x.w, k, f)
  }

  /** The file has two records of k. */
  ghost predicate TwoInFile(w: View, k: nat) { exists u: nat, v: nat :: u != v && (k, u) in w.file && (k, v) in w.file }

  lemma TwoListed(w: View, k: nat, list: seq<nat>)
    requires Ok(w) && Answer(w, k, false, None, 0, list)
    ensures |list| > 1 <==> TwoInFile(w, k)
  {
    if |list| > 1 {
      var (u, v) := (list[0], list[1]);
      assert u in list && v in list;
      assert 0 + u in list <==> (k, u) in w.file;
      assert 0 + v in list <==> (k, v) in w.file;
    }
    if u: nat, v: nat :| u != v && (k, u) in w.file && (k, v) in w.file {
      assert 0 + u in list && 0 + v in list;
    }
  }

  lemma RememberedSound(x: UnitState, height: int, k: nat, f: Option<nat>, prev: nat, list: seq<nat>, x': UnitState)
    requires Sound(x) && x'.w == x.w && Answered(x.w, k, f, prev, list)
    requires Remembered(x.caches, height, k, prev, list, x'.caches)
    ensures Sound(x')
    ensures forall h: int, y: nat {:trigger Missing(x', h, y)} ::
              (h, y) != (height, k) && Missing(x', h, y) ==> Missing(x, h, y)
    ensures height >= 0 ==>
              height in x'.caches && x'.caches[height] == CacheAdd(CacheAt(x.caches, height), k, prev, list)
  {
    if height >= 0 {
      CachedOk(CacheAt(x.caches, height), x.w, k, f, prev, list);
    }
  }

  /** A value-only lookup makes the cache of its height miss the key before k if and only if it was
      not answered from that cache, the file has two records of k, and it has a smaller key. */
  lemma ValueSeenIff(x: UnitState, height: int, k: nat, x': UnitState)
    requires Sound(x) && ValueSeen(x, height, k, x')
    ensures Sound(x')
    ensures forall h: int, y: nat {:trigger Missing(x', h, y)} ::
              (h, y) != (height, k) && Missing(x', h, y) ==> Missing(x, h, y)
    ensures Missing(x', height, k) <==>
            || Missing(x, height, k)
            || (height >= 0 && !Known(x, height, k) && TwoInFile(x.w, k) && !FileAnswer(x.w, k, None))
  {
    if !Known(x, height, k) {
      var list :| Answer(x.w, k, false, None, 0, list) && Remembered(x.caches, height, k, 0, list, x'.caches);
      ValueAnswer(x.w, k, list);
      RememberedSound(x, height, k, None, 0, list, x');
      if height >= 0 { ValueCachedIff(CacheAt(x.caches, height), x.w, k, list); }
      TwoListed(x.w, k, list);
    }
  }

  /** A lookup of k and the key before makes no cache miss anything. */
  lemma BothSeenKeeps(x: UnitState, height: int, k: nat, x': UnitState)
    requires Sound(x) && BothSeen(x, height, k, x')
    ensures Sound(x')
    ensures forall h: int, y: nat {:trigger Missing(x', h, y)} :: Missing(x', h, y) ==> Missing(x, h, y)
  {
    if !KnownBoth(x, height, k) {
      var f, prev, list :|
        Answer(x.w, k, true, f, prev, list) && Remembered(x.caches, height, k, prev, list, x'.caches);
      FullAnswer(x.w, k, f, prev, list);
      RememberedSound(x, height, k, f, prev, list, x');
      if height >= 0 { FullCached(CacheAt(x.caches, height), x.w, k, f, prev, list); }
    }
  }

  /** An answer that names the key before is not one that misses it. */
  lemma NamedNotMissed(w: View, k: nat, f: Option<nat>, prev: nat, list: seq<nat>)
    requires Ok(w) && Answered(w, k, f, prev, list) && f.Some?
    ensures !Answered(w, k, None, 0, list)
  {
    var v: nat :| (f.value, v) in w.file;
    assert v < MARK && MemberRight(w, k, f, list, MARK + v);
    assert !MemberRight(w, k, None, list, MARK + v);
  }

  // ---------------------------------------------------------------- the overlay

  /** `collect_values` */
  method CollectValues(newKv: seq<KV>, k: nat) returns (vs: seq<nat>)
    requires Strict(newKv)
    ensures NoRepeats(vs) && forall v: nat {:trigger v in vs} :: v in vs <==> (k, v) in newKv
  {
    vs := [];
    for i := 0 to |newKv|
      invariant NoRepeats(vs) && forall v: nat {:trigger v in vs} :: v in vs <==> (k, v) in newKv[..i]
    {
      CollectStep(newKv, i, k, vs);
      if newKv[i].0 == k { vs := vs + [newKv[i].1]; }
    }
    assert newKv[..|newKv|] == newKv;
  }

  lemma CollectStep(newKv: seq<KV>, i: nat, k: nat, vs: seq<nat>)
    requires Strict(newKv) && i < |newKv| && NoRepeats(vs)
    requires forall v: nat {:trigger v in vs} :: v in vs <==> (k, v) in newKv[..i]
    ensures var vs' := if newKv[i].0 == k then vs + [newKv[i].1] else vs;
            NoRepeats(vs') && forall v: nat {:trigger v in vs'} :: v in vs' <==> (k, v) in newKv[..i + 1]
  {
    assert newKv[..i + 1] == newKv[..i] + [newKv[i]];
    assert forall j {:trigger newKv[..i][j]} :: 0 <= j < i ==> newKv[..i][j] == newKv[j] && Lt(newKv[j], newKv[i]);
    assert newKv[i] !in newKv[..i];
    if newKv[i].0 == k { ConsNoRepeats(newKv[i].1, vs); }
  }

  /** `get_prev_values`: the overlay's largest key below k, with its values. */
  method GetPrevValues(newKv: seq<KV>, k: nat) returns (r: Option<(nat, seq<nat>)>)
    requires Strict(newKv)
    ensures r.None? ==> forall p: KV {:trigger p in newKv} :: p in newKv ==> p.0 >= k
    ensures r.Some? ==> && r.value.0 < k && NoRepeats(r.value.1) && (exists v: nat :: (r.value.0, v) in newKv)
                        && (forall v: nat {:trigger v in r.value.1} :: v in r.value.1 <==> (r.value.0, v) in newKv)
                        && forall p: KV {:trigger p in newKv} :: p in newKv && p.0 < k ==> p.0 <= r.value.0
  {
    var i := |newKv|;
    while i > 0 && newKv[i - 1].0 >= k
      invariant 0 <= i <= |newKv| && forall j {:trigger newKv[j]} :: i <= j < |newKv| ==> newKv[j].0 >= k
    {
      i := i - 1;
    }
    if i == 0 { return None; }
    var last := newKv[i - 1].0;
    forall p: KV | p in newKv && p.0 < k ensures p.0 <= last {
      var j :| 0 <= j < |newKv| && newKv[j] == p;
      KeysAscend(newKv, j, i - 1);
    }
    assert newKv[i - 1] == (last, newKv[i - 1].1);
    var vs := WalkBack(newKv, i);
    return Some((last, vs));
  }

  /** The values of the key before place i. */
  method WalkBack(newKv: seq<KV>, i: nat) returns (vs: seq<nat>)
    requires Strict(newKv) && 0 < i <= |newKv| && (i < |newKv| ==> newKv[i].0 > newKv[i - 1].0)
    ensures NoRepeats(vs) && forall v: nat {:trigger v in vs} :: v in vs <==> (newKv[i - 1].0, v) in newKv
  {
    var last, j := newKv[i - 1].0, i;
    vs := [];
    assert newKv[i..i] == [];
    while j > 0 && newKv[j - 1].0 == last
      invariant 0 <= j <= i && NoRepeats(vs)
      invariant forall v: nat {:trigger v in vs} :: v in vs <==> (last, v) in newKv[j..i]
      invariant j < i ==> newKv[j].0 == last
    {
      WalkStep(newKv, i, j - 1, vs);
      vs := vs + [newKv[j - 1].1];
      j := j - 1;
    }
    OnlyRun(newKv, j, i, last);
  }

  lemma WalkStep(newKv: seq<KV>, i: nat, j: nat, vs: seq<nat>)
    requires Strict(newKv) && j < i <= |newKv| && NoRepeats(vs)
    requires forall v: nat {:trigger v in vs} :: v in vs <==> (newKv[j].0, v) in newKv[j + 1..i]
    ensures var vs' := vs + [newKv[j].1]; NoRepeats(vs') && forall v: nat {:trigger v in vs'} ::
              v in vs' <==> (newKv[j].0, v) in newKv[j..i]
  {
    NotSeen(newKv, j, i);
    ConsNoRepeats(newKv[j].1, vs);
    forall v: nat ensures v in vs + [newKv[j].1] <==> (newKv[j].0, v) in newKv[j..i] {
      SliceGrows(newKv, j, i, (newKv[j].0, v));
    }
  }

  lemma OnlyRun(s: seq<KV>, j: nat, i: nat, x: nat)
    requires Strict(s) && j < i <= |s| && s[j].0 == x && (j > 0 ==> s[j - 1].0 != x) && s[i - 1].0 == x
    requires (i < |s| ==> s[i].0 > x)
    ensures forall v: nat :: (x, v) in s <==> (x, v) in s[j..i]
  {
    forall n {:trigger s[n]} | 0 <= n < j ensures s[n].0 < x {
      KeysAscend(s, n, j - 1);
      KeysAscend(s, j - 1, j);
    }
    forall n {:trigger s[n]} | i <= n < |s| ensures s[n].0 > x { KeysAscend(s, i, n); }
    forall v: nat | (x, v) in s ensures (x, v) in s[j..i] {
      var n :| 0 <= n < |s| && s[n] == (x, v);
      assert s[j..i][n - j] == s[n];
    }
  }

  // ---------------------------------------------------------------- combining file and overlay

  /** The low 48 bits with the sign bit spread, as a left and a right shift by 16 do. */
  function Sext48(x: nat): int { if x % MARK < 0x8000_0000_0000 then x % MARK else x % MARK - MARK }

  /** Are all values of the key before erased? */
  method AllPrevErased(list: seq<nat>, erased: set<nat>) returns (r: bool)
    requires forall x {:trigger x in list} :: x in list && x >= MARK ==> x - MARK < 0x8000_0000_0000
    ensures r <==> forall x {:trigger x in list} :: x in list && x >= MARK ==> x - MARK in erased
  {
    for i := 0 to |list|
      invariant forall j {:trigger list[j]} :: 0 <= j < i && list[j] >= MARK ==> list[j] - MARK in erased
    {
      if list[i] >= MARK {
        assert list[i] in list;
        var v := Sext48(list[i]);
        assert v == list[i] - MARK;
        if v !in erased { return false; }
      }
    }
    return true;
  }

  /** Take over the entries of the file's answer that are still wanted. */
  method Carry(start: seq<nat>, list: seq<nat>, withPrev: bool) returns (r: seq<nat>)
    requires NoRepeats(start) && NoRepeats(list) && (forall x {:trigger x in start} :: x in start ==> x >= MARK)
    requires withPrev ==> forall x {:trigger x in start} :: x in start ==> x !in list
    ensures NoRepeats(r)
    ensures forall x {:trigger x in r} :: x in r <==> x in start || (x in list && (x < MARK || withPrev))
  {
    r := start;
    for i := 0 to |list|
      invariant NoRepeats(r)
      invariant forall x {:trigger x in r} :: x in r <==> x in start || (x in list[..i] && (x < MARK || withPrev))
    {
      assert list[..i + 1] == list[..i] + [list[i]];
      assert list[i] !in list[..i] && list[i] in list;
      if list[i] < MARK || withPrev {
        ConsNoRepeats(list[i], r);
        r := r + [list[i]];
      }
    }
    assert list[..|list|] == list;
  }

  method Marked(vs: seq<nat>) returns (r: seq<nat>)
    requires NoRepeats(vs)
    ensures NoRepeats(r) && forall x: nat {:trigger x in r} :: x in r <==> x >= MARK && x - MARK in vs
  {
    r := [];
    for i := 0 to |vs|
      invariant |r| == i && forall j {:trigger r[j]} {:trigger vs[j]} :: 0 <= j < i ==> r[j] == MARK + vs[j]
    {
      r := r + [MARK + vs[i]];
    }
    forall x: nat | x >= MARK && x - MARK in vs ensures x in r {
      var j :| 0 <= j < |vs| && vs[j] == x - MARK;
      assert r[j] == x;
    }
  }

  /** The combined list: file and overlay values of k unmarked; marked, those of the key before. */
  ghost predicate Combined(w: View, k: nat, f: Option<nat>, o: Option<nat>, prev: nat, list: seq<nat>) {
    && NoRepeats(list) && prev == Before(w, f, o)
    && forall x: nat {:trigger x in list} :: x in list <==>
         if x < MARK then (k, x) in w.file || (k, x) in w.newKv
         else x < 2 * MARK && FromBefore(w, f, o, prev, x - MARK)
  }

  /** The key before, and which of its pairs are in the list. */
  ghost function Before(w: View, f: Option<nat>, o: Option<nat>): nat {
    if UsesOverlay(w, f, o) then o.value else if f.Some? then f.value else 0
  }
  ghost predicate FromBefore(w: View, f: Option<nat>, o: Option<nat>, prev: nat, v: nat) {
    if UsesOverlay(w, f, o) then (prev, v) in w.newKv || (f == o && !AllErased(w, f) && (prev, v) in w.file)
    else f.Some? && (prev, v) in w.file
  }

  /** The list before the overlay's own values of k are added. */
  ghost predicate Chosen(w: View, k: nat, f: Option<nat>, o: Option<nat>, prev: nat, list: seq<nat>) {
    forall x: nat {:trigger x in list} :: x in list <==>
      if x < MARK then (k, x) in w.file else x < 2 * MARK && FromBefore(w, f, o, prev, x - MARK)
  }

  lemma OverlayApart(w: View, k: nat, f: Option<nat>, o: Option<nat>, prev: nat, list: seq<nat>, same: seq<nat>)
    requires Ok(w) && Chosen(w, k, f, o, prev, list)
    requires forall v: nat {:trigger v in same} :: v in same <==> (k, v) in w.newKv
    ensures (forall x {:trigger x in list} :: x in list ==> x !in same)
    ensures forall x {:trigger x in same} :: x in same ==> x < MARK
  {
    forall x: nat | x in same ensures x < MARK && x !in list { assert (k, x) in w.newKv; }
  }

  lemma FromBeforeDelivered(w: View, k: nat, f: Option<nat>, o: Option<nat>, v: nat)
    requires Ok(w)
    ensures (FromBefore(w, f, o, Before(w, f, o), v) && v !in w.erased) <==> Delivered(w, k, f, o, Before(w, f, o), v)
  {
    var x := Before(w, f, o);
    if UsesOverlay(w, f, o) {
      assert (x, v) in w.newKv ==> v !in w.erased;
      assert f == o && LiveInFile(w, x, v) ==> !AllErased(w, f);
    }
  }

  class Unit {
    var file: seq<KV>
    var first64: seq<nat>
    var first32: seq<nat>
    var newKv: seq<KV>
    var erased: set<nat>
    /** per height, answers from the file */
    var caches: map<int, Cache>

    ghost function W(): View
      reads this
    {
      View(file, newKv, erased)
    }

    ghost function Now(): UnitState
      reads this
    {
      UnitState(W(), caches)
    }

    ghost predicate Valid()
      reads this
    {
      && Ok(W()) && Indexed(file, first64, first32)
      && forall h {:trigger caches[h]} :: h in caches ==> CacheSound(caches[h], W())
    }

    /** The cache of this height misses the key before k. */
    ghost predicate Misses(height: int, k: nat)
      reads this
    {
      Missing(Now(), height, k)
    }

    constructor ()
      ensures Valid() && W() == View([], [], {}) && forall h, k :: !Misses(h, k)
    {
      file, first64, first32, newKv, erased, caches := [], [], [], [], {}, map[];
    }

    /** `add_kv`; false is the panic for a pair that is there already. */
    method AddKv(k: nat, v: nat) returns (ok: bool)
      requires Valid() && (Fresh(W(), v) || (k, v) in newKv)
      modifies this`newKv
      ensures Valid() && (ok <==> (k, v) !in old(newKv)) && W() == (if ok then Added(old(W()), k, v) else old(W()))
      ensures forall h: int, x: nat {:trigger Misses(h, x)} :: Misses(h, x) <==> old(Misses(h, x))
    {
      if (k, v) in newKv {
        assert IsLive(W(), k, v);
        return false;
      }
      AddedOk(W(), k, v);
      newKv := Insert(newKv, (k, v));
      forall h | h in caches ensures CacheSound(caches[h], W()) { SameFile(caches[h], old(W()), W()); }
      forall h: int, x: nat ensures Misses(h, x) <==> old(Misses(h, x)) {
        if h in caches { SameFile(caches[h], old(W()), W()); }
      }
      return true;
    }

    /** `erase_kv`, for a position that the overlay does not hold under another key. */
    method EraseKv(k: nat, v: nat)
      requires Valid() && NotElsewhere(W(), k, v)
      modifies this`newKv, this`erased
      ensures Valid() && W() == Erased(old(W()), k, v)
      ensures forall h: int, x: nat {:trigger Misses(h, x)} :: Misses(h, x) <==> old(Misses(h, x))
    {
      ErasedOk(W(), k, v);
      newKv := Remove(newKv, (k, v));
      erased := erased + {v};
      forall h | h in caches ensures CacheSound(caches[h], W()) { SameFile(caches[h], old(W()), W()); }
      forall h: int, x: nat ensures Misses(h, x) <==> old(Misses(h, x)) {
        if h in caches { SameFile(caches[h], old(W()), W()); }
      }
    }

    /** `change_kv` */
    method ChangeKv(k: nat, v: nat, n: nat)
      requires Valid() && NotElsewhere(W(), k, v) && Fresh(W(), n) && n != v
      modifies this`newKv, this`erased
      ensures Valid() && W() == Added(Erased(old(W()), k, v), k, n)
      ensures forall h: int, x: nat {:trigger Misses(h, x)} :: Misses(h, x) <==> old(Misses(h, x))
    {
      StillFresh(W(), k, v, n);
      EraseKv(k, v);
      var added := AddKv(k, n);
      assert added;
    }

    /** `merge` */
    method MergeFiles()
      requires Valid()
      modifies this
      ensures Valid() && IsMerge(old(W()), W()) && caches == map[] && forall h, k :: !Misses(h, k)
      ensures forall k: nat, v: nat {:trigger IsLive(W(), k, v)} :: IsLive(W(), k, v) <==> old(IsLive(W(), k, v))
    {
      ghost var w := W();
      var wr := MergeInto(View(file, newKv, erased));
      file, first64, first32 := wr.out, wr.first64, wr.first32;
      newKv, erased, caches := [], {}, map[];
      MergedOk(w, W());
    }

    /** The file's values at k, from the cache of this height or from the file. */
    method SameFromFile(height: int, k: nat) returns (r: Option<seq<nat>>)
      requires Valid()
      modifies this`caches
      ensures Valid() && (r.Some? ==> Answer(W(), k, false, None, 0, r.value))
      ensures file != [] && file[0].0 <= k ==> r.Some?
      ensures r.Some? ==> ValueSeen(old(Now()), height, k, Now())
      ensures r.None? ==> caches == old(caches)
    {
      if height >= 0 && height in caches {
        WithoutPrevRight(caches[height], W(), k);
        r := WithoutPrev(caches[height], k);
        if r.Some? { return r; }
      }
      var res;
      ghost var f;
      res, f := GetFromFile(View(file, newKv, erased), first64, first32, k, false);
      if res.None? { return None; }
      ValueAnswer(W(), k, res.value.1);
      Remember(height, k, res.value.0, res.value.1, None);
      r := Some(res.value.1);
    }

    /** The file's answer for k and the key before. */
    method BothFromFile(height: int, k: nat) returns (r: Option<(nat, seq<nat>)>, ghost f: Option<nat>)
      requires Valid()
      modifies this`caches
      ensures Valid() && (r.Some? ==> Answered(W(), k, f, r.value.0, r.value.1))
      ensures r.Some? ==> Looked(old(Now()), height, k, f) && BothSeen(old(Now()), height, k, Now())
      ensures r.None? ==> caches == old(caches)
      ensures file != [] && file[0].0 <= k ==> r.Some?
    {
      if height >= 0 && height in caches && WithPrev(caches[height], k).Some? {
        f := WithPrevRight(caches[height], W(), k);
        if f.Some? { NamedNotMissed(W(), k, f, caches[height].withPrev[k].0, caches[height].withPrev[k].1); }
        return WithPrev(caches[height], k), f;
      }
      r, f := GetFromFile(View(file, newKv, erased), first64, first32, k, true);
      if r.Some? {
        FullAnswer(W(), k, f, r.value.0, r.value.1);
        Remember(height, k, r.value.0, r.value.1, f);
      }
    }

    /** `for_each_value`: the visible values of k, handed out until the accessor stops. None is the panic
        of the file lookup. */
    method ForEachValue(height: int, k: nat, stop: seq<nat> -> bool) returns (r: Option<seq<nat>>, ghost all: seq<nat>)
      requires Valid()
      modifies this`caches
      ensures Valid() && (file != [] && file[0].0 <= k ==> r.Some?)
      ensures r.Some? ==> r.value == Offered([], all, stop)
      ensures r.Some? ==> NoRepeats(all) && forall v: nat {:trigger v in all} :: v in all <==> IsLive(W(), k, v)
      ensures r.Some? ==> ValueSeen(old(Now()), height, k, Now())
      ensures forall h: int, x: nat {:trigger Misses(h, x)} ::
                (h, x) != (height, k) && Misses(h, x) ==> old(Misses(h, x))
      ensures r.Some? && !old(Misses(height, k)) ==>
                (Misses(height, k) <==>
                 height >= 0 && !old(Known(Now(), height, k)) && TwoInFile(W(), k) && !FileAnswer(W(), k, None))
    {
      var list := SameFromFile(height, k);
      all := [];
      if list.None? { return None, all; }
      ValueSeenIff(old(Now()), height, k, Now());
      ghost var w := W();
      var over := CollectValues(newKv, k);
      forall x | x in list.value ensures x !in over { assert 0 + x in list.value <==> (k, x) in file; }
      var list2 := Concat(list.value, over);
      var calls;
      calls, all := HandOut(list2, erased, stop);
      forall v: nat ensures v in all <==> IsLive(w, k, v) {
        assert v < MARK ==> (0 + v in list.value <==> (k, v) in file);
        assert (k, v) in newKv ==> v !in erased && v < MARK;
        assert (k, v) in file ==> v < MARK;
      }
      return Some(calls), all;
    }

    /** `for_each_adjacent_value`: the visible pairs at k, and those that the overlay and the file yield
        for the key before, handed out until the accessor stops. In a state that the updates can reach
        these are the pairs at the largest smaller visible key, unless the cache misses it. */
    method ForEachAdjacentValue(height: int, k: nat, stop: seq<KV> -> bool)
      returns (r: Option<seq<KV>>, ghost all: seq<KV>, ghost f: Option<nat>, ghost o: Option<nat>)
      requires Valid()
      modifies this`caches
      ensures Valid() && (file != [] && file[0].0 <= k ==> r.Some?)
      ensures forall h: int, x: nat {:trigger Misses(h, x)} :: Misses(h, x) ==> old(Misses(h, x))
      ensures r.Some? ==> r.value == Offered([], all, stop)
      ensures r.Some? ==>
                && BothSeen(old(Now()), height, k, Now()) && Looked(old(Now()), height, k, f)
                && OverAnswer(W(), k, o) && NoTwice(all)
                && forall p: KV {:trigger p in all} ::
                     p in all <==> (p.0 == k && IsLive(W(), k, p.1)) || Delivered(W(), k, f, o, p.0, p.1)
      ensures r.Some? && Inv(W()) && !old(Misses(height, k)) ==>
                forall p: KV {:trigger p in all} ::
                  p in all <==> (p.0 == k && IsLive(W(), k, p.1)) || Wanted(W(), k, p.0, p.1)
    {
      var res;
      o, all := None, [];
      res, f := BothFromFile(height, k);
      if res.None? { return None, all, f, o; }
      BothSeenKeeps(old(Now()), height, k, Now());
      var prev, list;
      prev, list, o := Combine(k, res.value.0, res.value.1, f);
      var calls;
      calls, all := AccessList(list, k, prev, erased, stop);
      ghost var w := W();
      forall p: KV ensures p in all <==> (p.0 == k && IsLive(w, k, p.1)) || Delivered(w, k, f, o, p.0, p.1) {
        CallsRight(w, k, f, o, prev, list, p);
      }
      if Inv(w) && !old(Misses(height, k)) {
        NothingEverHidden(w, k, f, o);
        forall p: KV ensures Delivered(w, k, f, o, p.0, p.1) <==> Wanted(w, k, p.0, p.1) {
          DeliveredIsWanted(w, k, f, o, p.0, p.1);
        }
      }
      return Some(calls), all, f, o;
    }

    /** Lay the overlay over the file's answer. */
    method Combine(k: nat, filePrev: nat, fileList: seq<nat>, ghost f: Option<nat>)
      returns (prev: nat, list: seq<nat>, ghost o: Option<nat>)
      requires Valid() && Answered(W(), k, f, filePrev, fileList)
      ensures OverAnswer(W(), k, o) && Combined(W(), k, f, o, prev, list)
    {
      prev, list, o := Choose(k, filePrev, fileList, f);
      var same := CollectValues(newKv, k);
      OverlayApart(W(), k, f, o, prev, list, same);
      list := Concat(list, same);
    }

    /** Which key before k, and its pairs. */
    method Choose(k: nat, filePrev: nat, fileList: seq<nat>, ghost f: Option<nat>)
      returns (prev: nat, list: seq<nat>, ghost o: Option<nat>)
      requires Valid() && Answered(W(), k, f, filePrev, fileList)
      ensures OverAnswer(W(), k, o) && NoRepeats(list) && prev == Before(W(), f, o) && Chosen(W(), k, f, o, prev, list)
    {
      ghost var w := W();
      MarkedSmall(w, k, f, fileList);
      var allErased := AllPrevErased(fileList, erased);
      ErasedMeans(w, k, f, fileList, allErased);
      prev, list := filePrev, fileList;
      var over := GetPrevValues(newKv, k);
      o := if over.Some? then Some(over.value.0) else None;
      OverMeans(w, k, over);
      if over.Some? && (prev <= over.value.0 || allErased) {
        var start := Marked(over.value.1);
        var both := prev == over.value.0 && !allErased;
        MarksDisjoint(w, k, f, fileList, over.value.0, start, both);
        list := Carry(start, list, both);
        prev := over.value.0;
        CarriedRight(w, k, f, o, fileList, over.value.1, start, both, list);
      } else {
        FileChosen(w, k, f, o, filePrev, fileList);
      }
    }

    /** `IndexCacheMap::add`: a cache for a new height displaces one of an old height. */
    method Remember(height: int, k: nat, prev: nat, list: seq<nat>, ghost f: Option<nat>)
      requires Valid() && Answered(W(), k, f, prev, list)
      modifies this`caches
      ensures Valid() && (height < 0 ==> caches == old(caches))
      ensures Remembered(old(caches), height, k, prev, list, caches)
      ensures forall h: int, x: nat {:trigger Misses(h, x)} ::
                (h, x) != (height, k) && Misses(h, x) ==> old(Misses(h, x))
    {
      if height < 0 { return; }
      ghost var w := W();
      var c := Cache(map[], map[]);
      if height in caches {
        c := caches[height];
      } else {
        var stale := set h | h in caches && h < height - 2;
        assert forall h :: h in caches && h < height - 2 ==> h in stale;
        if stale != {} {
          var h :| h in stale;
          if h > 0 { caches := caches - {h}; }
        }
      }
      CachedOk(c, w, k, f, prev, list);
      assert Thinned(old(caches), height, caches);
      caches := caches[height := CacheAdd(c, k, prev, list)];
    }
  }

  lemma StillFresh(w: View, k: nat, v: nat, n: nat)
    requires Ok(w) && NotElsewhere(w, k, v) && Fresh(w, n) && n != v
    ensures Fresh(Erased(w, k, v), n) && (k, n) !in Remove(w.newKv, (k, v))
  {
    ErasedOk(w, k, v);
    RemoveOk(w.newKv, (k, v));
    assert !IsLive(w, k, n);
    forall x: nat ensures !IsLive(Erased(w, k, v), x, n) { assert !IsLive(w, x, n); }
  }

  /** Hand out the values that are not erased. */
  method HandOut(list: seq<nat>, erased: set<nat>, stop: seq<nat> -> bool)
    returns (calls: seq<nat>, ghost all: seq<nat>)
    requires NoRepeats(list)
    ensures NoRepeats(all) && forall x: nat {:trigger x in all} :: x in all <==> x in list && x !in erased
    ensures calls == Offered([], all, stop)
  {
    calls, all := [], [];
    var stopped := false;
    for i := 0 to |list|
      invariant NoRepeats(all) && forall x: nat {:trigger x in all} :: x in all <==> x in list[..i] && x !in erased
      invariant calls == Offered([], all, stop) && (stopped <==> all != [] && stop(calls))
    {
      assert list[..i + 1] == list[..i] + [list[i]];
      assert list[i] !in list[..i];
      if list[i] !in erased {
        ConsNoRepeats(list[i], all);
        OfferedNext([], all, list[i], stop);
        all := all + [list[i]];
        if !stopped {
          calls := calls + [list[i]];
          stopped := stop(calls);
        }
      }
    }
    assert list[..|list|] == list;
  }

  method Concat(a: seq<nat>, b: seq<nat>) returns (r: seq<nat>)
    requires NoRepeats(a) && NoRepeats(b) && forall x {:trigger x in a} :: x in a ==> x !in b
    ensures r == a + b && NoRepeats(r)
  {
    r := a + b;
    assert forall i {:trigger b[i]} :: 0 <= i < |b| ==> b[i] in b;
    assert forall i {:trigger a[i]} :: 0 <= i < |a| ==> a[i] in a;
  }

  lemma MarkedSmall(w: View, k: nat, f: Option<nat>, list: seq<nat>)
    requires Ok(w) && Members(w, k, f, list)
    ensures forall x {:trigger x in list} :: x in list && x >= MARK ==> x - MARK < 0x8000_0000_0000
  {
    forall x | x in list && x >= MARK ensures x - MARK < 0x8000_0000_0000 { assert MemberRight(w, k, f, list, x); }
  }

  lemma ErasedMeans(w: View, k: nat, f: Option<nat>, list: seq<nat>, allErased: bool)
    requires Ok(w) && Members(w, k, f, list)
    requires (allErased <==> forall x {:trigger x in list} :: x in list && x >= MARK ==> x - MARK in w.erased)
    ensures allErased <==> AllErased(w, f)
  {
    if allErased && f.Some? {
      forall v: nat ensures !LiveInFile(w, f.value, v) {
        assert (f.value, v) in w.file ==> v < MARK && MemberRight(w, k, f, list, MARK + v);
      }
    }
    if !allErased {
      var x :| x in list && x >= MARK && x - MARK !in w.erased;
      assert MemberRight(w, k, f, list, x);
      assert LiveInFile(w, f.value, x - MARK);
    }
  }

  lemma OverMeans(w: View, k: nat, over: Option<(nat, seq<nat>)>)
    requires over.None? ==> forall p: KV {:trigger p in w.newKv} :: p in w.newKv ==> p.0 >= k
    requires over.Some? ==> && over.value.0 < k && (exists v: nat :: (over.value.0, v) in w.newKv)
                            && forall p: KV {:trigger p in w.newKv} :: p in w.newKv && p.0 < k ==> p.0 <= over.value.0
    ensures OverAnswer(w, k, if over.Some? then Some(over.value.0) else None)
  {
    forall y: nat | y < k && OverKey(w, y) ensures over.Some? && y <= over.value.0 {
      var v: nat :| (y, v) in w.newKv;
    }
  }

  lemma MarksDisjoint(w: View, k: nat, f: Option<nat>, list: seq<nat>, o: nat, start: seq<nat>, both: bool)
    requires Ok(w) && Members(w, k, f, list) && (both ==> f == Some(o))
    requires forall x: nat {:trigger x in start} :: x in start ==> x >= MARK && (o, x - MARK) in w.newKv
    ensures both ==> forall x {:trigger x in start} :: x in start ==> x !in list
  {
    if both {
      forall x | x in start ensures x !in list { assert (o, x - MARK) in w.newKv && MemberRight(w, k, f, list, x); }
    }
  }

  lemma FileChosen(w: View, k: nat, f: Option<nat>, o: Option<nat>, prev: nat, list: seq<nat>)
    requires Answered(w, k, f, prev, list) && !UsesOverlay(w, f, o)
    ensures Chosen(w, k, f, o, prev, list)
  {
    forall x: nat
      ensures x in list <==> if x < MARK then (k, x) in w.file else x < 2 * MARK && FromBefore(w, f, o, prev, x - MARK)
    {
      assert MemberRight(w, k, f, list, x);
    }
  }

  lemma CarriedRight(w: View, k: nat, f: Option<nat>, o: Option<nat>, fileList: seq<nat>, vs: seq<nat>,
                     start: seq<nat>, both: bool, list: seq<nat>)
    requires Ok(w) && Members(w, k, f, fileList) && o.Some? && UsesOverlay(w, f, o)
    requires (both <==> f == o && !AllErased(w, f))
    requires forall v: nat {:trigger v in vs} :: v in vs <==> (o.value, v) in w.newKv
    requires forall x: nat {:trigger x in start} :: x in start <==> x >= MARK && x - MARK in vs
    requires forall x {:trigger x in list} :: x in list <==> x in start || (x in fileList && (x < MARK || both))
    ensures Chosen(w, k, f, o, o.value, list)
  {
    forall x: nat
      ensures x in list <==>
                if x < MARK then (k, x) in w.file else x < 2 * MARK && FromBefore(w, f, o, o.value, x - MARK)
    {
      assert MemberRight(w, k, f, fileList, x);
      if x >= MARK {
        var v: nat := x - MARK;
        assert x in start <==> (o.value, v) in w.newKv;
        assert (o.value, v) in w.newKv ==> v < MARK;
      }
    }
  }

  ghost predicate NoTwice(s: seq<KV>) { forall i, j {:trigger s[i], s[j]} :: 0 <= i < j < |s| ==> s[i] != s[j] }

  /** `access_list`: decode every entry and hand it out unless it is erased. */
  method AccessList(list: seq<nat>, k: nat, prev: nat, erased: set<nat>, stop: seq<KV> -> bool)
    returns (calls: seq<KV>, ghost all: seq<KV>)
    requires NoRepeats(list) && (forall x {:trigger x in list} :: x in list && x >= MARK ==> x < 2 * MARK && prev != k)
    ensures NoTwice(all)
    ensures forall p: KV {:trigger p in all} :: p in all <==> p.1 !in erased && Encoded(list, k, prev, p)
    ensures calls == Offered([], all, stop)
  {
    calls, all := [], [];
    var stopped := false;
    for i := 0 to |list|
      invariant NoTwice(all)
      invariant forall p: KV {:trigger p in all} :: p in all <==> p.1 !in erased && Encoded(list[..i], k, prev, p)
      invariant calls == Offered([], all, stop) && (stopped <==> all != [] && stop(calls))
    {
      assert list[..i + 1] == list[..i] + [list[i]];
      assert list[i] !in list[..i] && list[i] in list;
      var pair: KV := (if list[i] < MARK then k else prev, list[i] % MARK);
      assert forall y {:trigger y in list[..i]} :: y in list[..i] ==> y in list;
      EncodedStep(list[..i], list[i], k, prev);
      if pair.1 !in erased {
        assert pair !in all;
        OfferedNext([], all, pair, stop);
        all := all + [pair];
        if !stopped {
          calls := calls + [pair];
          stopped := stop(calls);
        }
      }
    }
    assert list[..|list|] == list;
  }

  ghost predicate Encoded(list: seq<nat>, k: nat, prev: nat, p: KV) {
    p.1 < MARK && ((p.0 == k && p.1 in list) || (p.0 == prev && MARK + p.1 in list))
  }

  lemma EncodedStep(list: seq<nat>, x: nat, k: nat, prev: nat)
    requires x !in list && x < 2 * MARK && (x >= MARK ==> prev != k)
    requires forall y {:trigger y in list} :: y in list && y >= MARK ==> prev != k
    ensures var q := (if x < MARK then k else prev, x % MARK);
            && (forall p: KV {:trigger Encoded(list + [x], k, prev, p)} ::
              Encoded(list + [x], k, prev, p) <==> Encoded(list, k, prev, p) || p == q)
            && !Encoded(list, k, prev, q)
  {
  }

  lemma CallsRight(w: View, k: nat, f: Option<nat>, o: Option<nat>, prev: nat, list: seq<nat>, p: KV)
    requires Ok(w) && (f.Some? ==> FilePred(w, k, f.value)) && OverAnswer(w, k, o) && Combined(w, k, f, o, prev, list)
    ensures (p.1 !in w.erased && Encoded(list, k, prev, p)) <==>
              (p.0 == k && IsLive(w, k, p.1)) || Delivered(w, k, f, o, p.0, p.1)
  {
    var v := p.1;
    FromBeforeDelivered(w, k, f, o, v);
    assert (k, v) in w.newKv ==> v !in w.erased && v < MARK;
    assert (k, v) in w.file ==> v < MARK;
    assert (prev, v) in w.newKv ==> v < MARK;
    assert (prev, v) in w.file ==> v < MARK;
    assert v < MARK ==> (v in list <==> (k, v) in w.file || (k, v) in w.newKv);
    assert v < MARK ==> (MARK + v in list <==> FromBefore(w, f, o, prev, v));
    assert Delivered(w, k, f, o, p.0, v) ==> p.0 == prev;
  }

  lemma MergedOk(w: View, w': View)
    requires Ok(w) && IsMerge(w, w')
    ensures Ok(w') && forall k: nat, v: nat {:trigger IsLive(w', k, v)} :: IsLive(w', k, v) <==> IsLive(w, k, v)
  {
    forall p: KV | p in w'.file ensures p.1 < 0x8000_0000_0000 {
      assert (p.0, p.1) in w'.file;
      assert IsLive(w, p.0, p.1);
    }
  }
}