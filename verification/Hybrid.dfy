/** The hybrid index unit as data: an immutable sorted file, newer pairs in an overlay, and the set
    of erased values; against the set of live pairs. */
module Hybrid {
  import opened Basics

  /** A key and a position. */
  type KV = (nat, nat)

  predicate Lt(a: KV, b: KV) { a.0 < b.0 || (a.0 == b.0 && a.1 < b.1) }

  ghost predicate Strict(s: seq<KV>) { forall i, j {:trigger s[i], s[j]} :: 0 <= i < j < |s| ==> Lt(s[i], s[j]) }

  datatype View = View(file: seq<KV>, newKv: seq<KV>, erased: set<nat>)

  /** The pair is visible. */
  predicate IsLive(w: View, k: nat, v: nat) { (k, v) in w.newKv || ((k, v) in w.file && v !in w.erased) }

  /** Both parts are sorted, a new pair is neither erased nor in the file, positions fit into 47
      bits, and a position belongs to one visible pair. */
  ghost predicate Ok(w: View) {
    && Strict(w.file) && Strict(w.newKv)
    && (forall p {:trigger p in w.newKv} :: p in w.newKv ==> p !in w.file && p.1 !in w.erased && p.1 < 0x8000_0000_0000)
    && (forall p {:trigger p in w.file} :: p in w.file ==> p.1 < 0x8000_0000_0000)
    && forall k: nat, l: nat, v: nat {:trigger IsLive(w, k, v), IsLive(w, l, v)} ::
         IsLive(w, k, v) && IsLive(w, l, v) ==> k == l
  }

  /** No key has two visible positions. */
  ghost predicate OnePerKey(w: View) {
    forall k: nat, u: nat, v: nat {:trigger IsLive(w, k, u), IsLive(w, k, v)} ::
      IsLive(w, k, u) && IsLive(w, k, v) ==> u == v
  }

  ghost predicate LiveKey(w: View, k: nat) { exists v: nat :: IsLive(w, k, v) }
  ghost predicate FileKey(w: View, k: nat) { exists v: nat :: (k, v) in w.file }
  ghost predicate OverKey(w: View, k: nat) { exists v: nat :: (k, v) in w.newKv }

  /** A visible pair that only the file holds. */
  predicate LiveInFile(w: View, k: nat, v: nat) { (k, v) in w.file && v !in w.erased }

  ghost predicate Dead(w: View, q: nat) {
    FileKey(w, q) && !OverKey(w, q) && forall v: nat {:trigger (q, v) in w.file} :: !LiveInFile(w, q, v)
  }

  /** x is the largest key below k with property P. */
  ghost predicate LivePred(w: View, k: nat, x: nat) {
    x < k && LiveKey(w, x) && forall y: nat {:trigger LiveKey(w, y)} :: x < y < k ==> !LiveKey(w, y)
  }
  ghost predicate FilePred(w: View, k: nat, x: nat) {
    x < k && FileKey(w, x) && forall y: nat {:trigger FileKey(w, y)} :: x < y < k ==> !FileKey(w, y)
  }
  ghost predicate OverPred(w: View, k: nat, x: nat) {
    x < k && OverKey(w, x) && forall y: nat {:trigger OverKey(w, y)} :: x < y < k ==> !OverKey(w, y)
  }

  lemma KeysOfParts(w: View, k: nat)
    ensures OverKey(w, k) ==> LiveKey(w, k)
    ensures (exists v: nat :: LiveInFile(w, k, v)) ==> LiveKey(w, k) && FileKey(w, k)
    ensures LiveKey(w, k) ==> OverKey(w, k) || exists v: nat :: LiveInFile(w, k, v)
  {
    if v: nat :| (k, v) in w.newKv { assert IsLive(w, k, v); }
    if v: nat :| LiveInFile(w, k, v) { assert IsLive(w, k, v) && (k, v) in w.file; }
    if v: nat :| IsLive(w, k, v) { assert (k, v) in w.newKv || LiveInFile(w, k, v); }
  }

  // ---------------------------------------------------------------- looking at a key and the one before it

  /** What the file says about the keys before k: the largest one, or nothing. */
  ghost predicate FileAnswer(w: View, k: nat, f: Option<nat>) {
    if f.Some? then FilePred(w, k, f.value) else forall y: nat {:trigger FileKey(w, y)} :: y < k ==> !FileKey(w, y)
  }
  ghost predicate OverAnswer(w: View, k: nat, o: Option<nat>) {
    if o.Some? then OverPred(w, k, o.value) else forall y: nat {:trigger OverKey(w, y)} :: y < k ==> !OverKey(w, y)
  }

  ghost predicate AllErased(w: View, f: Option<nat>) {
    f.Some? ==> forall v: nat {:trigger LiveInFile(w, f.value, v)} :: !LiveInFile(w, f.value, v)
  }

  /** Which pairs before k the lookup delivers: from the overlay's largest key when it is not
      farther than the file's, or when the file's records are all erased; else from the file. */
  ghost predicate Delivered(w: View, k: nat, f: Option<nat>, o: Option<nat>, x: nat, v: nat) {
    if UsesOverlay(w, f, o) then
      x == o.value && ((x, v) in w.newKv || (f == o && LiveInFile(w, x, v)))
    else f.Some? && x == f.value && LiveInFile(w, x, v)
  }

  /** The visible pairs at the largest visible key below k. */
  ghost predicate Wanted(w: View, k: nat, x: nat, v: nat) { LivePred(w, k, x) && IsLive(w, x, v) }

  /** Nothing visible in the file hides between the overlay's key and an erased file key. */
  ghost predicate NothingHidden(w: View, f: Option<nat>, o: Option<nat>) {
    || f.None? || !AllErased(w, f) || (o.Some? && f.value <= o.value)
    || forall x: nat, v: nat {:trigger LiveInFile(w, x, v)} ::
        LiveInFile(w, x, v) && x < f.value ==> o.Some? && x < o.value
  }

  lemma {:induction false} GreatestLive(w: View, k: nat, x: nat) returns (p: nat)
    requires x < k && LiveKey(w, x)
    ensures LivePred(w, k, p) && p >= x
    decreases k - x
  {
    if y: nat :| x < y < k && LiveKey(w, y) { p := GreatestLive(w, k, y); } else { p := x; }
  }

  lemma OnlyOnePred(w: View, k: nat, x: nat, y: nat)
    requires LivePred(w, k, x) && LivePred(w, k, y)
    ensures x == y
  {
    assert LiveKey(w, x) && LiveKey(w, y);
  }

  /** Above both answers, and above an erased file key, nothing is visible. */
  lemma DeadZone(w: View, k: nat, f: Option<nat>, o: Option<nat>, y: nat)
    requires FileAnswer(w, k, f) && OverAnswer(w, k, o) && y < k && (o.Some? ==> y > o.value)
    requires f.Some? ==> y > f.value || (y == f.value && AllErased(w, f))
    ensures !LiveKey(w, y)
  {
    KeysOfParts(w, y);
  }

  ghost predicate UsesOverlay(w: View, f: Option<nat>, o: Option<nat>) {
    o.Some? && (f.None? || f.value <= o.value || AllErased(w, f))
  }

  lemma OverlayIsNearest(w: View, k: nat, f: Option<nat>, o: Option<nat>)
    requires FileAnswer(w, k, f) && OverAnswer(w, k, o) && NothingHidden(w, f, o) && UsesOverlay(w, f, o)
    ensures LivePred(w, k, o.value)
    ensures forall v: nat {:trigger LiveInFile(w, o.value, v)} :: LiveInFile(w, o.value, v) ==> f == o
  {
    KeysOfParts(w, o.value);
    forall y: nat | o.value < y < k ensures !LiveKey(w, y) {
      if f.Some? && y < f.value {
        KeysOfParts(w, y);
      } else {
        DeadZone(w, k, f, o, y);
      }
    }
    forall v: nat | LiveInFile(w, o.value, v) ensures f == o { assert FileKey(w, o.value); }
  }

  lemma FileIsNearest(w: View, k: nat, f: Option<nat>, o: Option<nat>)
    requires FileAnswer(w, k, f) && OverAnswer(w, k, o) && f.Some? && !AllErased(w, f) && !UsesOverlay(w, f, o)
    ensures LivePred(w, k, f.value) && !OverKey(w, f.value)
  {
    KeysOfParts(w, f.value);
    forall y: nat | f.value < y < k ensures !LiveKey(w, y) { DeadZone(w, k, f, o, y); }
  }

  lemma NothingBefore(w: View, k: nat, f: Option<nat>, o: Option<nat>, y: nat)
    requires FileAnswer(w, k, f) && OverAnswer(w, k, o) && NothingHidden(w, f, o) && o.None? && AllErased(w, f) && y < k
    ensures !LiveKey(w, y)
  {
    KeysOfParts(w, y);
    assert f.Some? && f.value < y ==> !FileKey(w, y);
  }

  /** The lookup delivers exactly what is wanted when nothing is hidden. */
  lemma DeliveredIsWanted(w: View, k: nat, f: Option<nat>, o: Option<nat>, x: nat, v: nat)
    requires FileAnswer(w, k, f) && OverAnswer(w, k, o) && NothingHidden(w, f, o)
    ensures Delivered(w, k, f, o, x, v) <==> Wanted(w, k, x, v)
  {
    if UsesOverlay(w, f, o) {
      OverlayIsNearest(w, k, f, o);
      if LivePred(w, k, x) { OnlyOnePred(w, k, x, o.value); }
      assert x == o.value ==> (IsLive(w, x, v) <==> (x, v) in w.newKv || LiveInFile(w, x, v));
    } else if f.Some? && !AllErased(w, f) {
      FileIsNearest(w, k, f, o);
      if LivePred(w, k, x) { OnlyOnePred(w, k, x, f.value); }
      assert x == f.value ==> (IsLive(w, x, v) <==> LiveInFile(w, x, v));
    } else if x < k {
      NothingBefore(w, k, f, o, x);
    }
  }

  /** And only then: a hidden record makes it deliver something else. */
  lemma HiddenIsMissed(w: View, k: nat, f: Option<nat>, o: Option<nat>) returns (x: nat, v: nat)
    requires Ok(w) && FileAnswer(w, k, f) && OverAnswer(w, k, o) && !NothingHidden(w, f, o)
    ensures Wanted(w, k, x, v) && !Delivered(w, k, f, o, x, v)
  {
    var y: nat, u: nat :| LiveInFile(w, y, u) && y < f.value && !(o.Some? && y < o.value);
    assert IsLive(w, y, u) && LiveKey(w, y);
    x := GreatestLive(w, k, y);
    if o == Some(x) {
      assert x == y;
      v := u;
      assert (x, v) in w.file;
    } else {
      v :| IsLive(w, x, v);
    }
  }

  /** The adjacent lookup is exact if and only if nothing is hidden. */
  lemma AdjacentExactIff(w: View, k: nat, f: Option<nat>, o: Option<nat>)
    requires Ok(w) && FileAnswer(w, k, f) && OverAnswer(w, k, o)
    ensures NothingHidden(w, f, o) <==> forall x: nat, v: nat :: Delivered(w, k, f, o, x, v) <==> Wanted(w, k, x, v)
  {
    if NothingHidden(w, f, o) {
      forall x: nat, v: nat ensures Delivered(w, k, f, o, x, v) <==> Wanted(w, k, x, v) {
        DeliveredIsWanted(w, k, f, o, x, v);
      }
    } else {
      var x, v := HiddenIsMissed(w, k, f, o);
    }
  }

  // ---------------------------------------------------------------- updates

  /** Sorted insertion and removal, as a tree set does them. */
  function Insert(s: seq<KV>, p: KV): seq<KV> {
    if s == [] then [p] else if Lt(p, s[0]) then [p] + s else if p == s[0] then s else [s[0]] + Insert(s[1..], p)
  }

  function Remove(s: seq<KV>, p: KV): seq<KV> {
    if s == [] then [] else if p == s[0] then s[1..] else [s[0]] + Remove(s[1..], p)
  }

  lemma {:induction false} InsertHas(s: seq<KV>, p: KV)
    ensures forall q :: q in Insert(s, p) <==> q in s || q == p
  {
    if s != [] && !Lt(p, s[0]) && p != s[0] {
      InsertHas(s[1..], p);
      assert s == [s[0]] + s[1..];
    }
  }

  lemma {:induction false} InsertOk(s: seq<KV>, p: KV)
    requires Strict(s)
    ensures Strict(Insert(s, p)) && forall q :: q in Insert(s, p) <==> q in s || q == p
  {
    InsertHas(s, p);
    if s != [] {
      StrictTail(s);
      if !Lt(p, s[0]) && p != s[0] {
        InsertOk(s[1..], p);
        PrependStrict(s[0], Insert(s[1..], p));
      } else if Lt(p, s[0]) {
        PrependStrict(p, s);
      }
    }
  }

  lemma StrictTail(s: seq<KV>)
    requires Strict(s) && s != []
    ensures s == [s[0]] + s[1..] && Strict(s[1..]) && forall q :: q in s[1..] ==> Lt(s[0], q)
  {
  }

  lemma {:induction false} RemoveOk(s: seq<KV>, p: KV)
    requires Strict(s)
    ensures Strict(Remove(s, p)) && forall q :: q in Remove(s, p) <==> q in s && q != p
  {
    if s != [] {
      StrictTail(s);
      if p != s[0] {
        RemoveOk(s[1..], p);
        PrependStrict(s[0], Remove(s[1..], p));
      }
    }
  }

  lemma PrependStrict(p: KV, s: seq<KV>)
    requires Strict(s) && forall q :: q in s ==> Lt(p, q)
    ensures Strict([p] + s)
  {
  }

  /** `Overlay::add_kv` and `Overlay::erase_kv` */
  function Added(w: View, k: nat, v: nat): View { w.(newKv := Insert(w.newKv, (k, v))) }
  function Erased(w: View, k: nat, v: nat): View { w.(newKv := Remove(w.newKv, (k, v)), erased := w.erased + {v}) }

  /** A position that was never used. */
  ghost predicate Fresh(w: View, v: nat) {
    v < 0x8000_0000_0000 && v !in w.erased && forall k: nat {:trigger IsLive(w, k, v)} :: !IsLive(w, k, v)
  }

  lemma AddedOk(w: View, k: nat, v: nat)
    requires Ok(w) && Fresh(w, v)
    ensures Ok(Added(w, k, v))
    ensures forall x: nat, u: nat {:trigger IsLive(Added(w, k, v), x, u)} ::
              IsLive(Added(w, k, v), x, u) <==> IsLive(w, x, u) || (x, u) == (k, v)
    ensures forall y: nat {:trigger OverKey(Added(w, k, v), y)} ::
              OverKey(Added(w, k, v), y) <==> OverKey(w, y) || y == k
  {
    var w' := Added(w, k, v);
    InsertOk(w.newKv, (k, v));
    assert !IsLive(w, k, v);
    forall y: nat ensures OverKey(w', y) <==> OverKey(w, y) || y == k {
      if u: nat :| (y, u) in w.newKv { assert (y, u) in w'.newKv; }
      assert (k, v) in w'.newKv;
    }
    forall x: nat, l: nat, u: nat | IsLive(w', x, u) && IsLive(w', l, u) ensures x == l {
      assert u != v ==> IsLive(w, x, u) && IsLive(w, l, u);
      assert u == v ==> !IsLive(w, x, u) && !IsLive(w, l, u);
    }
  }

  /** The overlay holds this position under no other key. */
  ghost predicate NotElsewhere(w: View, k: nat, v: nat) {
    forall p: KV {:trigger p in w.newKv} :: p in w.newKv && p.1 == v ==> p.0 == k
  }

  lemma LiveNotElsewhere(w: View, k: nat, v: nat)
    requires Ok(w) && IsLive(w, k, v)
    ensures NotElsewhere(w, k, v)
  {
    forall p: KV | p in w.newKv && p.1 == v ensures p.0 == k { assert IsLive(w, p.0, v); }
  }

  /** Erasing hides every pair with that position. */
  lemma ErasedOk(w: View, k: nat, v: nat)
    requires Ok(w) && NotElsewhere(w, k, v)
    ensures Ok(Erased(w, k, v))
    ensures forall x: nat, u: nat {:trigger IsLive(Erased(w, k, v), x, u)} ::
              IsLive(Erased(w, k, v), x, u) <==> IsLive(w, x, u) && u != v
    ensures forall y: nat {:trigger OverKey(Erased(w, k, v), y)} ::
              y != k ==> (OverKey(Erased(w, k, v), y) <==> OverKey(w, y))
  {
    var w' := Erased(w, k, v);
    RemoveOk(w.newKv, (k, v));
    forall p: KV | p in w'.newKv ensures p !in w'.file && p.1 !in w'.erased && p.1 < 0x8000_0000_0000 {
      assert p in w.newKv && (p.1 == v ==> p == (k, v));
    }
    forall x: nat, u: nat ensures IsLive(w', x, u) <==> IsLive(w, x, u) && u != v {
      assert (x, u) in w.newKv && u == v ==> x == k;
      assert (x, u) in w'.newKv ==> u !in w'.erased;
    }
    forall y: nat | y != k ensures OverKey(w', y) <==> OverKey(w, y) {
      if u: nat :| (y, u) in w.newKv { assert (y, u) in w'.newKv; }
      if u: nat :| (y, u) in w'.newKv { assert (y, u) in w.newKv; }
    }
    forall x: nat, l: nat, u: nat | IsLive(w', x, u) && IsLive(w', l, u) ensures x == l {
      assert IsLive(w, x, u) && IsLive(w, l, u);
    }
  }

  // ---------------------------------------------------------------- when every lookup is exact

  ghost predicate OverBetween(w: View, x: nat, q: nat) { exists y: nat :: x < y < q && OverKey(w, y) }

  /** Between a visible file record and a dead file key above it lies a key of the overlay. */
  ghost predicate Supported(w: View) {
    forall q: nat, x: nat, v: nat {:trigger Dead(w, q), LiveInFile(w, x, v)} ::
      Dead(w, q) && LiveInFile(w, x, v) && x < q ==> OverBetween(w, x, q)
  }

  ghost predicate Inv(w: View) { Ok(w) && Supported(w) }

  /** The adjacent lookup of every key delivers what is wanted. */
  ghost predicate Exact(w: View) {
    forall k: nat, f: Option<nat>, o: Option<nat>, x: nat, v: nat {:trigger Delivered(w, k, f, o, x, v)} ::
      FileAnswer(w, k, f) && OverAnswer(w, k, o) ==> (Delivered(w, k, f, o, x, v) <==> Wanted(w, k, x, v))
  }

  /** Under the invariant nothing is ever hidden, whatever the key. */
  lemma NothingEverHidden(w: View, k: nat, f: Option<nat>, o: Option<nat>)
    requires Supported(w) && FileAnswer(w, k, f) && OverAnswer(w, k, o)
    ensures NothingHidden(w, f, o)
  {
    if f.Some? && AllErased(w, f) && !(o.Some? && f.value <= o.value) {
      assert !OverKey(w, f.value);
      assert Dead(w, f.value) by {
        forall v: nat | (f.value, v) in w.file ensures !LiveInFile(w, f.value, v) {}
      }
      forall x: nat, v: nat | LiveInFile(w, x, v) && x < f.value ensures o.Some? && x < o.value {
        var y: nat :| x < y < f.value && OverKey(w, y);
      }
    }
  }

  /** The overlay's answer exists for every key. */
  lemma {:induction false} OverAnswers(w: View, k: nat) returns (o: Option<nat>)
    ensures OverAnswer(w, k, o)
  {
    if k == 0 { return None; }
    o := OverAnswers(w, k - 1);
    if OverKey(w, k - 1) { o := Some(k - 1); }
  }

  /** A record without support is hidden from the key right above the dead one. */
  lemma UnsupportedHidden(w: View, q: nat, x: nat, v: nat) returns (o: Option<nat>)
    requires Dead(w, q) && LiveInFile(w, x, v) && x < q && !OverBetween(w, x, q)
    ensures FileAnswer(w, q + 1, Some(q)) && OverAnswer(w, q + 1, o) && !NothingHidden(w, Some(q), o)
  {
    o := OverAnswers(w, q + 1);
    assert AllErased(w, Some(q)) by {
      forall z: nat ensures !LiveInFile(w, q, z) { assert (q, z) in w.file ==> !LiveInFile(w, q, z); }
    }
    assert o.Some? ==> OverKey(w, o.value);
  }

  /** Every lookup is exact if and only if every visible record has its support. */
  lemma ExactIffSupported(w: View)
    requires Ok(w)
    ensures Exact(w) <==> Supported(w)
  {
    if Supported(w) {
      forall k: nat, f: Option<nat>, o: Option<nat>, x: nat, v: nat | FileAnswer(w, k, f) && OverAnswer(w, k, o)
        ensures Delivered(w, k, f, o, x, v) <==> Wanted(w, k, x, v)
      {
        NothingEverHidden(w, k, f, o);
        DeliveredIsWanted(w, k, f, o, x, v);
      }
    } else {
      var q: nat, x: nat, v: nat :| Dead(w, q) && LiveInFile(w, x, v) && x < q && !OverBetween(w, x, q);
      var o := UnsupportedHidden(w, q, x, v);
      var y, u := HiddenIsMissed(w, q + 1, Some(q), o);
      assert !Exact(w);
    }
  }

  // ---------------------------------------------------------------- every run

  /** What the updater does to a unit: a further position; a new position for an old one; a deletion
      together with a new position under the key before, or under the same key; and merging. */
  datatype Op = Add(k: nat, v: nat) | Change(k: nat, v: nat, w: nat) | Delete(k: nat, v: nat, p: nat, u: nat,
      w: nat) | Merge

  ghost predicate Allowed(w: View, op: Op) {
    match op
    case Add(k, v) => Fresh(w, v)
    case Change(k, v, n) => IsLive(w, k, v) && Fresh(w, n)
    case Delete(k, v, p, u, n) =>
      IsLive(w, k, v) && IsLive(w, p, u) && Fresh(w, n) && (LivePred(w, k, p) || (p == k && u != v))
    case Merge => true
  }

  ghost predicate IsMerge(w: View, w': View) {
    && Strict(w'.file) && w'.newKv == [] && w'.erased == {}
    && forall k: nat, v: nat {:trigger (k, v) in w'.file} :: (k, v) in w'.file <==> IsLive(w, k, v)
  }

  ghost predicate Next(w: View, w': View, op: Op) {
    match op
    case Add(k, v) => w' == Added(w, k, v)
    case Change(k, v, n) => w' == Added(Erased(w, k, v), k, n)
    case Delete(k, v, p, u, n) => w' == Added(Erased(Erased(w, k, v), p, u), p, n)
    case Merge => IsMerge(w, w')
  }

  /** The set of visible pairs after the operation. */
  ghost predicate LiveAfter(w: View, op: Op, x: nat, y: nat) {
    match op
    case Add(k, v) => IsLive(w, x, y) || (x, y) == (k, v)
    case Change(k, v, n) => (IsLive(w, x, y) && y != v) || (x, y) == (k, n)
    case Delete(k, v, p, u, n) => (IsLive(w, x, y) && y != v && y != u) || (x, y) == (p, n)
    case Merge => IsLive(w, x, y)
  }

  /** A deletion takes the last position of its key while the key before keeps a second one in the
      file, and at or above the deleted key stands a dead file key with no overlay key before it. */
  ghost predicate Exposes(w: View, op: Op) {
    && op.Delete? && op.p != op.k && (forall z: nat {:trigger IsLive(w, op.k, z)} :: IsLive(w, op.k, z) ==> z == op.v)
    && (exists y: nat :: LiveInFile(w, op.p, y) && y != op.u)
    && exists q: nat :: DeadNext(w, op.k, q)
  }

  ghost predicate DeadNext(w: View, k: nat, q: nat) {
    q >= k && (if q == k then FileKey(w, k) else Dead(w, q)) && !OverBetween(w, k, q)
  }

  /** A dead key was dead before if its records were not just erased. */
  lemma DeadSame(w: View, w': View, q: nat)
    requires Dead(w', q) && w'.file == w.file && (OverKey(w, q) ==> OverKey(w', q))
    requires forall v: nat {:trigger LiveInFile(w, q, v)} :: LiveInFile(w, q, v) ==> LiveInFile(w', q, v)
    ensures Dead(w, q)
  {
    var v: nat :| (q, v) in w'.file;
    assert FileKey(w, q);
    forall u: nat | (q, u) in w.file ensures !LiveInFile(w, q, u) {
      assert LiveInFile(w, q, u) ==> LiveInFile(w', q, u);
    }
  }

  lemma BetweenKept(w: View, w': View, x: nat, q: nat)
    requires OverBetween(w, x, q)
    requires forall y: nat {:trigger OverKey(w', y)} :: x < y < q && OverKey(w, y) ==> OverKey(w', y)
    ensures OverBetween(w', x, q)
  {
    var y: nat :| x < y < q && OverKey(w, y);
    assert OverKey(w', y);
  }

  lemma AddKeeps(w: View, k: nat, v: nat)
    requires Inv(w) && Fresh(w, v)
    ensures Inv(Added(w, k, v))
  {
    var w' := Added(w, k, v);
    AddedOk(w, k, v);
    forall q: nat, x: nat, u: nat | Dead(w', q) && LiveInFile(w', x, u) && x < q ensures OverBetween(w', x, q) {
      DeadSame(w, w', q);
      assert LiveInFile(w, x, u);
      BetweenKept(w, w', x, q);
    }
  }

  lemma OthersStay(w: View, k: nat, v: nat, q: nat)
    requires Ok(w) && IsLive(w, k, v) && q != k
    ensures forall z: nat {:trigger LiveInFile(w, q, z)} :: LiveInFile(w, q, z) ==> z != v
  {
    forall z: nat | LiveInFile(w, q, z) ensures z != v { assert IsLive(w, q, z); }
  }

  lemma FreshLater(w: View, k: nat, v: nat, n: nat)
    requires Ok(w) && IsLive(w, k, v) && Fresh(w, n)
    ensures Fresh(Erased(w, k, v), n)
  {
    LiveNotElsewhere(w, k, v);
    ErasedOk(w, k, v);
    assert n != v;
    forall x: nat ensures !IsLive(Erased(w, k, v), x, n) { assert !IsLive(w, x, n); }
  }

  lemma ChangeEffect(w: View, k: nat, v: nat, n: nat)
    requires Ok(w) && IsLive(w, k, v) && Fresh(w, n)
    ensures var w' := Added(Erased(w, k, v), k, n);
            && Ok(w') && w'.file == w.file && w'.erased == w.erased + {v}
            && (forall x: nat, y: nat {:trigger IsLive(w', x, y)} ::
              IsLive(w', x, y) <==> (IsLive(w, x, y) && y != v) || (x, y) == (k, n))
            && (forall y: nat {:trigger OverKey(w', y)} :: OverKey(w', y) <==> OverKey(w, y) || y == k)
  {
    LiveNotElsewhere(w, k, v);
    ErasedOk(w, k, v);
    FreshLater(w, k, v, n);
    AddedOk(Erased(w, k, v), k, n);
  }

  lemma ChangeKeeps(w: View, k: nat, v: nat, n: nat)
    requires Inv(w) && IsLive(w, k, v) && Fresh(w, n)
    ensures Inv(Added(Erased(w, k, v), k, n))
  {
    var w' := Added(Erased(w, k, v), k, n);
    ChangeEffect(w, k, v, n);
    forall q: nat, x: nat, u: nat | Dead(w', q) && LiveInFile(w', x, u) && x < q ensures OverBetween(w', x, q) {
      assert OverKey(w', k);
      assert q != k;
      OthersStay(w, k, v, q);
      DeadSame(w, w', q);
      assert LiveInFile(w, x, u);
      BetweenKept(w, w', x, q);
    }
  }

  lemma MergeKeeps(w: View, w': View)
    requires Ok(w) && IsMerge(w, w')
    ensures Inv(w') && forall k: nat, v: nat {:trigger IsLive(w', k, v)} :: IsLive(w', k, v) <==> IsLive(w, k, v)
  {
    forall p: KV | p in w'.file ensures p.1 < 0x8000_0000_0000 {
      assert (p.0, p.1) in w'.file;
      assert IsLive(w, p.0, p.1);
    }
    forall q: nat ensures !Dead(w', q) {
      if u: nat :| (q, u) in w'.file { assert LiveInFile(w', q, u); }
    }
  }

  // ---------------------------------------------------------------- deletions

  /** What a deletion has done, without the way it did it. */
  ghost predicate Deleted(w: View, w': View, k: nat, v: nat, p: nat, u: nat, n: nat) {
    && Ok(w') && w'.file == w.file && w'.erased == w.erased + {v, u}
    && (forall x: nat, y: nat {:trigger IsLive(w', x, y)} ::
      IsLive(w', x, y) <==> LiveAfter(w, Delete(k, v, p, u, n), x, y))
    && (forall y: nat {:trigger OverKey(w', y)} :: y != k ==> (OverKey(w', y) <==> OverKey(w, y) || y == p))
    && (OverKey(w', k) <==> p == k || exists z: nat :: z != v && (k, z) in w.newKv)
  }

  lemma DeleteEffect(w: View, k: nat, v: nat, p: nat, u: nat, n: nat)
    requires Ok(w) && Allowed(w, Delete(k, v, p, u, n))
    ensures Deleted(w, Added(Erased(Erased(w, k, v), p, u), p, n), k, v, p, u, n)
  {
    var e := Erased(w, k, v);
    var d := Erased(e, p, u);
    LiveNotElsewhere(w, k, v);
    ErasedOk(w, k, v);
    assert u != v by { assert IsLive(w, p, u) && IsLive(w, k, v); }
    FreshLater(w, k, v, n);
    LiveNotElsewhere(e, p, u);
    ErasedOk(e, p, u);
    FreshLater(e, p, u, n);
    AddedOk(d, p, n);
    if p != k { LastAtKey(w, k, v, p, u); }
  }

  /** Which overlay positions of the deleted key are left. */
  lemma LastAtKey(w: View, k: nat, v: nat, p: nat, u: nat)
    requires Ok(w) && p != k
    ensures OverKey(Erased(Erased(w, k, v), p, u), k) <==> exists z: nat :: z != v && (k, z) in w.newKv
  {
    var d := Erased(Erased(w, k, v), p, u);
    RemoveOk(w.newKv, (k, v));
    RemoveOk(Remove(w.newKv, (k, v)), (p, u));
    if z: nat :| z != v && (k, z) in w.newKv { assert (k, z) in d.newKv; }
    if OverKey(d, k) {
      var z: nat :| (k, z) in d.newKv;
      assert z != v && (k, z) in w.newKv;
    }
  }

  /** A record of a key other than the one before stays supported, whatever was deleted. */
  lemma StillSupported(w: View, w': View, k: nat, v: nat, p: nat, u: nat, n: nat, q: nat, x: nat, y: nat)
    requires Inv(w) && Allowed(w, Delete(k, v, p, u, n)) && Deleted(w, w', k, v, p, u, n)
    requires Dead(w', q) && LiveInFile(w', x, y) && x < q && (x != p || p == k)
    ensures OverBetween(w', x, q)
  {
    assert OverKey(w', p);
    assert LiveInFile(w, x, y) && IsLive(w, x, y) && LiveKey(w, x);
    if x < p < q {
      assert OverBetween(w', x, q);
    } else if q != k {
      OldDead(w, w', k, v, p, u, n, q);
      var z: nat :| x < z < q && OverKey(w, z);
      assert OverKey(w', z);
    }
  }

  /** Only the deleted key can have died. */
  lemma OldDead(w: View, w': View, k: nat, v: nat, p: nat, u: nat, n: nat, q: nat)
    requires Ok(w) && Allowed(w, Delete(k, v, p, u, n)) && Deleted(w, w', k, v, p, u, n) && Dead(w', q) && q != k
    ensures Dead(w, q)
  {
    assert OverKey(w', p);
    OthersStay(w, k, v, q);
    OthersStay(w, p, u, q);
    DeadSame(w, w', q);
  }

  /** The next dead key above a second record of the key before is not below the deleted key. */
  lemma DeadNotBelow(w: View, w': View, k: nat, v: nat, p: nat, u: nat, n: nat, q: nat, y: nat)
    requires Inv(w) && Allowed(w, Delete(k, v, p, u, n)) && Deleted(w, w', k, v, p, u, n) && p != k
    requires Dead(w', q) && LiveInFile(w', p, y) && p < q
    ensures q >= k
  {
    if q < k {
      OldDead(w, w', k, v, p, u, n, q);
      assert LiveInFile(w, p, y);
      var z: nat :| p < z < q && OverKey(w, z);
      KeysOfParts(w, z);
    }
  }

  /** A second record of the key before keeps its support if nothing is exposed. */
  lemma SecondSupported(w: View, w': View, k: nat, v: nat, p: nat, u: nat, n: nat, q: nat, y: nat)
    requires Inv(w) && Allowed(w, Delete(k, v, p, u, n)) && Deleted(w, w', k, v, p, u, n) && p != k
    requires Dead(w', q) && LiveInFile(w', p, y) && p < q && !Exposes(w, Delete(k, v, p, u, n))
    ensures OverBetween(w', p, q)
  {
    DeadNotBelow(w, w', k, v, p, u, n, q, y);
    if q > k { OldDead(w, w', k, v, p, u, n, q); }
    if z: nat :| IsLive(w, k, z) && z != v {
      KeptPosition(w, w', k, v, p, u, n, z);
      if OverKey(w', k) {
        assert q > k;
      } else {
        assert LiveInFile(w', k, z) && LiveInFile(w, k, z) && q > k;
        BetweenAbove(w, w', k, v, p, u, n, q);
      }
    } else {
      assert LiveInFile(w, p, y) && y != u;
      assert FileKey(w', q) && !DeadNext(w, k, q);
      assert q > k;
      BetweenAbove(w, w', k, v, p, u, n, q);
    }
  }

  lemma KeptPosition(w: View, w': View, k: nat, v: nat, p: nat, u: nat, n: nat, z: nat)
    requires Ok(w) && Allowed(w, Delete(k, v, p, u, n)) && Deleted(w, w', k, v, p, u, n) && p != k && IsLive(w, k, z)
    requires z != v
    ensures OverKey(w', k) || (LiveInFile(w', k, z) && LiveInFile(w, k, z))
  {
    assert z != u by { assert IsLive(w, k, z) && IsLive(w, p, u); }
    if (k, z) in w.newKv { assert OverKey(w', k); }
  }

  lemma BetweenAbove(w: View, w': View, k: nat, v: nat, p: nat, u: nat, n: nat, q: nat)
    requires Deleted(w, w', k, v, p, u, n) && p < k < q && OverBetween(w, k, q)
    ensures OverBetween(w', p, q)
  {
    var z: nat :| k < z < q && OverKey(w, z);
    assert OverKey(w', z);
  }

  /** An exposed record has lost its support. */
  lemma ExposedUnsupported(w: View, w': View, k: nat, v: nat, p: nat, u: nat, n: nat)
    requires Ok(w) && Allowed(w, Delete(k, v, p, u, n)) && Deleted(w, w', k, v, p, u, n)
    requires Exposes(w, Delete(k, v, p, u, n))
    ensures !Supported(w')
  {
    var y: nat :| LiveInFile(w, p, y) && y != u;
    var q: nat :| DeadNext(w, k, q);
    assert y != v by { assert IsLive(w, p, y) && IsLive(w, k, v); }
    assert LiveInFile(w', p, y) && p < q;
    assert !OverKey(w', k) by {
      if z: nat :| z != v && (k, z) in w.newKv { assert IsLive(w, k, z); }
    }
    assert Dead(w', q) by { NowDead(w, w', k, v, p, u, n, q); }
    forall z: nat | p < z < q ensures !OverKey(w', z) { KeysOfParts(w, z); }
  }

  lemma NowDead(w: View, w': View, k: nat, v: nat, p: nat, u: nat, n: nat, q: nat)
    requires Ok(w) && Deleted(w, w', k, v, p, u, n) && p < k && DeadNext(w, k, q) && !OverKey(w', k)
    requires forall z: nat {:trigger IsLive(w, k, z)} :: IsLive(w, k, z) ==> z == v
    ensures Dead(w', q)
  {
    assert FileKey(w, q);
    var f: nat :| (q, f) in w.file;
    assert FileKey(w', q);
    forall z: nat | (q, z) in w'.file ensures !LiveInFile(w', q, z) {
      if q == k && LiveInFile(w, k, z) { assert IsLive(w, k, z); }
    }
  }

  /** A deletion keeps every lookup exact if and only if it exposes nothing. */
  lemma DeleteSupportedIff(w: View, w': View, k: nat, v: nat, p: nat, u: nat, n: nat)
    requires Inv(w) && Allowed(w, Delete(k, v, p, u, n)) && Deleted(w, w', k, v, p, u, n)
    ensures Supported(w') <==> !Exposes(w, Delete(k, v, p, u, n))
  {
    if Exposes(w, Delete(k, v, p, u, n)) {
      ExposedUnsupported(w, w', k, v, p, u, n);
    } else {
      forall q: nat, x: nat, y: nat | Dead(w', q) && LiveInFile(w', x, y) && x < q ensures OverBetween(w', x, q) {
        if x == p && p != k {
          SecondSupported(w, w', k, v, p, u, n, q, y);
        } else {
          StillSupported(w, w', k, v, p, u, n, q, x, y);
        }
      }
    }
  }

  // ---------------------------------------------------------------- whole runs

  /** Every operation changes the visible pairs as it should, and keeps the invariant unless it is a
      deletion that exposes a record. */
  lemma StepKeeps(w: View, w': View, op: Op)
    requires Inv(w) && Allowed(w, op) && Next(w, w', op)
    ensures Ok(w') && forall x: nat, y: nat {:trigger IsLive(w', x, y)} :: IsLive(w', x, y) <==> LiveAfter(w, op, x, y)
    ensures Supported(w') <==> !Exposes(w, op)
  {
    match op
    case Add(k, v) =>
      AddKeeps(w, k, v);
      AddedOk(w, k, v);
    case Change(k, v, n) =>
      ChangeKeeps(w, k, v, n);
      ChangeEffect(w, k, v, n);
    case Delete(k, v, p, u, n) =>
      DeleteEffect(w, k, v, p, u, n);
      DeleteSupportedIff(w, w', k, v, p, u, n);
    case Merge =>
      MergeKeeps(w, w');
  }

  ghost predicate IsRun(ws: seq<View>, ops: seq<Op>) {
    && |ws| == |ops| + 1 && ws[0] == View([], [], {})
    && forall i {:trigger ops[i]} :: 0 <= i < |ops| ==> Allowed(ws[i], ops[i]) && Next(ws[i], ws[i + 1], ops[i])
  }

  /** Nothing was exposed before moment i. */
  ghost predicate Covered(ws: seq<View>, ops: seq<Op>, i: nat)
    requires |ws| == |ops| + 1 && i < |ws|
  {
    forall j {:trigger ops[j]} :: 0 <= j < i ==> !Exposes(ws[j], ops[j])
  }

  /** In every run, as long as nothing was exposed, at every moment, for every key: the adjacent
      lookup is exact. */
  lemma {:induction false} RunExact(ws: seq<View>, ops: seq<Op>, i: nat)
    requires IsRun(ws, ops) && i < |ws| && Covered(ws, ops, i)
    ensures Inv(ws[i]) && Exact(ws[i])
  {
    if i > 0 {
      RunExact(ws, ops, i - 1);
      assert Allowed(ws[i - 1], ops[i - 1]) && !Exposes(ws[i - 1], ops[i - 1]);
      StepKeeps(ws[i - 1], ws[i], ops[i - 1]);
    }
    ExactIffSupported(ws[i]);
  }

  /** Every lookup at every moment of a run is exact if and only if no operation exposes a record. */
  lemma RunExactIff(ws: seq<View>, ops: seq<Op>)
    requires IsRun(ws, ops)
    ensures (forall i {:trigger ws[i]} :: 0 <= i < |ws| ==> Exact(ws[i])) <==> Covered(ws, ops, |ops|)
  {
    if Covered(ws, ops, |ops|) {
      forall i | 0 <= i < |ws| ensures Exact(ws[i]) { RunExact(ws, ops, i); }
    } else {
      var j := FirstExposed(ws, ops, |ops|);
      RunExact(ws, ops, j);
      StepKeeps(ws[j], ws[j + 1], ops[j]);
      ExactIffSupported(ws[j + 1]);
    }
  }

  lemma {:induction false} FirstExposed(ws: seq<View>, ops: seq<Op>, i: nat) returns (j: nat)
    requires |ws| == |ops| + 1 && i <= |ops| && !Covered(ws, ops, i)
    ensures j < i && Covered(ws, ops, j) && Exposes(ws[j], ops[j])
  {
    if Covered(ws, ops, i - 1) {
      j := i - 1;
    } else {
      j := FirstExposed(ws, ops, i - 1);
    }
  }

  /** With at most one visible position per key nothing is ever exposed. */
  lemma OnePerKeyCovered(w: View, op: Op)
    requires OnePerKey(w) && Allowed(w, op)
    ensures !Exposes(w, op)
  {
    if op.Delete? {
      forall y: nat | LiveInFile(w, op.p, y) ensures y == op.u { assert IsLive(w, op.p, y) && IsLive(w, op.p, op.u); }
    }
  }

  // ---------------------------------------------------------------- inputs that fail

  /** Erasing a key without touching the one before it breaks the lookup. */
  lemma LoneEraseHides()
    ensures var w := Erased(View([(1, 10), (2, 20)], [], {}), 2, 20);
            && FileAnswer(w, 3, Some(2)) && OverAnswer(w, 3, None) && Wanted(w, 3, 1, 10)
            && !Delivered(w, 3, Some(2), None, 1, 10)
  {
    var w := Erased(View([(1, 10), (2, 20)], [], {}), 2, 20);
    assert w.newKv == [] && w.file == [(1, 10), (2, 20)];
    assert (2, 20) in w.file && IsLive(w, 1, 10);
    assert forall y: nat, v: nat :: IsLive(w, y, v) ==> y == 1;
    assert FileKey(w, 2) && LiveKey(w, 1);
  }

  /** Key 1 at 10 in the file and at 11, key 2 at 20 in the file. */
  const TwoAtOne := View([(1, 10), (2, 20)], [(1, 11)], {})

  lemma TwoAtOneLive()
    ensures Inv(TwoAtOne) && LivePred(TwoAtOne, 2, 1)
    ensures forall y: nat, v: nat {:trigger IsLive(TwoAtOne, y, v)} ::
              IsLive(TwoAtOne, y, v) <==> (y, v) == (1, 10) || (y, v) == (1, 11) || (y, v) == (2, 20)
  {
    var w := TwoAtOne;
    assert (1, 10) in w.file && (2, 20) in w.file && (1, 11) in w.newKv;
    forall q: nat ensures !Dead(w, q) {
      assert FileKey(w, q) ==> q == 1 || q == 2;
      assert LiveInFile(w, 1, 10) && LiveInFile(w, 2, 20);
    }
    assert IsLive(w, 1, 10) && LiveKey(w, 1);
  }

  /** Deleting key 2 properly, with 11 replaced by 12, hides the record at 10 as well. */
  lemma SecondPositionHides()
    ensures var w' := Added(Erased(Erased(TwoAtOne, 2, 20), 1, 11), 1, 12);
            && Inv(TwoAtOne) && Allowed(TwoAtOne, Delete(2, 20, 1, 11, 12))
            && Exposes(TwoAtOne, Delete(2, 20, 1, 11, 12))
            && FileAnswer(w', 3, Some(2)) && OverAnswer(w', 3, Some(1))
            && Wanted(w', 3, 1, 10) && !Delivered(w', 3, Some(2), Some(1), 1, 10)
  {
    TwoAtOneLive();
    assert (2, 20) in TwoAtOne.file && LiveInFile(TwoAtOne, 1, 10);
    assert FileKey(TwoAtOne, 2) && DeadNext(TwoAtOne, 2, 2);
    SecondState();
    TenIsMissed(View([(1, 10), (2, 20)], [(1, 12)], {20, 11}));
  }

  lemma TenIsMissed(w: View)
    requires w == View([(1, 10), (2, 20)], [(1, 12)], {20, 11})
    ensures FileAnswer(w, 3, Some(2)) && OverAnswer(w, 3, Some(1)) && Wanted(w, 3, 1, 10)
    ensures !Delivered(w, 3, Some(2), Some(1), 1, 10)
  {
    assert (1, 10) in w.file && (2, 20) in w.file && (1, 12) in w.newKv;
    assert IsLive(w, 1, 10) && FileKey(w, 2) && OverKey(w, 1) && LiveKey(w, 1);
    assert forall y: nat, v: nat :: IsLive(w, y, v) ==> y == 1;
    assert AllErased(w, Some(2));
  }

  lemma SecondState()
    ensures Added(Erased(Erased(TwoAtOne, 2, 20), 1, 11), 1, 12) == View([(1, 10), (2, 20)], [(1, 12)], {20, 11})
  {
    assert [(1, 11)][1..] == [];
    assert Remove([(1, 11)], (2, 20)) == [(1, 11)] + Remove([], (2, 20)) == [(1, 11)];
    assert Remove([(1, 11)], (1, 11)) == [];
    assert Insert([], (1, 12)) == [(1, 12)];
  }
}
