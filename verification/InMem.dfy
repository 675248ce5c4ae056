/** The in-memory index unit: a search tree of small sorted leaves, against a plain ordered
    multimap from 56-bit keys to positions. */
module InMem {

  /** A pair of a leaf: the low 48 bits of a key, and a value. */
  type KV = (nat, nat)

  /** `split_hi_lo` */
  function Hi(k: nat): nat { k / 0x1_0000_0000_0000 * 0x1_0000_0000_0000 }
  function Lo(k: nat): nat { k % 0x1_0000_0000_0000 }

  /** Leaves by their keys in the tree. */
  type Leaves = map<nat, seq<KV>>

  ghost predicate SortedLeaf(s: seq<KV>) { forall i, j {:trigger s[i], s[j]} :: 0 <= i < j < |s| ==> s[i].0 <= s[j].0 }

  /** A leaf filed under a: not empty, sorted, its keys share a's high bits and are not below a. */
  ghost predicate LeafOk(a: nat, s: seq<KV>) {
    s != [] && SortedLeaf(s) && forall i {:trigger s[i]} :: 0 <= i < |s| ==> Lo(a) <= s[i].0 < 0x1_0000_0000_0000
  }

  /** All keys of the leaf lie below b. */
  ghost predicate Below(a: nat, s: seq<KV>, b: nat) { forall i {:trigger s[i]} :: 0 <= i < |s| ==> Hi(a) + s[i].0 < b }

  /** The leaves partition the keys. */
  ghost predicate Good(t: Leaves) {
    && (forall a {:trigger LeafOk(a, t[a])} :: a in t ==> LeafOk(a, t[a]))
    && forall a, b {:trigger Below(a, t[a], b)} :: a in t && b in t && a < b ==> Below(a, t[a], b)
  }

  /** The leaf a search for k ends in. */
  ghost predicate IsCover(t: Leaves, k: nat, a: nat) {
    a in t && Hi(k) <= a <= k && forall b: nat {:trigger b in t} :: b in t && b <= k ==> b <= a
  }

  ghost predicate Covered(t: Leaves, k: nat) { exists a: nat :: IsCover(t, k, a) }

  /** The values that a leaf holds for a key. */
  ghost function Vals(s: seq<KV>, lo: nat): multiset<nat> {
    if s == [] then multiset{} else Vals(s[..|s| - 1], lo) + if s[|s| - 1].0 == lo then multiset{s[|s| - 1].1}
        else multiset{}
  }

  /** The multimap the leaves stand for. */
  ghost function Values(t: Leaves, k: nat): multiset<nat> {
    if Covered(t, k) then
      var a: nat :| IsCover(t, k, a);
      Vals(t[a], Lo(k))
    else multiset{}
  }

  lemma ValuesAt(t: Leaves, k: nat, a: nat)
    requires IsCover(t, k, a)
    ensures Values(t, k) == Vals(t[a], Lo(k))
  {
    var b: nat :| IsCover(t, k, b) && Values(t, k) == Vals(t[b], Lo(k));
    assert IsCover(t, k, b);
  }

  lemma HiLo(k: nat)
    ensures k == Hi(k) + Lo(k) && Lo(k) < 0x1_0000_0000_0000 && Lo(Hi(k)) == 0 && Hi(Hi(k)) == Hi(k)
  {
  }

  lemma HiOf(a: nat, k: nat)
    requires Hi(k) <= a <= k
    ensures Hi(a) == Hi(k) && Lo(a) <= Lo(k)
  {
  }

  lemma HiSum(a: nat, lo: nat)
    requires lo < 0x1_0000_0000_0000
    ensures Hi(Hi(a) + lo) == Hi(a) && Lo(Hi(a) + lo) == lo
  {
  }

  lemma {:induction false} ValsConcat(a: seq<KV>, b: seq<KV>, lo: nat)
    ensures Vals(a + b, lo) == Vals(a, lo) + Vals(b, lo)
    decreases |b|
  {
    if b == [] {
      assert a + b == a;
    } else {
      assert (a + b)[..|a + b| - 1] == a + b[..|b| - 1];
      ValsConcat(a, b[..|b| - 1], lo);
    }
  }

  lemma ValsOne(p: KV, lo: nat)
    ensures Vals([p], lo) == if p.0 == lo then multiset{p.1} else multiset{}
  {
    assert [p][..0] == [];
  }

  lemma {:induction false} ValsNone(s: seq<KV>, lo: nat)
    requires forall i {:trigger s[i]} :: 0 <= i < |s| ==> s[i].0 != lo
    ensures Vals(s, lo) == multiset{}
  {
    if s != [] { ValsNone(s[..|s| - 1], lo); }
  }

  lemma SameCovers(t: Leaves, t': Leaves, x: nat)
    requires t.Keys == t'.Keys
    ensures forall b: nat :: IsCover(t, x, b) <==> IsCover(t', x, b)
  {
    assert forall b: nat :: b in t <==> b in t.Keys;
    assert forall b: nat :: b in t' <==> b in t'.Keys;
  }

  // ---------------------------------------------------------------- editing leaves

  /** No key of the leaf is x. */
  lemma NotInLeaf(a: nat, s: seq<KV>, b: nat, x: nat)
    requires Below(a, s, b) && b <= x && Hi(x) == Hi(a)
    ensures Vals(s, Lo(x)) == multiset{}
  {
    HiLo(x);
    ValsNone(s, Lo(x));
  }

  lemma ReplaceGood(t: Leaves, a: nat, s: seq<KV>)
    requires Good(t) && a in t && LeafOk(a, s)
    requires forall b: nat {:trigger Below(a, s, b)} :: b in t && a < b ==> Below(a, s, b)
    ensures Good(t[a := s])
  {
    var t' := t[a := s];
    forall b: nat, c: nat | b in t' && c in t' && b < c ensures Below(b, t'[b], c) {
      if b != a { assert Below(b, t[b], c); }
    }
    forall b: nat | b in t' ensures LeafOk(b, t'[b]) {
      if b != a { assert LeafOk(b, t[b]); }
    }
  }

  lemma ReplaceValues(t: Leaves, a: nat, s: seq<KV>, x: nat)
    requires a in t
    ensures Values(t[a := s], x) == if IsCover(t, x, a) then Vals(s, Lo(x)) else Values(t, x)
  {
    var t' := t[a := s];
    SameCovers(t, t', x);
    if b: nat :| IsCover(t, x, b) {
      ValuesAt(t, x, b);
      ValuesAt(t', x, b);
      if IsCover(t, x, a) { ValuesAt(t', x, a); }
    }
  }

  lemma InsertGood(t: Leaves, q: nat, s: seq<KV>)
    requires Good(t) && q !in t && LeafOk(q, s)
    requires forall b: nat {:trigger Below(b, t[b], q)} :: b in t && b < q ==> Below(b, t[b], q)
    requires forall b: nat {:trigger Below(q, s, b)} :: b in t && q < b ==> Below(q, s, b)
    ensures Good(t[q := s])
  {
    var t' := t[q := s];
    forall b: nat, c: nat | b in t' && c in t' && b < c ensures Below(b, t'[b], c) {
      if b != q && c != q { assert Below(b, t[b], c); }
    }
    forall b: nat | b in t' ensures LeafOk(b, t'[b]) {
      if b != q { assert LeafOk(b, t[b]); }
    }
  }

  /** A new leaf takes over the keys from its own key on, for which nothing was stored. */
  lemma InsertValues(t: Leaves, q: nat, s: seq<KV>, x: nat)
    requires Good(t) && q !in t && forall b: nat {:trigger Below(b, t[b], q)} :: b in t && b < q ==> Below(b, t[b], q)
    ensures IsCover(t[q := s], x, q) ==> Values(t, x) == multiset{} && Values(t[q := s], x) == Vals(s, Lo(x))
    ensures !IsCover(t[q := s], x, q) ==> Values(t[q := s], x) == Values(t, x)
  {
    var t' := t[q := s];
    if IsCover(t', x, q) {
      ValuesAt(t', x, q);
      TakenOver(t, t', q, x);
    } else {
      CoversKept(t, t', q, x);
      if b: nat :| IsCover(t, x, b) {
        ValuesAt(t, x, b);
        ValuesAt(t', x, b);
      }
    }
  }

  lemma TakenOver(t: Leaves, t': Leaves, q: nat, x: nat)
    requires q !in t && t'.Keys == t.Keys + {q} && IsCover(t', x, q)
    requires forall b: nat {:trigger Below(b, t[b], q)} :: b in t && b < q ==> Below(b, t[b], q)
    ensures Values(t, x) == multiset{}
  {
    if b: nat :| IsCover(t, x, b) {
      assert b in t'.Keys;
      assert b in t' && b < q;
      ValuesAt(t, x, b);
      HiOf(b, x);
      NotInLeaf(b, t[b], q, x);
    }
  }

  lemma CoversKept(t: Leaves, t': Leaves, q: nat, x: nat)
    requires q !in t && t'.Keys == t.Keys + {q} && !IsCover(t', x, q)
    ensures forall b: nat :: IsCover(t, x, b) <==> IsCover(t', x, b)
  {
    assert forall b: nat :: b in t' <==> b in t'.Keys;
    forall b: nat ensures IsCover(t, x, b) <==> IsCover(t', x, b) {
      assert IsCover(t, x, b) && q <= x ==> q < b || IsCover(t', x, q);
    }
  }

  /** Removing a leaf hides nothing but its own pairs. */
  lemma DropOk(t: Leaves, a: nat, x: nat)
    requires Good(t) && a in t
    ensures Good(t - {a}) && Values(t - {a}, x) == if IsCover(t, x, a) then multiset{} else Values(t, x)
  {
    var t' := t - {a};
    forall b: nat, c: nat | b in t' && c in t' && b < c ensures Below(b, t'[b], c) { assert Below(b, t[b], c); }
    forall b: nat | b in t' ensures LeafOk(b, t'[b]) { assert LeafOk(b, t[b]); }
    assert t'[a := t[a]] == t;
    forall b: nat | b in t' && b < a ensures Below(b, t'[b], a) { assert Below(b, t[b], a); }
    InsertValues(t', a, t[a], x);
  }

  // ---------------------------------------------------------------- the operations on the multimap

  function When(c: bool, v: nat): multiset<nat> { if c then multiset{v} else multiset{} }

  /** One more value at k, everything else as before. */
  ghost predicate Adds(t: Leaves, t': Leaves, k: nat, v: nat) {
    forall x: nat {:trigger Values(t', x)} :: Values(t', x) == Values(t, x) + When(x == k, v)
  }

  /** One value at k less. */
  ghost predicate Removes(t: Leaves, t': Leaves, k: nat, v: nat) {
    v in Values(t, k) && forall x: nat {:trigger Values(t', x)} :: Values(t', x) == Values(t, x) - When(x == k, v)
  }

  /** One value at k replaced by another. */
  ghost predicate Changes(t: Leaves, t': Leaves, k: nat, v: nat, w: nat) {
    && v in Values(t, k)
    && forall x: nat {:trigger Values(t', x)} :: Values(t', x) == Values(t, x) - When(x == k, v) + When(x == k, w)
  }

  /** i is where `seek` stops in the leaf: the first pair whose key is not below lo. */
  ghost predicate SeekAt(s: seq<KV>, lo: nat, i: nat) {
    && i <= |s| && (forall j {:trigger s[j]} :: 0 <= j < i ==> s[j].0 < lo)
    && forall j {:trigger s[j]} :: i <= j < |s| ==> s[j].0 >= lo
  }

  /** A pair with key lo may stand at place i. */
  ghost predicate FitsAt(s: seq<KV>, lo: nat, i: nat) {
    && i <= |s| && (forall j {:trigger s[j]} :: 0 <= j < i ==> s[j].0 <= lo)
    && forall j {:trigger s[j]} :: i <= j < |s| ==> s[j].0 >= lo
  }

  lemma SameKey(t: Leaves, k: nat, a: nat, x: nat)
    requires IsCover(t, k, a) && Hi(x) <= a <= x
    ensures Lo(x) == Lo(k) <==> x == k
    ensures Lo(x) < Lo(k) <==> x < k
  {
    HiOf(a, k);
    HiOf(a, x);
    HiLo(k);
    HiLo(x);
  }

  lemma LeafEdited(s: seq<KV>, lo: nat, v: nat, i: nat)
    requires SortedLeaf(s) && FitsAt(s, lo, i)
    ensures SortedLeaf(s[..i] + [(lo, v)] + s[i..])
    ensures forall y {:trigger Vals(s, y)} :: Vals(s[..i] + [(lo, v)] + s[i..], y) == Vals(s, y) + When(y == lo, v)
  {
    var (l, r) := (s[..i], s[i..]);
    assert s == l + r;
    forall y ensures Vals(l + [(lo, v)] + r, y) == Vals(s, y) + When(y == lo, v) {
      ValsConcat(l, r, y);
      ValsConcat(l + [(lo, v)], r, y);
      ValsConcat(l, [(lo, v)], y);
      ValsOne((lo, v), y);
    }
  }

  /** Inserting into the leaf. */
  lemma PutInLeaf(t: Leaves, k: nat, v: nat, a: nat, i: nat)
    requires Good(t) && IsCover(t, k, a) && FitsAt(t[a], Lo(k), i)
    ensures var t' := t[a := t[a][..i] + [(Lo(k), v)] + t[a][i..]]; Good(t') && Adds(t, t', k, v)
  {
    var s := t[a];
    var s': seq<KV> := s[..i] + [(Lo(k), v)] + s[i..];
    assert LeafOk(a, s);
    LeafEdited(s, Lo(k), v, i);
    HiOf(a, k);
    HiLo(k);
    assert forall j :: 0 <= j < |s'| ==> s'[j] == (Lo(k), v) || s'[j] in s;
    forall b: nat | b in t && a < b ensures Below(a, s', b) {
      assert Below(a, s, b);
      assert b > k;
    }
    ReplaceGood(t, a, s');
    forall x: nat ensures Values(t[a := s'], x) == Values(t, x) + When(x == k, v) {
      ReplaceValues(t, a, s', x);
      if IsCover(t, x, a) {
        SameKey(t, k, a, x);
        ValuesAt(t, x, a);
        assert Vals(s', Lo(x)) == Vals(s, Lo(x)) + When(Lo(x) == Lo(k), v);
      }
    }
  }

  /** Filing the pair as a new leaf. */
  lemma PutNewLeaf(t: Leaves, k: nat, v: nat, q: nat)
    requires Good(t) && q !in t && Hi(k) <= q <= k
    requires forall b: nat {:trigger Below(b, t[b], q)} :: b in t && b < q ==> Below(b, t[b], q)
    requires forall b: nat {:trigger b in t} :: b in t && q < b ==> k < b
    ensures var t' := t[q := [(Lo(k), v)]]; Good(t') && Adds(t, t', k, v)
  {
    var s: seq<KV> := [(Lo(k), v)];
    var t' := t[q := s];
    HiOf(q, k);
    HiLo(k);
    InsertGood(t, q, s);
    assert IsCover(t', k, q);
    forall x: nat ensures Values(t', x) == Values(t, x) + When(x == k, v) {
      InsertValues(t, q, s, x);
      ValsOne(s[0], Lo(x));
      if IsCover(t', x, q) { SameKey(t', k, q, x); }
    }
  }

  /** Splitting a leaf: the pair and everything behind it move to a new leaf. */
  lemma PutSplit(t: Leaves, k: nat, v: nat, a: nat, i: nat)
    requires Good(t) && IsCover(t, k, a) && SeekAt(t[a], Lo(k), i) && 0 < i < |t[a]|
    ensures k !in t && var t' := t[a := t[a][..i]][k := [(Lo(k), v)] + t[a][i..]]; Good(t') && Adds(t, t', k, v)
  {
    var s := t[a];
    var l: seq<KV>, r: seq<KV> := s[..i], [(Lo(k), v)] + s[i..];
    var mid := t[a := l];
    var t' := mid[k := r];
    assert LeafOk(a, s);
    HiOf(a, k);
    HiLo(k);
    assert s[0].0 < Lo(k);
    forall b: nat | b in t && a < b ensures Below(a, l, b) && k < b && Below(k, r, b) { assert Below(a, s, b); }
    ReplaceGood(t, a, l);
    SplitBounds(t, mid, k, a, l);
    InsertGood(mid, k, r);
    forall x: nat ensures Values(t', x) == Values(t, x) + When(x == k, v) {
      SplitVals(s, Lo(k), v, i, Lo(x));
      SplitValues(t, k, v, a, l, r, x);
    }
  }

  lemma SplitBounds(t: Leaves, mid: Leaves, k: nat, a: nat, l: seq<KV>)
    requires Good(t) && IsCover(t, k, a) && mid == t[a := l] && a < k
    requires forall j {:trigger l[j]} :: 0 <= j < |l| ==> l[j].0 < Lo(k)
    ensures forall b: nat {:trigger Below(b, mid[b], k)} :: b in mid && b < k ==> Below(b, mid[b], k)
  {
    HiOf(a, k);
    HiLo(k);
    forall b: nat | b in mid && b < k ensures Below(b, mid[b], k) {
      if b != a { assert b in t && b < a && Below(b, t[b], a); }
    }
  }

  /** The pairs from lo on go right. */
  lemma SplitVals(s: seq<KV>, lo: nat, v: nat, i: nat, y: nat)
    requires SeekAt(s, lo, i)
    ensures y >= lo ==> Vals([(lo, v)] + s[i..], y) == Vals(s, y) + When(y == lo, v)
    ensures y < lo ==> Vals(s[..i], y) == Vals(s, y)
  {
    assert s == s[..i] + s[i..];
    ValsConcat(s[..i], s[i..], y);
    if y >= lo {
      ValsNone(s[..i], y);
      ValsConcat([(lo, v)], s[i..], y);
      ValsOne((lo, v), y);
    } else {
      ValsNone(s[i..], y);
    }
  }

  lemma SplitValues(t: Leaves, k: nat, v: nat, a: nat, l: seq<KV>, r: seq<KV>, x: nat)
    requires Good(t) && IsCover(t, k, a) && k !in t && Good(t[a := l])
    requires forall b: nat {:trigger Below(b, t[a := l][b], k)} :: b in t && b < k ==> Below(b, t[a := l][b], k)
    requires Lo(x) >= Lo(k) ==> Vals(r, Lo(x)) == Vals(t[a], Lo(x)) + When(Lo(x) == Lo(k), v)
    requires Lo(x) < Lo(k) ==> Vals(l, Lo(x)) == Vals(t[a], Lo(x))
    ensures Values(t[a := l][k := r], x) == Values(t, x) + When(x == k, v)
  {
    var mid := t[a := l];
    var t' := mid[k := r];
    ReplaceValues(t, a, l, x);
    InsertValues(mid, k, r, x);
    if IsCover(t', x, k) {
      CoverBefore(t, t', k, a, x);
      SameKey(t, k, a, x);
      ValuesAt(t, x, a);
    } else if IsCover(t, x, a) {
      SameKey(t, k, a, x);
      ValuesAt(t, x, a);
      CoverBelow(t, t', k, a, x);
    } else {
      assert x != k;
    }
  }

  lemma CoverBefore(t: Leaves, t': Leaves, k: nat, a: nat, x: nat)
    requires IsCover(t, k, a) && t'.Keys == t.Keys + {k} && IsCover(t', x, k)
    ensures IsCover(t, x, a)
  {
    HiOf(k, x);
    forall b: nat | b in t && b <= x ensures b <= a { assert b in t'.Keys; assert b in t'; }
  }

  lemma CoverBelow(t: Leaves, t': Leaves, k: nat, a: nat, x: nat)
    requires IsCover(t, k, a) && IsCover(t, x, a) && t'.Keys == t.Keys + {k} && !IsCover(t', x, k)
    ensures x < k
  {
    HiOf(a, x);
    HiOf(a, k);
    assert forall b: nat :: b in t' <==> b in t'.Keys;
    assert k in t';
    assert k <= x ==> IsCover(t', x, k);
  }

  lemma {:induction false} ValsMember(s: seq<KV>, lo: nat, v: nat)
    ensures v in Vals(s, lo) <==> (lo, v) in s
  {
    if s != [] {
      ValsMember(s[..|s| - 1], lo, v);
      assert s == s[..|s| - 1] + [s[|s| - 1]];
    }
  }

  lemma ValsWithout(s: seq<KV>, i: nat, y: nat)
    requires i < |s|
    ensures Vals(s, y) == Vals(s[..i] + s[i + 1..], y) + When(y == s[i].0, s[i].1)
  {
    assert s == s[..i] + [s[i]] + s[i + 1..];
    ValsConcat(s[..i] + [s[i]], s[i + 1..], y);
    ValsConcat(s[..i], [s[i]], y);
    ValsOne(s[i], y);
    ValsConcat(s[..i], s[i + 1..], y);
  }

  lemma FoundInLeaf(t: Leaves, k: nat, v: nat, a: nat)
    requires IsCover(t, k, a)
    ensures v in Values(t, k) <==> (Lo(k), v) in t[a]
  {
    ValuesAt(t, k, a);
    ValsMember(t[a], Lo(k), v);
  }

  /** Removing a pair from its leaf; an emptied leaf goes. */
  lemma TakeFromLeaf(t: Leaves, k: nat, v: nat, a: nat, i: nat)
    requires Good(t) && IsCover(t, k, a) && i < |t[a]| && t[a][i] == (Lo(k), v)
    ensures var s := t[a][..i] + t[a][i + 1..];
            var t' := if s == [] then t - {a} else t[a := s];
            Good(t') && Removes(t, t', k, v)
  {
    var s := t[a][..i] + t[a][i + 1..];
    var t' := if s == [] then t - {a} else t[a := s];
    assert LeafOk(a, t[a]);
    FoundInLeaf(t, k, v, a);
    if s == [] {
      DropOk(t, a, k);
    } else {
      forall b: nat | b in t && a < b ensures Below(a, s, b) { assert Below(a, t[a], b); }
      ReplaceGood(t, a, s);
    }
    forall x: nat ensures Values(t', x) == Values(t, x) - When(x == k, v) {
      if s == [] { DropOk(t, a, x); } else { ReplaceValues(t, a, s, x); }
      if IsCover(t, x, a) {
        SameKey(t, k, a, x);
        ValuesAt(t, x, a);
        ValsWithout(t[a], i, Lo(x));
      } else {
        assert x != k;
      }
    }
  }

  lemma ValsChanged(s: seq<KV>, i: nat, w: nat, y: nat)
    requires i < |s|
    ensures Vals(s[i := (s[i].0, w)], y) == Vals(s, y) - When(y == s[i].0, s[i].1) + When(y == s[i].0, w)
  {
    var s' := s[i := (s[i].0, w)];
    ValsWithout(s, i, y);
    ValsWithout(s', i, y);
    assert s'[..i] + s'[i + 1..] == s[..i] + s[i + 1..];
  }

  /** Overwriting a value in its leaf. */
  lemma ChangeInLeaf(t: Leaves, k: nat, v: nat, w: nat, a: nat, i: nat)
    requires Good(t) && IsCover(t, k, a) && i < |t[a]| && t[a][i] == (Lo(k), v)
    ensures var t' := t[a := t[a][i := (Lo(k), w)]]; Good(t') && Changes(t, t', k, v, w)
  {
    var s: seq<KV> := t[a][i := (Lo(k), w)];
    var t' := t[a := s];
    assert LeafOk(a, t[a]);
    FoundInLeaf(t, k, v, a);
    forall b: nat | b in t && a < b ensures Below(a, s, b) { assert Below(a, t[a], b); }
    ReplaceGood(t, a, s);
    forall x: nat ensures Values(t', x) == Values(t, x) - When(x == k, v) + When(x == k, w) {
      ReplaceValues(t, a, s, x);
      if IsCover(t, x, a) {
        SameKey(t, k, a, x);
        ValuesAt(t, x, a);
        ValsChanged(t[a], i, w, Lo(x));
      } else {
        assert x != k;
      }
    }
  }

  // ---------------------------------------------------------------- the key before a key

  /** p is the largest key below k that has values. */
  ghost predicate IsPred(t: Leaves, k: nat, p: nat) {
    && p < k && Values(t, p) != multiset{}
    && forall y: nat {:trigger Values(t, y)} :: p < y < k ==> Values(t, y) == multiset{}
  }

  ghost predicate NoPred(t: Leaves, k: nat) {
    forall y: nat {:trigger Values(t, y)} :: y < k ==> Values(t, y) == multiset{}
  }

  /** A key for which its leaf has nothing. */
  lemma NoValues(t: Leaves, a: nat, y: nat)
    requires IsCover(t, y, a) && forall j {:trigger t[a][j]} :: 0 <= j < |t[a]| ==> t[a][j].0 != Lo(y)
    ensures Values(t, y) == multiset{}
  {
    ValuesAt(t, y, a);
    ValsNone(t[a], Lo(y));
  }

  /** The key stored in pair i of leaf a is found in that leaf. */
  lemma StoredKey(t: Leaves, a: nat, i: nat)
    requires Good(t) && a in t && i < |t[a]|
    ensures var x := Hi(a) + t[a][i].0; a <= x && IsCover(t, x, a) && Lo(x) == t[a][i].0 && t[a][i].1 in Values(t, x)
  {
    assert LeafOk(a, t[a]);
    var x := Hi(a) + t[a][i].0;
    HiSum(a, t[a][i].0);
    HiLo(a);
    forall b: nat | b in t && b <= x ensures b <= a { assert a < b ==> Below(a, t[a], b); }
    assert IsCover(t, x, a);
    FoundInLeaf(t, x, t[a][i].1, a);
  }

  /** The pair before the place of k is the predecessor. */
  lemma PredInLeaf(t: Leaves, k: nat, a: nat, i: nat)
    requires Good(t) && IsCover(t, k, a) && SeekAt(t[a], Lo(k), i) && i > 0
    ensures IsPred(t, k, Hi(a) + t[a][i - 1].0)
  {
    var p := Hi(a) + t[a][i - 1].0;
    StoredKey(t, a, i - 1);
    assert LeafOk(a, t[a]);
    HiOf(a, k);
    HiLo(k);
    forall y: nat | p < y < k ensures Values(t, y) == multiset{} {
      assert IsCover(t, y, a);
      HiOf(a, y);
      HiLo(y);
      NoValues(t, a, y);
    }
  }

  /** From c, which is the leaf of k or k itself, nothing is stored below k. */
  ghost predicate Gap(t: Leaves, k: nat, c: nat) {
    && (IsCover(t, k, c) || (c == k && !Covered(t, k)))
    && forall y: nat {:trigger Values(t, y)} :: c <= y < k ==> Values(t, y) == multiset{}
  }

  lemma GapInLeaf(t: Leaves, k: nat, a: nat)
    requires Good(t) && IsCover(t, k, a) && SeekAt(t[a], Lo(k), 0)
    ensures Gap(t, k, a)
  {
    HiOf(a, k);
    HiLo(k);
    forall y: nat | a <= y < k ensures Values(t, y) == multiset{} {
      assert IsCover(t, y, a);
      SameKey(t, k, a, y);
      NoValues(t, a, y);
    }
  }

  /** Every key of a leaf filed before the gap lies below k. */
  lemma PrevBelow(t: Leaves, k: nat, c: nat, b: nat, i: nat)
    requires Good(t) && Gap(t, k, c) && b in t && b < c
    requires (forall d: nat {:trigger d in t} :: d in t && d < c ==> d <= b) && i < |t[b]|
    ensures Hi(b) + t[b][i].0 < k
  {
    assert LeafOk(b, t[b]);
    if IsCover(t, k, c) {
      assert Below(b, t[b], c);
    } else if Hi(k) <= b {
      assert k !in t || IsCover(t, k, k);
      assert IsCover(t, k, b);
    } else {
      HiStep(b, k);
    }
  }

  lemma HiStep(b: nat, k: nat)
    requires b < Hi(k)
    ensures Hi(b) + 0x1_0000_0000_0000 <= Hi(k) <= k
  {
  }

  /** Otherwise the predecessor is the last pair of the leaf before. */
  lemma PredInPrev(t: Leaves, k: nat, c: nat, b: nat)
    requires Good(t) && Gap(t, k, c) && b in t && b < c && forall d: nat {:trigger d in t} :: d in t && d < c ==> d <= b
    ensures t[b] != [] && IsPred(t, k, Hi(b) + t[b][|t[b]| - 1].0)
  {
    assert LeafOk(b, t[b]);
    var n := |t[b]| - 1;
    var p := Hi(b) + t[b][n].0;
    StoredKey(t, b, n);
    PrevBelow(t, k, c, b, n);
    forall y: nat | p < y < k ensures Values(t, y) == multiset{} {
      if y < c {
        if d: nat :| IsCover(t, y, d) {
          assert b in t && d in t && d == b;
          HiOf(b, y);
          HiLo(y);
          NoValues(t, b, y);
        }
      }
    }
  }

  lemma NoPrevLeaf(t: Leaves, k: nat, c: nat)
    requires Gap(t, k, c) && forall d: nat {:trigger d in t} :: d in t ==> d >= c
    ensures NoPred(t, k)
  {
    forall y: nat | y < k ensures Values(t, y) == multiset{} {
      assert forall d: nat :: IsCover(t, y, d) ==> d in t && d <= y;
    }
  }
}
