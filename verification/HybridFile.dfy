/** The sorted file of a hybrid unit: writing it together with its page index, merging the overlay
    into it, and finding a key and the one before it. */
module HybridFile {
  import opened Basics
  import opened Hybrid

  // ---------------------------------------------------------------- the page index

  /** Pages hold 32 records. The first key of every fourth page is kept whole, of the others only
      the upper 32 bits. */
  ghost predicate PageOk(file: seq<KV>, first64: seq<nat>, first32: seq<nat>, n: nat) {
    32 * n < |file| ==>
      if n % 4 == 0 then n / 4 < |first64| && first64[n / 4] == file[32 * n].0
      else n / 4 * 3 + n % 4 - 1 < |first32| && first32[n / 4 * 3 + n % 4 - 1] == file[32 * n].0 / 0x1_0000_0000
  }

  function Pages(len: nat): nat { (len + 31) / 32 }

  ghost predicate Indexed(file: seq<KV>, first64: seq<nat>, first32: seq<nat>) {
    && |first64| == (Pages(|file|) + 3) / 4 && |first32| == Pages(|file|) - |first64|
    && forall n: nat {:trigger PageOk(file, first64, first32, n)} :: PageOk(file, first64, first32, n)
  }

  /** `FileWriter` */
  class FileWriter {
    var out: seq<KV>
    var recordCount: nat
    var first64: seq<nat>
    var first32: seq<nat>

    ghost predicate Valid()
      reads this
    {
      recordCount == |out| && Indexed(out, first64, first32)
    }

    constructor ()
      ensures Valid() && out == []
    {
      out, recordCount, first64, first32 := [], 0, [], [];
    }

    /** `write` */
    method Write(e: KV)
      requires Valid()
      modifies this
      ensures Valid() && out == old(out) + [e]
    {
      ghost var (f, a, b) := (out, first64, first32);
      out := out + [e];
      if recordCount % 32 == 0 {
        var n := recordCount / 32;
        if n % 4 == 0 { first64 := first64 + [e.0]; } else { first32 := first32 + [e.0 / 0x1_0000_0000]; }
      }
      recordCount := recordCount + 1;
      WrittenCounts(|f|);
      forall n: nat ensures PageOk(out, first64, first32, n) {
        assert PageOk(f, a, b, n);
        WritePage(f, a, b, e, first64, first32, n);
      }
    }
  }

  /** The page keys after one more record. */
  lemma WritePage(f: seq<KV>, a: seq<nat>, b: seq<nat>, e: KV, a': seq<nat>, b': seq<nat>, n: nat)
    requires PageOk(f, a, b, n) && |a| == (Pages(|f|) + 3) / 4 && |b| == Pages(|f|) - |a|
    requires a' == (if |f| % 32 == 0 && (|f| / 32) % 4 == 0 then a + [e.0] else a)
    requires b' == (if |f| % 32 == 0 && (|f| / 32) % 4 != 0 then b + [e.0 / 0x1_0000_0000] else b)
    ensures PageOk(f + [e], a', b', n)
  {
    WrittenPage(|f|, n);
  }

  lemma WrittenPage(len: nat, n: nat)
    ensures 32 * n < len ==> n < Pages(len)
    ensures 32 * n < len + 1 && !(32 * n < len) ==> len % 32 == 0 && n == len / 32 == Pages(len)
  {
  }

  lemma WrittenCounts(len: nat)
    ensures Pages(len + 1) == if len % 32 == 0 then Pages(len) + 1 else Pages(len)
    ensures len % 32 == 0 ==> Pages(len) == len / 32
  {
  }

  // ---------------------------------------------------------------- merging

  /** `FileReader`: walks over the records that are not erased. */
  class FileReader {
    const records: seq<KV>
    const erased: set<nat>
    var at: nat

    ghost predicate Valid()
      reads this
    {
      at <= |records| && (at < |records| ==> records[at].1 !in erased)
    }

    /** `load_file` */
    constructor (records: seq<KV>, erased: set<nat>)
      ensures Valid() && this.records == records && this.erased == erased
      ensures forall j :: 0 <= j < at ==> records[j].1 in erased
    {
      this.records, this.erased := records, erased;
      at := 0;
      new;
      SkipErased();
    }

    method SkipErased()
      requires at <= |records|
      modifies this
      ensures Valid() && old(at) <= at && forall j :: old(at) <= j < at ==> records[j].1 in erased
    {
      while at < |records| && records[at].1 in erased
        invariant old(at) <= at <= |records| && forall j :: old(at) <= j < at ==> records[j].1 in erased
      {
        at := at + 1;
      }
    }

    /** `next` */
    method Next()
      requires Valid() && at < |records|
      modifies this
      ensures Valid() && old(at) < at && forall j :: old(at) < j < at ==> records[j].1 in erased
    {
      at := at + 1;
      SkipErased();
    }
  }

  /** What has been written so far: the visible records before `i` of the file and the first `j`
      pairs of the overlay, in order. */
  ghost predicate MergedUpTo(w: View, out: seq<KV>, i: nat, j: nat) {
    && i <= |w.file| && j <= |w.newKv| && Strict(out)
    && forall p: KV {:trigger p in out} :: p in out <==> p in w.newKv[..j] || (p in w.file[..i] && p.1 !in w.erased)
  }

  /** Everything written is smaller than p. */
  ghost predicate AllBelow(out: seq<KV>, p: KV) { forall q: KV {:trigger q in out} :: q in out ==> Lt(q, p) }

  lemma AppendStrict(out: seq<KV>, p: KV)
    requires Strict(out) && AllBelow(out, p)
    ensures Strict(out + [p])
  {
    forall i | 0 <= i < |out| ensures Lt(out[i], p) { assert out[i] in out; }
  }

  lemma PrefixGrows(s: seq<KV>, i: nat, p: KV)
    requires i < |s|
    ensures p in s[..i + 1] <==> p in s[..i] || p == s[i]
  {
    assert s[..i + 1] == s[..i] + [s[i]];
  }

  lemma PrefixSkips(s: seq<KV>, erased: set<nat>, i: nat, i': nat, p: KV)
    requires i <= i' <= |s| && (forall j :: i <= j < i' ==> s[j].1 in erased) && p.1 !in erased
    ensures p in s[..i'] <==> p in s[..i]
  {
    assert s[..i'] == s[..i] + s[i..i'];
    assert forall q :: q in s[i..i'] ==> q.1 in erased;
  }

  /** Writing the reader's record and moving it on. */
  lemma TakeFile(w: View, out: seq<KV>, i: nat, i': nat, j: nat)
    requires MergedUpTo(w, out, i, j) && i < i' <= |w.file| && w.file[i].1 !in w.erased && AllBelow(out, w.file[i])
    requires forall x :: i < x < i' ==> w.file[x].1 in w.erased
    ensures MergedUpTo(w, out + [w.file[i]], i', j)
  {
    AppendStrict(out, w.file[i]);
    forall p: KV ensures p in out + [w.file[i]] <==> p in w.newKv[..j] || (p in w.file[..i'] && p.1 !in w.erased) {
      PrefixGrows(w.file, i, p);
      if p.1 !in w.erased { PrefixSkips(w.file, w.erased, i + 1, i', p); }
    }
  }

  /** Writing the overlay's next pair. */
  lemma TakeOver(w: View, out: seq<KV>, i: nat, j: nat)
    requires MergedUpTo(w, out, i, j) && j < |w.newKv| && AllBelow(out, w.newKv[j])
    ensures MergedUpTo(w, out + [w.newKv[j]], i, j + 1)
  {
    AppendStrict(out, w.newKv[j]);
    forall p: KV ensures p in out + [w.newKv[j]] <==> p in w.newKv[..j + 1] || (p in w.file[..i] && p.1 !in w.erased) {
      PrefixGrows(w.newKv, j, p);
    }
  }

  lemma LtTrans(a: KV, b: KV, c: KV)
    requires Lt(a, b) && Lt(b, c)
    ensures Lt(a, c)
  {
  }

  lemma BelowGrows(out: seq<KV>, p: KV, q: KV)
    requires AllBelow(out, p) && Lt(p, q)
    ensures AllBelow(out, q) && AllBelow(out + [p], q)
  {
    forall r: KV | r in out + [p] ensures Lt(r, q) {
      if r in out { LtTrans(r, p, q); }
    }
    forall r: KV | r in out ensures Lt(r, q) { LtTrans(r, p, q); }
  }

  /** What is still to come is larger than what was written. */
  ghost predicate Pending(w: View, out: seq<KV>, i: nat, j: nat) {
    && (i < |w.file| ==> AllBelow(out, w.file[i]))
    && (j < |w.newKv| ==> AllBelow(out, w.newKv[j]))
  }

  /** `merge`: the new file holds exactly the visible pairs, in order, with its page index. */
  method MergeInto(w: View) returns (wr: FileWriter)
    requires Ok(w)
    ensures fresh(wr) && wr.Valid() && IsMerge(w, View(wr.out, [], {}))
  {
    var rd := new FileReader(w.file, w.erased);
    wr := new FileWriter();
    Skipped(w, rd.at);
    for j := 0 to |w.newKv|
      invariant fresh(wr) && fresh(rd) && wr.Valid() && rd.Valid() && rd.records == w.file && rd.erased == w.erased
      invariant MergedUpTo(w, wr.out, rd.at, j) && Pending(w, wr.out, rd.at, j)
    {
      CopySmaller(w, rd, wr, j);
      var p := w.newKv[j];
      assert p in w.newKv;
      TakeOver(w, wr.out, rd.at, j);
      if rd.at < |w.file| {
        assert w.file[rd.at] in w.file;
        BelowGrows(wr.out, p, w.file[rd.at]);
      }
      if j + 1 < |w.newKv| { BelowGrows(wr.out, p, w.newKv[j + 1]); }
      wr.Write(p);
    }
    CopyRest(w, rd, wr);
    MergedAll(w, wr.out);
  }

  lemma Skipped(w: View, i: nat)
    requires i <= |w.file| && forall j :: 0 <= j < i ==> w.file[j].1 in w.erased
    ensures MergedUpTo(w, [], i, 0) && Pending(w, [], i, 0)
  {
    forall p: KV ensures !(p in w.file[..i] && p.1 !in w.erased) {}
  }

  lemma MergedAll(w: View, out: seq<KV>)
    requires MergedUpTo(w, out, |w.file|, |w.newKv|)
    ensures IsMerge(w, View(out, [], {}))
  {
    assert w.file[..|w.file|] == w.file && w.newKv[..|w.newKv|] == w.newKv;
    forall k: nat, v: nat ensures (k, v) in out <==> IsLive(w, k, v) {}
  }

  /** Copy the file's records that are smaller than the overlay's pair j. */
  method CopySmaller(w: View, rd: FileReader, wr: FileWriter, j: nat)
    requires Ok(w) && wr.Valid() && rd.Valid() && rd.records == w.file && rd.erased == w.erased && j < |w.newKv|
    requires MergedUpTo(w, wr.out, rd.at, j) && Pending(w, wr.out, rd.at, j)
    modifies rd, wr
    ensures wr.Valid() && rd.Valid() && MergedUpTo(w, wr.out, rd.at, j) && AllBelow(wr.out, w.newKv[j])
    ensures rd.at < |w.file| ==> !Lt(w.file[rd.at], w.newKv[j])
  {
    while rd.at < |w.file| && Lt(w.file[rd.at], w.newKv[j])
      invariant wr.Valid() && rd.Valid() && MergedUpTo(w, wr.out, rd.at, j) && Pending(w, wr.out, rd.at, j)
      decreases |w.file| - rd.at
    {
      CopyOne(w, rd, wr, j);
    }
  }

  method CopyRest(w: View, rd: FileReader, wr: FileWriter)
    requires Ok(w) && wr.Valid() && rd.Valid() && rd.records == w.file && rd.erased == w.erased
    requires MergedUpTo(w, wr.out, rd.at, |w.newKv|) && Pending(w, wr.out, rd.at, |w.newKv|)
    modifies rd, wr
    ensures wr.Valid() && MergedUpTo(w, wr.out, |w.file|, |w.newKv|)
  {
    while rd.at < |w.file|
      invariant wr.Valid() && rd.Valid() && MergedUpTo(w, wr.out, rd.at, |w.newKv|)
      invariant Pending(w, wr.out, rd.at, |w.newKv|)
      decreases |w.file| - rd.at
    {
      CopyOne(w, rd, wr, |w.newKv|);
    }
  }

  method CopyOne(w: View, rd: FileReader, wr: FileWriter, ghost j: nat)
    requires Ok(w) && wr.Valid() && rd.Valid() && rd.records == w.file && rd.erased == w.erased && rd.at < |w.file|
    requires MergedUpTo(w, wr.out, rd.at, j) && Pending(w, wr.out, rd.at, j)
    requires (j < |w.newKv| ==> Lt(w.file[rd.at], w.newKv[j]))
    modifies rd, wr
    ensures wr.Valid() && rd.Valid() && rd.at > old(rd.at) && MergedUpTo(w, wr.out, rd.at, j)
    ensures Pending(w, wr.out, rd.at, j)
  {
    ghost var (i, out) := (rd.at, wr.out);
    wr.Write(rd.records[rd.at]);
    rd.Next();
    TakeFile(w, out, i, rd.at, j);
    if rd.at < |w.file| { BelowGrows(out, w.file[i], w.file[rd.at]); }
    if j < |w.newKv| { BelowGrows(out, w.file[i], w.newKv[j]); }
  }

  // ---------------------------------------------------------------- finding the page

  lemma KeysAscend(file: seq<KV>, i: nat, j: nat)
    requires Strict(file) && i <= j < |file|
    ensures file[i].0 <= file[j].0
  {
    assert i < j ==> Lt(file[i], file[j]);
  }

  ghost predicate Ascending(s: seq<nat>) { forall i, j {:trigger s[i], s[j]} :: 0 <= i <= j < |s| ==> s[i] <= s[j] }

  /** A match if there is one, else where it would be inserted. */
  method BinarySearch(s: seq<nat>, k: nat) returns (found: bool, idx: nat)
    requires Ascending(s)
    ensures found ==> idx < |s| && s[idx] == k
    ensures !found ==>
              && idx <= |s| && (forall i {:trigger s[i]} :: 0 <= i < idx ==> s[i] < k)
              && forall i {:trigger s[i]} :: idx <= i < |s| ==> s[i] > k
  {
    var lo, hi := 0, |s|;
    while lo < hi
      invariant 0 <= lo <= hi <= |s|
      invariant (forall i {:trigger s[i]} :: 0 <= i < lo ==> s[i] < k)
      invariant forall i {:trigger s[i]} :: hi <= i < |s| ==> s[i] > k
    {
      var mid := (lo + hi) / 2;
      if s[mid] == k { return true, mid; }
      if s[mid] < k { lo := mid + 1; } else { hi := mid; }
    }
    return false, lo;
  }

  /** `find_page_id_k64`: the last whole first key that is not above k; None is the panic for a
      key before all of them. */
  method FindPageIdK64(first64: seq<nat>, k: nat) returns (r: Option<nat>)
    requires Ascending(first64)
    ensures r.None? <==> first64 == [] || first64[0] > k
    ensures r.Some? ==>
              r.value < |first64| && first64[r.value] <= k && (r.value + 1 < |first64| ==> first64[r.value + 1] > k)
  {
    var found, idx := BinarySearch(first64, k);
    if !found {
      if idx == 0 { return None; }
      return Some(idx - 1);
    }
    var id := idx;
    while id + 1 < |first64| && first64[id + 1] == k
      invariant id < |first64| && first64[id] == k
      decreases |first64| - id
    {
      id := id + 1;
    }
    assert id + 1 < |first64| ==> first64[id] <= first64[id + 1];
    return Some(id);
  }

  lemma Index64(file: seq<KV>, first64: seq<nat>, first32: seq<nat>)
    requires Strict(file) && Indexed(file, first64, first32)
    ensures Ascending(first64) && (first64 == [] <==> file == []) && (first64 != [] ==> first64[0] == file[0].0)
    ensures forall m: nat {:trigger first64[m]} :: m < |first64| ==> 128 * m < |file| && first64[m] == file[128 * m].0
  {
    forall m: nat | m < |first64| ensures 128 * m < |file| && first64[m] == file[128 * m].0 {
      assert PageOk(file, first64, first32, 4 * m);
    }
    forall i, j | 0 <= i <= j < |first64| ensures first64[i] <= first64[j] { KeysAscend(file, 128 * i, 128 * j); }
  }

  /** Every record from `end` on has a larger key. */
  ghost predicate LargerFrom(file: seq<KV>, end: nat, k: nat) {
    forall i {:trigger file[i]} :: end <= i < |file| ==> file[i].0 > k
  }

  /** `find_page_id`: a page behind which all keys are larger; the halved keys may overshoot. */
  method FindPageId(file: seq<KV>, first64: seq<nat>, first32: seq<nat>, k: nat) returns (r: Option<nat>)
    requires Strict(file) && Indexed(file, first64, first32)
    ensures r.None? <==> file == [] || file[0].0 > k
    ensures r.Some? ==> 32 * r.value < |file| && LargerFrom(file, 32 * r.value + 32, k)
  {
    Index64(file, first64, first32);
    var id64 := FindPageIdK64(first64, k);
    if id64.None? { return None; }
    var m := id64.value;
    var page, base := m * 4, m * 3;
    SubPages(|file|, m);
    var end := if |first32| - base < 3 then |first32| - base else 3;
    for sub := 0 to end
      invariant 4 * m <= page <= 4 * m + sub
      invariant forall i {:trigger first32[i]} ::
                  base <= i < base + sub ==> (first32[i] <= k / 0x1_0000_0000 <==> i < base + page - 4 * m)
    {
      HalvesAscend(file, first64, first32, m, page - 4 * m, sub);
      if k / 0x1_0000_0000 >= first32[base + sub] { page := page + 1; }
    }
    r := Some(page);
    var c := page - 4 * m;
    if c < end {
      HalfKey(file, first64, first32, m, c);
      LargerBehind(file, 32 * (4 * m + c + 1), k);
    } else if end == 3 && m + 1 < |first64| {
      LargerBehind(file, 128 * (m + 1), k);
    }
  }

  /** How many halved keys a group of four pages has. */
  lemma SubPages(len: nat, m: nat)
    requires m < (Pages(len) + 3) / 4
    ensures var n32 := Pages(len) - (Pages(len) + 3) / 4;
            && m * 3 <= n32 && 128 * m < len
            && (forall s: nat {:trigger 4 * m + s + 1} :: s < 3 ==> (m * 3 + s < n32 <==> 32 * (4 * m + s + 1) < len))
            && (m + 1 >= (Pages(len) + 3) / 4 ==> 128 * (m + 1) >= len)
  {
  }

  lemma HalfKey(file: seq<KV>, first64: seq<nat>, first32: seq<nat>, m: nat, s: nat)
    requires Indexed(file, first64, first32) && m < |first64| && s < 3 && m * 3 + s < |first32|
    ensures 32 * (4 * m + s + 1) < |file| && first32[m * 3 + s] == file[32 * (4 * m + s + 1)].0 / 0x1_0000_0000
  {
    SubPages(|file|, m);
    var n := 4 * m + s + 1;
    assert PageOk(file, first64, first32, n);
    assert n / 4 == m && n % 4 == s + 1;
  }

  lemma HalvesAscend(file: seq<KV>, first64: seq<nat>, first32: seq<nat>, m: nat, s: nat, t: nat)
    requires Strict(file) && Indexed(file, first64, first32) && m < |first64| && s <= t < 3 && m * 3 + t < |first32|
    ensures first32[m * 3 + s] <= first32[m * 3 + t]
  {
    HalfKey(file, first64, first32, m, s);
    HalfKey(file, first64, first32, m, t);
    KeysAscend(file, 32 * (4 * m + s + 1), 32 * (4 * m + t + 1));
  }

  lemma LargerBehind(file: seq<KV>, i: nat, k: nat)
    requires Strict(file) && i < |file| && file[i].0 > k
    ensures LargerFrom(file, i, k)
  {
    forall j {:trigger file[j]} | i <= j < |file| ensures file[j].0 > k { KeysAscend(file, i, j); }
  }

  // ---------------------------------------------------------------- scanning backwards

  const MARK: nat := 0x1_0000_0000_0000

  ghost predicate NoRepeats(s: seq<nat>) { forall i, j {:trigger s[i], s[j]} :: 0 <= i < j < |s| ==> s[i] != s[j] }

  /** The list has, with this mark, exactly the values of x among the records i..n. */
  ghost predicate Lists(list: seq<nat>, file: seq<KV>, i: nat, n: nat, x: nat, mark: nat)
    requires i <= n <= |file|
  {
    forall v: nat {:trigger (x, v) in file[i..n]} :: v < MARK ==> (mark + v in list <==> (x, v) in file[i..n])
  }

  /** The state of the backward scan: records i..n have been seen, and after them only larger
      keys come. */
  ghost predicate Scanned(file: seq<KV>, k: nat, getPrev: bool, i: nat, n: nat, list: seq<nat>, atPrev: bool,
                          prev: nat) {
    && i <= n <= |file| && NoRepeats(list) && Lists(list, file, i, n, k, 0)
    && (forall x {:trigger x in list} :: x in list ==> x < 2 * MARK)
    && (if atPrev then
          && getPrev && prev < k && Lists(list, file, i, n, prev, MARK) && (exists v: nat :: (prev, v) in file[i..n])
          && forall j {:trigger file[j]} :: i <= j < n && file[j].0 < k ==> file[j].0 == prev
        else
          && (forall x {:trigger x in list} :: x in list ==> x < MARK) && prev == 0
          && forall j {:trigger file[j]} :: i <= j < n ==> file[j].0 >= k)
  }

  lemma SliceGrows(file: seq<KV>, i: nat, n: nat, p: KV)
    requires i < n <= |file|
    ensures p in file[i..n] <==> p == file[i] || p in file[i + 1..n]
  {
    assert file[i..n] == [file[i]] + file[i + 1..n];
  }

  lemma NotSeen(file: seq<KV>, i: nat, n: nat)
    requires Strict(file) && i < n <= |file|
    ensures file[i] !in file[i + 1..n]
  {
    var t := file[i + 1..n];
    assert forall j {:trigger t[j]} :: 0 <= j < |t| ==> t[j] == file[i + 1 + j] && Lt(file[i], file[i + 1 + j]);
  }

  /** Adding one value to the list. */
  lemma ListOne(list: seq<nat>, file: seq<KV>, i: nat, n: nat, x: nat, mark: nat)
    requires Strict(file) && i < n <= |file| && NoRepeats(list) && Lists(list, file, i + 1, n, x, mark)
    requires file[i].0 == x && file[i].1 < MARK
    ensures NoRepeats(list + [mark + file[i].1]) && Lists(list + [mark + file[i].1], file, i, n, x, mark)
  {
    var v := file[i].1;
    NotSeen(file, i, n);
    assert (x, v) !in file[i + 1..n];
    assert mark + v !in list;
    forall u: nat | u < MARK ensures mark + u in list + [mark + v] <==> (x, u) in file[i..n] {
      SliceGrows(file, i, n, (x, u));
      assert mark + u in list <==> (x, u) in file[i + 1..n];
    }
  }

  lemma ListSame(list: seq<nat>, list': seq<nat>, file: seq<KV>, i: nat, n: nat, x: nat, mark: nat)
    requires i < n <= |file| && Lists(list, file, i + 1, n, x, mark) && file[i].0 != x
    requires forall u: nat {:trigger mark + u in list'} :: u < MARK ==> (mark + u in list' <==> mark + u in list)
    ensures Lists(list', file, i, n, x, mark)
  {
    forall u: nat | u < MARK ensures mark + u in list' <==> (x, u) in file[i..n] {
      SliceGrows(file, i, n, (x, u));
      assert mark + u in list <==> (x, u) in file[i + 1..n];
    }
  }

  /** What one record does to the scan; None ends it. */
  datatype Scan = Scan(list: seq<nat>, atPrev: bool, prev: nat)

  function Visit(r: KV, k: nat, getPrev: bool, s: Scan): Option<Scan> {
    var list := if r.0 == k then s.list + [r.1] else s.list;
    if r.0 < k && !s.atPrev && !getPrev then None
    else
      var (atPrev, prev) := if r.0 < k && !s.atPrev then (true, r.0) else (s.atPrev, s.prev);
      var list' := if atPrev && r.0 == prev then list + [MARK + r.1] else list;
      if atPrev && r.0 < prev then None else Some(Scan(list', atPrev, prev))
  }

  lemma VisitSame(file: seq<KV>, k: nat, getPrev: bool, i: nat, n: nat, s: Scan)
    requires Strict(file) && i < n && Scanned(file, k, getPrev, i + 1, n, s.list, s.atPrev, s.prev)
    requires file[i].1 < MARK && file[i].0 >= k
    ensures Visit(file[i], k, getPrev, s).Some?
    ensures var s' := Visit(file[i], k, getPrev, s).value; Scanned(file, k, getPrev, i, n, s'.list, s'.atPrev, s'.prev)
  {
    if s.atPrev { SeenPrev(file, k, getPrev, i, n, s); }
    if file[i].0 == k {
      ListOne(s.list, file, i, n, k, 0);
    } else {
      ListSame(s.list, s.list, file, i, n, k, 0);
    }
  }

  lemma VisitFirstPrev(file: seq<KV>, k: nat, i: nat, n: nat, s: Scan)
    requires Strict(file) && i < n && Scanned(file, k, true, i + 1, n, s.list, s.atPrev, s.prev) && file[i].1 < MARK
    requires file[i].0 < k && !s.atPrev
    ensures Visit(file[i], k, true, s) == Some(Scan(s.list + [MARK + file[i].1], true, file[i].0))
    ensures Scanned(file, k, true, i, n, s.list + [MARK + file[i].1], true, file[i].0)
  {
    var x, t := file[i].0, file[i + 1..n];
    assert forall j {:trigger t[j]} :: 0 <= j < |t| ==> t[j] == file[i + 1 + j] && t[j].0 >= k;
    forall u: nat | u < MARK ensures MARK + u in s.list <==> (x, u) in t {}
    ListOne(s.list, file, i, n, x, MARK);
    ListSame(s.list, s.list + [MARK + file[i].1], file, i, n, k, 0);
    assert (x, file[i].1) in file[i..n] by { assert file[i..n][0] == file[i]; }
  }

  lemma VisitMorePrev(file: seq<KV>, k: nat, i: nat, n: nat, s: Scan)
    requires Strict(file) && i < n && Scanned(file, k, true, i + 1, n, s.list, s.atPrev, s.prev) && file[i].1 < MARK
    requires s.atPrev && file[i].0 == s.prev
    ensures Visit(file[i], k, true, s) == Some(s.(list := s.list + [MARK + file[i].1]))
    ensures Scanned(file, k, true, i, n, s.list + [MARK + file[i].1], true, s.prev)
  {
    ListOne(s.list, file, i, n, s.prev, MARK);
    ListSame(s.list, s.list + [MARK + file[i].1], file, i, n, k, 0);
    assert (s.prev, file[i].1) in file[i..n] by { assert file[i..n][0] == file[i]; }
  }

  /** A record that does not end the scan is accounted for. */
  lemma VisitKeeps(file: seq<KV>, k: nat, getPrev: bool, i: nat, n: nat, s: Scan)
    requires Strict(file) && i < n && Scanned(file, k, getPrev, i + 1, n, s.list, s.atPrev, s.prev) && file[i].1 < MARK
    ensures var r := Visit(file[i], k, getPrev, s);
            if r.Some? then Scanned(file, k, getPrev, i, n, r.value.list, r.value.atPrev, r.value.prev)
            else file[i].0 < k && (s.atPrev ==> file[i].0 < s.prev) && (!s.atPrev ==> !getPrev)
  {
    if file[i].0 >= k {
      VisitSame(file, k, getPrev, i, n, s);
    } else if !s.atPrev {
      if getPrev { VisitFirstPrev(file, k, i, n, s); }
    } else {
      SeenPrev(file, k, getPrev, i, n, s);
      if file[i].0 == s.prev { VisitMorePrev(file, k, i, n, s); }
    }
  }

  lemma SeenPrev(file: seq<KV>, k: nat, getPrev: bool, i: nat, n: nat, s: Scan)
    requires Strict(file) && i < n && Scanned(file, k, getPrev, i + 1, n, s.list, s.atPrev, s.prev) && s.atPrev
    ensures file[i].0 <= s.prev
  {
    var v: nat :| (s.prev, v) in file[i + 1..n];
    var j :| 0 <= j < |file[i + 1..n]| && file[i + 1..n][j] == (s.prev, v);
    KeysAscend(file, i, i + 1 + j);
  }

  // ---------------------------------------------------------------- the answer from the file

  /** All records of x are listed with the mark. */
  ghost predicate ListsAll(list: seq<nat>, file: seq<KV>, x: nat, mark: nat) {
    forall v: nat {:trigger (x, v) in file} :: v < MARK ==> (mark + v in list <==> (x, v) in file)
  }

  /** The values at k and, if asked for, at the file's largest smaller key, each once. */
  ghost predicate Answer(w: View, k: nat, getPrev: bool, f: Option<nat>, prev: nat, list: seq<nat>) {
    && NoRepeats(list) && ListsAll(list, w.file, k, 0)
    && (forall x {:trigger x in list} :: x in list ==> x < if getPrev && f.Some? then 2 * MARK else MARK)
    && (getPrev ==> FileAnswer(w, k, f) && (f.Some? ==> prev == f.value && ListsAll(list, w.file, f.value, MARK)))
    && (!getPrev || f.None? ==> prev == 0)
  }

  /** Records outside i..n do not matter for x. */
  lemma ListsRest(list: seq<nat>, file: seq<KV>, i: nat, n: nat, x: nat, mark: nat)
    requires i <= n <= |file| && Lists(list, file, i, n, x, mark)
    requires forall j {:trigger file[j]} :: 0 <= j < |file| && !(i <= j < n) ==> file[j].0 != x
    ensures ListsAll(list, file, x, mark)
  {
    var t := file[i..n];
    forall v: nat | v < MARK ensures mark + v in list <==> (x, v) in file {
      assert mark + v in list <==> (x, v) in t;
      if (x, v) in file {
        var j :| 0 <= j < |file| && file[j] == (x, v);
        assert t[j - i] == file[j];
      }
    }
  }

  /** The scan ended before record i, or with the file. */
  lemma ScanAnswers(w: View, k: nat, getPrev: bool, i: nat, n: nat, s: Scan)
    requires Ok(w) && Scanned(w.file, k, getPrev, i, n, s.list, s.atPrev, s.prev) && LargerFrom(w.file, n, k)
    requires i == 0 || (w.file[i - 1].0 < k && (s.atPrev ==> w.file[i - 1].0 < s.prev) && (!s.atPrev ==> !getPrev))
    ensures Answer(w, k, getPrev, if s.atPrev then Some(s.prev) else None, s.prev, s.list)
  {
    var file := w.file;
    forall j {:trigger file[j]} | 0 <= j < i ensures file[j].0 < k && (s.atPrev ==> file[j].0 < s.prev) {
      KeysAscend(file, j, i - 1);
    }
    ListsRest(s.list, file, i, n, k, 0);
    if s.atPrev {
      ListsRest(s.list, file, i, n, s.prev, MARK);
      var v: nat :| (s.prev, v) in file[i..n];
      assert (s.prev, v) in file && FileKey(w, s.prev);
    }
    if getPrev {
      forall y: nat | y < k && (s.atPrev ==> s.prev < y) ensures !FileKey(w, y) {
        forall v: nat ensures (y, v) !in file { NotThere(file, y, v); }
      }
    }
  }

  lemma NotThere(file: seq<KV>, y: nat, v: nat)
    requires forall j {:trigger file[j]} :: 0 <= j < |file| ==> file[j].0 != y
    ensures (y, v) !in file
  {
  }

  /** The scan has seen the records from i on. */
  ghost predicate Seen(w: View, k: nat, getPrev: bool, i: nat, n: nat, s: Scan) {
    && Ok(w) && n <= |w.file| && LargerFrom(w.file, n, k)
    && Scanned(w.file, k, getPrev, i, n, s.list, s.atPrev, s.prev)
  }

  /** Look at record i; None when it ends the scan. */
  method VisitOne(w: View, k: nat, getPrev: bool, i: nat, s: Scan, ghost n: nat) returns (next: Option<Scan>)
    requires i < n && Seen(w, k, getPrev, i + 1, n, s)
    ensures next.Some? ==> Seen(w, k, getPrev, i, n, next.value)
    ensures next.None? ==> Answer(w, k, getPrev, if s.atPrev then Some(s.prev) else None, s.prev, s.list)
  {
    assert w.file[i] in w.file;
    VisitKeeps(w.file, k, getPrev, i, n, s);
    next := Visit(w.file[i], k, getPrev, s);
    if next.None? { ScanAnswers(w, k, getPrev, i + 1, n, s); }
  }

  /** The inner loop: one page, from its last record backwards. True when nothing relevant is left. */
  method ScanPage(w: View, k: nat, getPrev: bool, page: nat, count: nat, s0: Scan, ghost n: nat)
    returns (done: bool, s: Scan)
    requires 32 * page + count <= n && Seen(w, k, getPrev, 32 * page + count, n, s0)
    ensures done ==> Answer(w, k, getPrev, if s.atPrev then Some(s.prev) else None, s.prev, s.list)
    ensures !done ==> Seen(w, k, getPrev, 32 * page, n, s)
  {
    var i := count;
    s := s0;
    while i > 0
      invariant 0 <= i <= count && Seen(w, k, getPrev, 32 * page + i, n, s)
    {
      var next := VisitOne(w, k, getPrev, 32 * page + i - 1, s, n);
      if next.None? { return true, s; }
      s := next.value;
      i := i - 1;
    }
    return false, s;
  }

  /** `get_from_file`; None is the panic for a key before the first record. */
  method GetFromFile(w: View, first64: seq<nat>, first32: seq<nat>, k: nat, getPrev: bool)
    returns (r: Option<(nat, seq<nat>)>, ghost f: Option<nat>)
    requires Ok(w) && Indexed(w.file, first64, first32)
    ensures r.None? <==> w.file == [] || w.file[0].0 > k
    ensures r.Some? ==> Answer(w, k, getPrev, f, r.value.0, r.value.1)
  {
    f := None;
    var id := FindPageId(w.file, first64, first32, k);
    if id.None? { return None, None; }
    var page := id.value;
    ghost var n := if 32 * page + 32 < |w.file| then 32 * page + 32 else |w.file|;
    var s := Scan([], false, 0);
    var count := if |w.file| - 32 * page < 32 then |w.file| - 32 * page else 32;
    var done := false;
    while true
      invariant 0 <= page && 0 <= count <= 32 && 32 * page + count <= n
      invariant Seen(w, k, getPrev, 32 * page + count, n, s)
      decreases page
    {
      done, s := ScanPage(w, k, getPrev, page, count, s, n);
      if done || page == 0 { break; }
      page := page - 1;
      count := 32;
    }
    if !done { ScanAnswers(w, k, getPrev, 0, n, s); }
    f := if s.atPrev then Some(s.prev) else None;
    return Some((s.prev, s.list)), f;
  }
}
