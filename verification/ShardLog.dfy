/** The per-shard update log: what `Updater` and `Compactor` do to the log of entries, the
    index, the compaction queue and the serial-number window, as a state machine on values. */
module ShardLog {
  import opened Basics

  // ---------------------------------------------------------------- key hashes

  /** A 32-byte key hash cut where the indexer cuts it: the 2-byte unit number, the bytes the
      unit keeps as its own key, and the bytes the index drops. Byte strings compare
      lexicographically, so the three big-endian pieces do too. */
  datatype KeyHash = KeyHash(unit: nat, k: nat, rest: nat)

  predicate Less(a: KeyHash, b: KeyHash) {
    a.unit < b.unit || (a.unit == b.unit && (a.k < b.k || (a.k == b.k && a.rest < b.rest)))
  }

  predicate Leq(a: KeyHash, b: KeyHash) { a == b || Less(a, b) }

  // ---------------------------------------------------------------- entries and records

  /** A key is its hash together with its length: distinct keys have distinct hashes. */
  datatype Key = Key(hash: KeyHash, len: nat)

  datatype Entry = Entry(key: Key, value: seq<nat>, next: KeyHash, version: int, sn: nat, dsns: seq<nat>)

  /** How many words of eight bytes the serialised entry takes; it is padded to whole words. */
  function EntryLen(e: Entry): (r: nat)
    ensures r > 0 && 8 * r == SerialisedLen(e.key.len, |e.value|, |e.dsns|)
  {
    SerialisedLen(e.key.len, |e.value|, |e.dsns|) / 8
  }

  /** An entry and the file position it was appended at. Positions count words of eight bytes, as the
      hybrid index stores them. */
  datatype Rec = Rec(pos: nat, e: Entry)

  /** What the indexer stores: the truncated hash and a file position. */
  datatype IndexKV = IndexKV(unit: nat, k: nat, pos: nat)

  datatype Job = Job(oldPos: nat, e: Entry)

  /** The key range of a shard: units `lo .. hi` and the hash that closes the last link. */
  datatype Range = Range(lo: nat, hi: nat, end: KeyHash)

  /** `held` says that the scanner found the entry under its cursor live and has not queued it yet. */
  datatype State = State(
    log: seq<Rec>, endPos: nat, index: set<IndexKV>,
    snStart: nat, snEnd: nat, compactDonePos: nat,
    queue: seq<Job>, cursor: nat, held: bool)

  predicate InRange(rg: Range, h: KeyHash) { rg.lo <= h.unit < rg.hi && Less(h, rg.end) }

  function SentryHash(u: nat): KeyHash { KeyHash(u, 0, 0) }

  function KV(r: Rec): IndexKV { IndexKV(r.e.key.hash.unit, r.e.key.hash.k, r.pos) }

  // ---------------------------------------------------------------- which entries are active

  ghost function Elems(s: seq<nat>): set<nat> { set x | x in s }

  /** The active serial numbers: an entry is active from its append until some later entry
      lists it. */
  ghost function Act(log: seq<Rec>): (a: set<nat>)
    ensures forall i :: i in a ==> i < |log|
  {
    if log == [] then {}
    else (Act(log[..|log| - 1]) + {|log| - 1}) - Elems(log[|log| - 1].e.dsns)
  }

  /** The list names active serial numbers only, each once. */
  ghost predicate DropsActive(act: set<nat>, dsns: seq<nat>) {
    && (forall d :: d in dsns ==> d in act)
    && (forall a, b :: 0 <= a < b < |dsns| ==> dsns[a] != dsns[b])
  }

  /** Every serial number an entry deactivates was active right before that entry. */
  ghost predicate DeactivatesActive(log: seq<Rec>) {
    log != [] ==>
      && DeactivatesActive(log[..|log| - 1])
      && DropsActive(Act(log[..|log| - 1]), log[|log| - 1].e.dsns)
  }

  lemma ActAppend(log: seq<Rec>, r: Rec)
    ensures Act(log + [r]) == (Act(log) + {|log|}) - Elems(r.e.dsns)
    ensures DeactivatesActive(log + [r]) <==> DeactivatesActive(log) && DropsActive(Act(log), r.e.dsns)
  {
    assert (log + [r])[..|log|] == log;
  }

  /** Once listed by some entry, a serial number is inactive for the rest of the log. */
  lemma {:induction false} ListedStaysInactive(log: seq<Rec>, j: nat, d: nat)
    requires DeactivatesActive(log)
    requires j < |log| && d in log[j].e.dsns
    ensures d < j && d !in Act(log)
    decreases |log|
  {
    var n := |log| - 1;
    if j < n {
      assert log[..n][j] == log[j];
      ListedStaysInactive(log[..n], j, d);
    }
  }

  /** No serial number is deactivated twice, within an entry or across entries. */
  lemma {:induction false} DeactivatedAtMostOnce(log: seq<Rec>, j1: nat, a1: nat, j2: nat, a2: nat)
    requires DeactivatesActive(log)
    requires j1 < |log| && j2 < |log| && a1 < |log[j1].e.dsns| && a2 < |log[j2].e.dsns|
    requires log[j1].e.dsns[a1] == log[j2].e.dsns[a2]
    ensures j1 == j2 && a1 == a2
    decreases |log|
  {
    var n := |log| - 1;
    if j1 < n && j2 < n {
      assert log[..n][j1] == log[j1] && log[..n][j2] == log[j2];
      DeactivatedAtMostOnce(log[..n], j1, a1, j2, a2);
    } else if j1 != j2 {
      var j := if j1 < n then j1 else j2;
      assert log[..n][j] == log[j];
      ListedStaysInactive(log[..n], j, log[j1].e.dsns[a1]);
    }
  }

  // ---------------------------------------------------------------- the invariant

  /** The active entries, ordered by key hash, form one linked list that ends at the shard's
      upper bound, and every unit still has its sentry. */
  ghost predicate Linked(log: seq<Rec>, act: set<nat>, rg: Range)
    requires forall i :: i in act ==> i < |log|
  {
    && (forall i {:trigger Placeable(log, rg, i)} :: i in act ==> Placeable(log, rg, i))
    && (forall i, j {:trigger Before(log, i, j)} ::
          i in act && j in act && i != j ==> Before(log, i, j) || Before(log, j, i))
    && (forall i {:trigger Resolves(log, act, rg, i)} :: i in act ==> Resolves(log, act, rg, i))
    && (forall u {:trigger SentryHash(u)} :: rg.lo <= u < rg.hi ==> ActiveHash(log, act, SentryHash(u)))
  }

  /** Entry i is in the shard's range and links forward. */
  ghost predicate Placeable(log: seq<Rec>, rg: Range, i: nat)
    requires i < |log|
  {
    && InRange(rg, log[i].e.key.hash)
    && Less(log[i].e.key.hash, log[i].e.next) && Leq(log[i].e.next, rg.end)
  }

  /** Entry i and the gap behind it lie below entry j. */
  ghost predicate Before(log: seq<Rec>, i: nat, j: nat)
    requires i < |log| && j < |log|
  {
    Less(log[i].e.key.hash, log[j].e.key.hash) && Leq(log[i].e.next, log[j].e.key.hash)
  }

  /** The link of entry i leads to an active entry or closes the list. */
  ghost predicate Resolves(log: seq<Rec>, act: set<nat>, rg: Range, i: nat)
    requires i in act && forall j :: j in act ==> j < |log|
  {
    log[i].e.next == rg.end || ActiveHash(log, act, log[i].e.next)
  }

  ghost predicate ActiveHash(log: seq<Rec>, act: set<nat>, h: KeyHash)
    requires forall i :: i in act ==> i < |log|
  {
    exists i :: i in act && log[i].e.key.hash == h
  }

  /** The index holds exactly the (truncated hash, position) pairs of the active entries. */
  ghost predicate Indexed(log: seq<Rec>, act: set<nat>, index: set<IndexKV>)
    requires forall i :: i in act ==> i < |log|
  {
    && (forall i {:trigger KV(log[i])} :: i in act ==> KV(log[i]) in index)
    && (forall kv {:trigger Owned(log, act, kv)} :: kv in index ==> Owned(log, act, kv))
  }

  ghost predicate Owned(log: seq<Rec>, act: set<nat>, kv: IndexKV)
    requires forall i :: i in act ==> i < |log|
  {
    exists i :: i in act && KV(log[i]) == kv
  }

  /** Entry i has serial number i, and the entries fill the file without gaps. */
  ghost predicate Placed(log: seq<Rec>, endPos: nat) {
    && (forall i :: 0 <= i < |log| ==> log[i].e.sn == i)
    && (forall i, j {:trigger Apart(log, i, j)} :: 0 <= i < j < |log| ==> Apart(log, i, j))
    && (forall n {:trigger PosOf(log, endPos, n)} ::
          0 < n <= |log| ==> PosOf(log, endPos, n) == log[n - 1].pos + EntryLen(log[n - 1].e))
  }

  /** Entry i ends before entry j starts. */
  ghost predicate Apart(log: seq<Rec>, i: nat, j: nat)
    requires i < |log| && j < |log|
  {
    log[i].pos + EntryLen(log[i].e) <= log[j].pos
  }

  /** Where the entry with serial number n is, or will be. */
  function PosOf(log: seq<Rec>, endPos: nat, n: nat): nat {
    if n < |log| then log[n].pos else endPos
  }

  /** The compaction pipeline: jobs are copies of scanned entries in scan order, and every
      active entry the scanner has passed is still queued. */
  ghost predicate Pipelined(log: seq<Rec>, queue: seq<Job>, cursor: nat, snStart: nat) {
    && snStart <= cursor <= |log|
    && (forall q :: 0 <= q < |queue| ==>
          && snStart <= queue[q].e.sn < cursor
          && queue[q] == Job(log[queue[q].e.sn].pos, log[queue[q].e.sn].e))
    && (forall p, q :: 0 <= p < q < |queue| ==> queue[p].e.sn < queue[q].e.sn)
    && (forall i {:trigger Queued(queue, i)} :: i in Act(log) && i < cursor ==> Queued(queue, i))
  }

  ghost predicate Queued(queue: seq<Job>, i: nat) { exists q :: 0 <= q < |queue| && queue[q].e.sn == i }

  /** Log and index. */
  ghost predicate LogInv(s: State, rg: Range) {
    && s.snEnd == |s.log|
    && Placed(s.log, s.endPos)
    && DeactivatesActive(s.log)
    && Linked(s.log, Act(s.log), rg)
    && Indexed(s.log, Act(s.log), s.index)
  }

  /** What holds between any two steps of the updater and the scanner. */
  ghost predicate Inv(s: State, rg: Range) {
    && LogInv(s, rg)
    && Pipelined(s.log, s.queue, s.cursor, s.snStart)
    && (s.held ==> s.cursor < |s.log|)
    && s.compactDonePos == PosOf(s.log, s.endPos, s.snStart)
  }

  // ---------------------------------------------------------------- the operations

  /** Append one entry at the end of the file. */
  function Append(s: State, e: Entry): State {
    s.(log := s.log + [Rec(s.endPos, e)], endPos := s.endPos + EntryLen(e), snEnd := s.snEnd + 1)
  }

  function ChangeKV(index: set<IndexKV>, u: nat, k: nat, oldPos: nat, newPos: nat): set<IndexKV> {
    index - {IndexKV(u, k, oldPos)} + {IndexKV(u, k, newPos)}
  }

  /** The answers of `for_each_value`: positions stored under exactly this truncated hash. */
  predicate Hit(index: set<IndexKV>, h: KeyHash, kv: IndexKV) {
    kv in index && kv.unit == h.unit && kv.k == h.k
  }

  /** The answers of `for_each_adjacent_value`: the hits, and all positions stored under the
      largest smaller key of the same unit. */
  ghost predicate Adjacent(index: set<IndexKV>, h: KeyHash, kv: IndexKV) {
    && kv in index && kv.unit == h.unit
    && (kv.k == h.k ||
        (kv.k < h.k && forall o :: o in index && o.unit == h.unit && o.k < h.k ==> o.k <= kv.k))
  }

  /** Log record i is the one the write loop settles on. */
  ghost predicate IsTarget(s: State, key: Key, i: nat) {
    i < |s.log| && Hit(s.index, key.hash, KV(s.log[i])) && s.log[i].e.key == key
  }

  /** Log record i is the predecessor the create loop settles on. */
  ghost predicate IsGap(s: State, h: KeyHash, i: nat) {
    && i < |s.log| && Adjacent(s.index, h, KV(s.log[i]))
    && Less(s.log[i].e.key.hash, h) && Less(h, s.log[i].e.next)
  }

  /** Log record i is the deleted entry, or the predecessor, the delete loop settles on. */
  ghost predicate IsVictim(s: State, key: Key, i: nat) {
    i < |s.log| && Adjacent(s.index, key.hash, KV(s.log[i])) && s.log[i].e.key == key
  }

  ghost predicate IsPrev(s: State, key: Key, i: nat) {
    i < |s.log| && Adjacent(s.index, key.hash, KV(s.log[i])) && s.log[i].e.next == key.hash && s.log[i].e.key != key
  }

  /** Rewrite entry i at the end of the log, with a new value and version. */
  function Rewrite(s: State, i: nat, value: seq<nat>, version: int): State
    requires i < |s.log|
  {
    var o := s.log[i].e;
    Append(s, Entry(o.key, value, o.next, version, s.snEnd, [o.sn]))
      .(index := ChangeKV(s.index, o.key.hash.unit, o.key.hash.k, s.log[i].pos, s.endPos))
  }

  /** What `create_kv` does once `old_pos` names record p, with record b in the read buffer: both
      new entries are built from the buffer, the index is changed where p was. */
  function CreateFrom(s: State, p: nat, b: nat, key: Key, value: seq<nat>, version: int): State
    requires p < |s.log| && b < |s.log|
  {
    var o := s.log[b].e;
    var s1 := Append(s, Entry(key, value, o.next, version, s.snEnd, []));
    var s2 := Append(s1, Entry(o.key, o.value, key.hash, version, s.snEnd + 1, [o.sn]));
    s2.(index := ChangeKV(s.index + {IndexKV(key.hash.unit, key.hash.k, s.endPos)},
                          s.log[p].e.key.hash.unit, s.log[p].e.key.hash.k, s.log[p].pos, s1.endPos))
  }

  /** The insertion behind record p. */
  function CreateAt(s: State, p: nat, key: Key, value: seq<nat>, version: int): State
    requires p < |s.log|
  {
    CreateFrom(s, p, p, key, value, version)
  }

  function DeleteAt(s: State, d: nat, p: nat, version: int): State
    requires d < |s.log| && p < |s.log|
  {
    var (v, o) := (s.log[d].e, s.log[p].e);
    Append(s, Entry(o.key, o.value, v.next, version, s.snEnd, [v.sn, o.sn]))
      .(index := ChangeKV(s.index - {KV(s.log[d])}, o.key.hash.unit, o.key.hash.k, s.log[p].pos, s.endPos))
  }

  /** `write_kv`, without the compaction that may follow it; None is the panic. */
  ghost function Write(s: State, key: Key, value: seq<nat>, version: int): Option<State> {
    if i: nat :| IsTarget(s, key, i) then Some(Rewrite(s, i, value, version)) else None
  }

  /** `create_kv`, without the compactions that may follow it. */
  ghost function Create(s: State, key: Key, value: seq<nat>, version: int): Option<State> {
    if p: nat :| IsGap(s, key.hash, p) then Some(CreateAt(s, p, key, value, version)) else None
  }

  /** `delete_kv`. */
  ghost function Delete(s: State, key: Key, version: int): Option<State> {
    if d: nat, p: nat :| IsVictim(s, key, d) && IsPrev(s, key, p)
    then Some(DeleteAt(s, d, p, version)) else None
  }

  /** The indexer's `key_exists` as both the scanner and the updater call it. */
  predicate JobLive(s: State, j: Job) {
    IndexKV(j.e.key.hash.unit, j.e.key.hash.k, j.oldPos) in s.index
  }

  /** One turn of the loop in `compact`: take a job, drop it if it is stale, else move its
      entry to the end and advance the window. An empty queue blocks, so nothing changes. */
  function Consume(s: State): State {
    if s.queue == [] then s
    else
      var j := s.queue[0];
      var t := s.(queue := s.queue[1..]);
      if !JobLive(s, j) then t
      else
        Append(t, Entry(j.e.key, j.e.value, j.e.next, j.e.version, s.snEnd, [j.e.sn]))
          .(index := ChangeKV(s.index, j.e.key.hash.unit, j.e.key.hash.k, j.oldPos, s.endPos),
            snStart := j.e.sn + 1, compactDonePos := j.oldPos + EntryLen(j.e))
  }

  /** The scanner reads the entry under its cursor and tests it: a live one it holds, a dead one
      it passes. Past the end of the log it waits. */
  function Look(s: State): State {
    if s.held || s.cursor >= |s.log| then s
    else if JobLive(s, Job(s.log[s.cursor].pos, s.log[s.cursor].e)) then s.(held := true)
    else s.(cursor := s.cursor + 1)
  }

  /** The scanner queues the entry it holds, live or, by now, not, and moves on. */
  function Produce(s: State): State {
    if !s.held || s.cursor >= |s.log| then s
    else
      s.(cursor := s.cursor + 1, held := false,
         queue := s.queue + [Job(s.log[s.cursor].pos, s.log[s.cursor].e)])
  }
}
