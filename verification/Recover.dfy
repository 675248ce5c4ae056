/** Replaying the entry log after a restart against the run that wrote it. */
module Recover {
  import opened Basics
  import opened Merkle
  import opened Twig
  import ActiveBits
  import UpperTree
  import ShardLog

  /** A serialised entry: its serial number, its hash, its length and the numbers it deactivates. */
  datatype LogEntry = LogEntry(sn: nat, hash: Digest, len: nat, dsns: seq<nat>)

  /** Entries are numbered in order, take space, and name numbers of twigs that exist by then. */
  ghost predicate WellFormed(log: seq<LogEntry>) {
    forall i {:trigger WellFormedAt(log[i], i)} :: 0 <= i < |log| ==> WellFormedAt(log[i], i)
  }
  ghost predicate WellFormedAt(e: LogEntry, i: nat) {
    e.sn == i && e.len > 0 && forall k :: 0 <= k < |e.dsns| ==> e.dsns[k] / 2048 <= i / 2048
  }

  // ---------------------------------------------------------------- what the two runs compute

  /** The bit of s after n entries, each activated and then applying its own deactivations. */
  ghost predicate LiveBit(log: seq<LogEntry>, n: nat, s: nat)
    requires n <= |log|
  {
    n > 0 && s !in log[n - 1].dsns && (s == n - 1 || LiveBit(log, n - 1, s))
  }

  /** The bit of s when entries from `start` on first apply their deactivations. */
  ghost predicate ReplayBit(log: seq<LogEntry>, start: nat, n: nat, s: nat)
    requires n <= |log|
  {
    n > start && (s == n - 1 || (s !in log[n - 1].dsns && ReplayBit(log, start, n - 1, s)))
  }

  lemma LiveStep(log: seq<LogEntry>, n: nat)
    requires n < |log|
    ensures forall s: nat :: LiveBit(log, n + 1, s) <==> s !in log[n].dsns && (s == n || LiveBit(log, n, s))
  {
  }

  /** Some entry after s names it. */
  ghost predicate Dropped(log: seq<LogEntry>, n: nat, s: nat)
    requires n <= |log|
  {
    exists j :: s < j < n && s in log[j].dsns
  }

  lemma {:induction false} NotYetLive(log: seq<LogEntry>, n: nat, s: nat)
    requires n <= |log| && n <= s
    ensures !LiveBit(log, n, s)
  {
    if n > 0 { NotYetLive(log, n - 1, s); }
  }

  lemma {:induction false} LiveMeaning(log: seq<LogEntry>, n: nat, s: nat)
    requires n <= |log|
    ensures LiveBit(log, n, s) <==> s < n && s !in log[s].dsns && !Dropped(log, n, s)
  {
    if n <= s {
      NotYetLive(log, n, s);
    } else if n > s + 1 {
      LiveMeaning(log, n - 1, s);
      DroppedStep(log, n, s);
    } else {
      assert !Dropped(log, n, s);
    }
  }

  lemma DroppedStep(log: seq<LogEntry>, n: nat, s: nat)
    requires s + 1 < n <= |log|
    ensures Dropped(log, n, s) <==> s in log[n - 1].dsns || Dropped(log, n - 1, s)
  {
  }

  lemma {:induction false} NotYetReplayed(log: seq<LogEntry>, start: nat, n: nat, s: nat)
    requires n <= |log| && n <= s
    ensures !ReplayBit(log, start, n, s)
  {
    if n > 0 { NotYetReplayed(log, start, n - 1, s); }
  }

  lemma {:induction false} ReplayMeaning(log: seq<LogEntry>, start: nat, n: nat, s: nat)
    requires n <= |log| && start <= s
    ensures ReplayBit(log, start, n, s) <==> s < n && !Dropped(log, n, s)
  {
    if n <= s {
      NotYetReplayed(log, start, n, s);
    } else if n > s + 1 {
      ReplayMeaning(log, start, n - 1, s);
      DroppedStep(log, n, s);
    } else {
      assert !Dropped(log, n, s);
    }
  }

  /** From `start` on, replaying rebuilds the bit of s unless the entry named itself and nothing
      dropped it afterwards. */
  lemma ReplayAgreesIff(log: seq<LogEntry>, start: nat, s: nat)
    requires start <= s < |log|
    ensures ReplayBit(log, start, |log|, s) == LiveBit(log, |log|, s) <==> (s in log[s].dsns ==> Dropped(log, |log|, s))
  {
    LiveMeaning(log, |log|, s);
    ReplayMeaning(log, start, |log|, s);
  }

  /** A single entry that names itself: inactive in the live run, active after the replay. */
  lemma SelfNamedDiffers()
    ensures var log := [LogEntry(0, Raw([]), 88, [0])];
            WellFormed(log) && !LiveBit(log, 1, 0) && ReplayBit(log, 0, 1, 0)
  {
    var log := [LogEntry(0, Raw([]), 88, [0])];
    assert log[0].dsns[0] == 0;
  }

  // ---------------------------------------------------------------- logs that the updater writes

  /** The entries name the numbers that the updater made them name. */
  ghost predicate SameDrops(log: seq<LogEntry>, written: seq<ShardLog.Rec>) {
    |log| == |written| && forall i {:trigger log[i]} :: 0 <= i < |log| ==> log[i].dsns == written[i].e.dsns
  }

  lemma {:induction false} LiveIsActive(log: seq<LogEntry>, written: seq<ShardLog.Rec>, n: nat, s: nat)
    requires SameDrops(log, written) && n <= |log|
    ensures LiveBit(log, n, s) <==> s in ShardLog.Act(written[..n])
  {
    if n > 0 {
      LiveIsActive(log, written, n - 1, s);
      assert written[..n][..n - 1] == written[..n - 1];
    }
  }

  /** An entry of the updater only names older numbers, which were active, so the live bits and the
      replayed bits are the active numbers of its log. */
  lemma UpdaterLogReplays(log: seq<LogEntry>, written: seq<ShardLog.Rec>, start: nat, s: nat)
    requires SameDrops(log, written) && ShardLog.DeactivatesActive(written) && start <= s < |log|
    ensures s !in log[s].dsns
    ensures LiveBit(log, |log|, s) <==> s in ShardLog.Act(written)
    ensures ReplayBit(log, start, |log|, s) <==> s in ShardLog.Act(written)
  {
    if s in log[s].dsns { ShardLog.ListedStaysInactive(written, s, s); }
    LiveIsActive(log, written, |log|, s);
    assert written[..|log|] == written;
    ReplayAgreesIff(log, start, s);
  }

  // ---------------------------------------------------------------- the youngest twig's tree

  /** A twig tree together with the range of leaves changed since its last sync. */
  ghost predicate Dirty(m: seq<Digest>, start: int, end: int) {
    && |m| == 4096
    && if start == -1 then Right(m)
       else 0 <= start <= end < 2048 && SyncedFrom(m, m[2048..], start, end, 2048)
  }

  ghost predicate Right(m: seq<Digest>)
    requires |m| == 4096
  {
    forall i {:trigger Is(m, m[2048..], i)} :: 1 <= i < 4096 ==> Is(m, m[2048..], i)
  }

  /** Recording each appended leaf as the new end keeps the range sufficient for the next sync. */
  lemma LeafAppended(m: seq<Digest>, start: int, end: int, p: nat, h: Digest)
    requires Dirty(m, start, end) && p < 2048 && (start == -1 || end <= p)
    ensures Dirty(m[2048 + p := h], if start == -1 then p else start, p)
  {
    var m' := m[2048 + p := h];
    var (o, n) := (m[2048..], m'[2048..]);
    var a := if start == -1 then p else start;
    assert n == o[p := h];
    forall i | 1 <= i < 4096 ensures Is(m', n, i) || (i < 2048 && Touched(a, p, i)) {
      if i < 2048 && !Touched(a, p, i) {
        if start != -1 { TouchedMore(start, end, p, i); }
        assert Is(m, o, i);
        assert Is(m', n, i) by { UntouchedKeeps(o, n, a, p, i); }
      }
    }
  }

  lemma TouchedMore(start: nat, end: nat, end': nat, i: nat)
    requires end <= end'
    ensures Touched(start, end, i) ==> Touched(start, end', i)
  {
    if BitLen(i) <= 12 { ShrMonotone(2048 + end, 2048 + end', 12 - BitLen(i)); }
  }

  /** d is the root of the tree over these leaves. */
  ghost predicate IsRoot(d: Digest, leaves: seq<Digest>) {
    exists m: seq<Digest> :: |m| == 4096 && Right(m) && m[2048..] == leaves && m[1] == d
  }

  lemma RootUnique(c: Digest, d: Digest, leaves: seq<Digest>)
    requires IsRoot(c, leaves) && IsRoot(d, leaves)
    ensures c == d
  {
    var m: seq<Digest> :| |m| == 4096 && Right(m) && m[2048..] == leaves && m[1] == c;
    var m': seq<Digest> :| |m'| == 4096 && Right(m') && m'[2048..] == leaves && m'[1] == d;
    SameAt(m, m', 1);
  }

  lemma SameAt(m: seq<Digest>, m': seq<Digest>, i: nat)
    requires |m| == |m'| == 4096 && Right(m) && Right(m') && m[2048..] == m'[2048..] && 1 <= i < 4096
    ensures m[i] == m'[i]
  {
    assert Is(m, m[2048..], i) && Is(m', m'[2048..], i);
  }

  /** The leaves of twig t once the first n entries are in. */
  ghost function LeavesOf(log: seq<LogEntry>, n: nat, nullLeaves: seq<Digest>, t: nat): (r: seq<Digest>)
    requires n <= |log| && |nullLeaves| == 2048
    ensures |r| == 2048
  {
    seq(2048, o requires 0 <= o < 2048 => if t * 2048 + o < n then log[t * 2048 + o].hash else nullLeaves[o])
  }

  /** Leaf sn % 2048 of twig sn / 2048 is the hash of entry sn. */
  lemma LeafOfEntry(log: seq<LogEntry>, n: nat, nullLeaves: seq<Digest>, sn: nat)
    requires sn < n <= |log| && |nullLeaves| == 2048
    ensures LeavesOf(log, n, nullLeaves, sn / 2048)[sn % 2048] == log[sn].hash
  {
    assert sn / 2048 * 2048 + sn % 2048 == sn;
  }

  lemma LeavesStep(log: seq<LogEntry>, n: nat, nullLeaves: seq<Digest>, t: nat)
    requires n < |log| && |nullLeaves| == 2048
    ensures LeavesOf(log, n + 1, nullLeaves, t)
            == if t == n / 2048 then LeavesOf(log, n, nullLeaves, t)[n % 2048 := log[n].hash]
                else LeavesOf(log, n, nullLeaves, t)
  {
  }

  lemma LeavesBefore(log: seq<LogEntry>, n: nat, nullLeaves: seq<Digest>)
    requires n < |log| && |nullLeaves| == 2048
    ensures forall t :: 0 <= t < n / 2048 ==> LeavesOf(log, n + 1, nullLeaves, t) == LeavesOf(log, n, nullLeaves, t)
  {
    forall t | 0 <= t < n / 2048 ensures LeavesOf(log, n + 1, nullLeaves, t) == LeavesOf(log, n, nullLeaves, t) {
      LeavesStep(log, n, nullLeaves, t);
    }
  }

  lemma NoLeavesYet(log: seq<LogEntry>, n: nat, nullLeaves: seq<Digest>, t: nat)
    requires n <= |log| && |nullLeaves| == 2048 && n <= t * 2048
    ensures LeavesOf(log, n, nullLeaves, t) == nullLeaves
  {
  }

  lemma NextTwig(n: nat)
    ensures if n % 2048 == 2047 then (n + 1) / 2048 == n / 2048 + 1 && (n + 1) % 2048 == 0
            else (n + 1) / 2048 == n / 2048 && (n + 1) % 2048 == n % 2048 + 1
  {
  }

  /** An empty twig shows no active bit. */
  lemma NewTwigSilent(a: map<nat, Bits>, b: map<nat, Bits>, t: nat)
    requires t !in a && b == a[t := NoBits()]
    ensures forall s: nat {:trigger BitIn(b, s)} :: BitIn(a, s) == BitIn(b, s)
  {
  }

  // ---------------------------------------------------------------- touched blocks

  type Bits = ActiveBits.Bits

  function NoBits(): Bits { seq(2048, _ => false) }

  /** The bits of twig t at the last sync; a twig that did not exist had none. */
  function Was(synced: map<nat, Bits>, t: nat): Bits { if t in synced then synced[t] else NoBits() }

  /** Since the last sync only touched 512-bit blocks have changed. */
  ghost predicate TrackedBits(synced: map<nat, Bits>, bits: map<nat, Bits>, touched: set<nat>) {
    && synced.Keys <= bits.Keys
    && (forall b {:trigger b in touched} :: b in touched ==> b / 4 in bits)
    && forall t {:trigger bits[t]} :: t in bits ==> ActiveBits.OnlyTouched(Was(synced, t), bits[t], t, touched)
  }

  function SetBit(bits: map<nat, Bits>, sn: nat, active: bool): map<nat, Bits>
    requires sn / 2048 in bits
  {
    bits[sn / 2048 := bits[sn / 2048][sn % 2048 := active]]
  }

  /** A block without the changed bit is unchanged. */
  lemma BlockKept(a: Bits, b: Bits, sn: nat, active: bool, q: nat)
    requires b == a[sn % 2048 := active] && q < 4 && 4 * (sn / 2048) + q != sn / 512
    ensures a[512 * q..512 * q + 512] == b[512 * q..512 * q + 512]
  {
    assert !(512 * q <= sn % 2048 < 512 * q + 512);
  }

  lemma BitInBlock(was: Bits, a: Bits, b: Bits, sn: nat, active: bool, touched: set<nat>)
    requires ActiveBits.OnlyTouched(was, a, sn / 2048, touched) && b == a[sn % 2048 := active]
    ensures ActiveBits.OnlyTouched(was, b, sn / 2048, touched + {sn / 512})
  {
    var t := sn / 2048;
    forall q | 0 <= q < 4 && 4 * t + q !in touched + {sn / 512}
      ensures was[512 * q..512 * q + 512] == b[512 * q..512 * q + 512]
    {
      BlockKept(a, b, sn, active, q);
    }
  }

  lemma MoreTouched(was: Bits, a: Bits, t: nat, touched: set<nat>, more: set<nat>)
    requires ActiveBits.OnlyTouched(was, a, t, touched)
    ensures ActiveBits.OnlyTouched(was, a, t, touched + more)
  {
  }

  lemma BitTracked(synced: map<nat, Bits>, bits: map<nat, Bits>, touched: set<nat>, sn: nat, active: bool)
    requires TrackedBits(synced, bits, touched) && sn / 2048 in bits
    ensures TrackedBits(synced, SetBit(bits, sn, active), touched + {sn / 512})
  {
    var bits' := SetBit(bits, sn, active);
    assert sn / 512 / 4 == sn / 2048;
    forall u | u in bits' ensures ActiveBits.OnlyTouched(Was(synced, u), bits'[u], u, touched + {sn / 512}) {
      if u == sn / 2048 {
        BitInBlock(Was(synced, u), bits[u], bits'[u], sn, active, touched);
      } else {
        assert bits'[u] == bits[u];
        MoreTouched(Was(synced, u), bits[u], u, touched, {sn / 512});
      }
    }
  }

  lemma TwigTracked(synced: map<nat, Bits>, bits: map<nat, Bits>, touched: set<nat>, t: nat)
    requires TrackedBits(synced, bits, touched) && t !in bits
    ensures TrackedBits(synced, bits[t := NoBits()], touched)
  {
  }

  lemma TouchTracked(synced: map<nat, Bits>, bits: map<nat, Bits>, touched: set<nat>, b: nat)
    requires TrackedBits(synced, bits, touched) && b / 4 in bits
    ensures TrackedBits(synced, bits, touched + {b})
  {
    forall t | t in bits ensures ActiveBits.OnlyTouched(Was(synced, t), bits[t], t, touched + {b}) {
      MoreTouched(Was(synced, t), bits[t], t, touched, {b});
    }
  }

  /** Appending an entry sets its bit; the last one of a twig also starts the next twig. */
  function Activated(bits: map<nat, Bits>, sn: nat): map<nat, Bits>
    requires sn / 2048 in bits
  {
    Started(SetBit(bits, sn, true), sn)
  }
  function Started(bits: map<nat, Bits>, sn: nat): map<nat, Bits> {
    if sn % 2048 == 2047 then bits[sn / 2048 + 1 := NoBits()] else bits
  }

  /** The blocks that appending touches: that of the entry, and the first one of a new twig. */
  function AppendTouches(sn: nat): set<nat> {
    {sn / 512} + if sn % 2048 == 2047 then {4 * (sn / 2048 + 1)} else {}
  }

  /** New twigs are touched. */
  ghost predicate AnnouncedBits(synced: map<nat, Bits>, bits: map<nat, Bits>, touched: set<nat>) {
    forall t {:trigger bits[t]} :: t in bits && t !in synced ==> 4 * t in touched
  }

  lemma AppendTracked(synced: map<nat, Bits>, bits: map<nat, Bits>, touched: set<nat>, sn: nat)
    requires TrackedBits(synced, bits, touched) && sn / 2048 in bits && (sn % 2048 == 2047 ==> sn / 2048 + 1 !in bits)
    ensures TrackedBits(synced, Activated(bits, sn), touched + AppendTouches(sn))
    ensures AnnouncedBits(synced, bits, touched) ==>
              AnnouncedBits(synced, Activated(bits, sn), touched + AppendTouches(sn))
  {
    var bits' := SetBit(bits, sn, true);
    BitTracked(synced, bits, touched, sn, true);
    if sn % 2048 == 2047 {
      var t := sn / 2048 + 1;
      TwigTracked(synced, bits', touched + {sn / 512}, t);
      TouchTracked(synced, bits'[t := NoBits()], touched + {sn / 512}, 4 * t);
      assert touched + AppendTouches(sn) == touched + {sn / 512} + {4 * t};
    } else {
      assert touched + AppendTouches(sn) == touched + {sn / 512};
    }
  }

  ghost predicate Clearable(bits: map<nat, Bits>, dsns: seq<nat>, from: nat) {
    forall k :: 0 <= k < |dsns| ==> dsns[k] / 2048 < from || dsns[k] / 2048 in bits
  }

  lemma FirstBlock(n: nat)
    ensures n % 2048 == 2047 ==> (n + 1) / 512 == 4 * (n / 2048 + 1)
  {
  }

  /** Clearing the bits of the listed numbers of twigs from `from` on. */
  function Cleared(bits: map<nat, Bits>, dsns: seq<nat>, from: nat): (r: map<nat, Bits>)
    requires Clearable(bits, dsns, from)
    ensures r.Keys == bits.Keys
  {
    if dsns == [] then bits
    else
      var r := Cleared(bits, dsns[..|dsns| - 1], from);
      var sn := dsns[|dsns| - 1];
      if sn / 2048 < from then r else SetBit(r, sn, false)
  }

  function ClearTouches(dsns: seq<nat>, from: nat): set<nat> {
    if dsns == [] then {}
    else
      var sn := dsns[|dsns| - 1];
      ClearTouches(dsns[..|dsns| - 1], from) + if sn / 2048 < from then {} else {sn / 512}
  }

  lemma {:induction false} ClearTracked(synced: map<nat, Bits>, bits: map<nat, Bits>, touched: set<nat>,
                                        dsns: seq<nat>, from: nat)
    requires Clearable(bits, dsns, from)
    requires TrackedBits(synced, bits, touched)
    ensures TrackedBits(synced, Cleared(bits, dsns, from), touched + ClearTouches(dsns, from))
    ensures AnnouncedBits(synced, bits, touched) ==>
              AnnouncedBits(synced, Cleared(bits, dsns, from), touched + ClearTouches(dsns, from))
    decreases |dsns|
  {
    if dsns == [] {
      assert touched + ClearTouches(dsns, from) == touched;
    } else {
      var (init, sn) := (dsns[..|dsns| - 1], dsns[|dsns| - 1]);
      ClearTracked(synced, bits, touched, init, from);
      var all := touched + ClearTouches(init, from);
      if sn / 2048 >= from {
        BitTracked(synced, Cleared(bits, init, from), all, sn, false);
        assert touched + ClearTouches(dsns, from) == all + {sn / 512};
      } else {
        assert touched + ClearTouches(dsns, from) == all;
      }
    }
  }

  /** Replaying an entry: clear, set, and possibly start a twig. */
  lemma RecoverTracked(synced: map<nat, Bits>, bits: map<nat, Bits>, touched: set<nat>, dsns: seq<nat>, from: nat,
                       n: nat)
    requires TrackedBits(synced, bits, touched) && Clearable(bits, dsns, from)
    requires n / 2048 in bits && (n % 2048 == 2047 ==> n / 2048 + 1 !in bits)
    ensures TrackedBits(synced, Activated(Cleared(bits, dsns, from), n), touched + ClearTouches(dsns, from) + {n / 512})
  {
    ClearTracked(synced, bits, touched, dsns, from);
    var (b, t) := (Cleared(bits, dsns, from), touched + ClearTouches(dsns, from));
    BitTracked(synced, b, t, n, true);
    if n % 2048 == 2047 { TwigTracked(synced, SetBit(b, n, true), t + {n / 512}, n / 2048 + 1); }
  }

  predicate BitIn(bits: map<nat, Bits>, s: nat) { s / 2048 in bits && bits[s / 2048][s % 2048] }

  lemma SetBitMeans(bits: map<nat, Bits>, sn: nat, active: bool)
    requires sn / 2048 in bits
    ensures forall s: nat {:trigger BitIn(SetBit(bits, sn, active), s)} ::
              BitIn(SetBit(bits, sn, active), s) <==> if s == sn then active else BitIn(bits, s)
  {
  }

  lemma ActivatedMeans(bits: map<nat, Bits>, sn: nat)
    requires sn / 2048 in bits && (sn % 2048 == 2047 ==> sn / 2048 + 1 !in bits)
    ensures forall s: nat {:trigger BitIn(Activated(bits, sn), s)} ::
              BitIn(Activated(bits, sn), s) <==> s == sn || BitIn(bits, s)
  {
    SetBitMeans(bits, sn, true);
    if sn % 2048 == 2047 { NewTwigSilent(SetBit(bits, sn, true), Activated(bits, sn), sn / 2048 + 1); }
    forall s: nat ensures BitIn(Activated(bits, sn), s) <==> s == sn || BitIn(bits, s) {
      assert BitIn(SetBit(bits, sn, true), s) <==> s == sn || BitIn(bits, s);
    }
  }

  lemma {:induction false} ClearedMeans(bits: map<nat, Bits>, dsns: seq<nat>, from: nat)
    requires Clearable(bits, dsns, from)
    ensures forall s: nat {:trigger BitIn(Cleared(bits, dsns, from), s)} ::
              BitIn(Cleared(bits, dsns, from), s) <==> BitIn(bits, s) && !(s in dsns && s / 2048 >= from)
    decreases |dsns|
  {
    if dsns != [] {
      var (init, sn) := (dsns[..|dsns| - 1], dsns[|dsns| - 1]);
      ClearedMeans(bits, init, from);
      if sn / 2048 >= from { SetBitMeans(Cleared(bits, init, from), sn, false); }
      forall s: nat
        ensures BitIn(Cleared(bits, dsns, from), s) <==> BitIn(bits, s) && !(s in dsns && s / 2048 >= from)
      {
        assert dsns == init + [sn];
        assert BitIn(Cleared(bits, init, from), s) <==> BitIn(bits, s) && !(s in init && s / 2048 >= from);
      }
    }
  }

  /** A twig after the sync: right for its bits, and closed if it was touched, else unchanged. */
  ghost predicate SyncedTwig(was: ActiveBits.TwigData, tw: ActiveBits.TwigData, bits: Bits, touched: bool) {
    if touched then ActiveBits.CheckTwig(tw, bits) else tw == was && ActiveBits.BitsRight(tw, bits)
  }

  /** What the two phases make of a twig. */
  ghost function BothPhases(tw: ActiveBits.TwigData, bits: Bits, t: nat, list: seq<nat>, pairs: seq<nat>, ids: seq<nat>)
    : ActiveBits.TwigData
    requires ActiveBits.Shaped(tw)
  {
    ActiveBits.TopSynced(ActiveBits.L2Synced(ActiveBits.L1Synced(tw, bits, t, list), t, pairs), t, ids)
  }

  lemma AllSynced(synced: map<nat, Bits>, bits: map<nat, Bits>, touched: set<nat>, was: map<nat, ActiveBits.TwigData>,
                  twigs: map<nat, ActiveBits.TwigData>, list: seq<nat>, pairs: seq<nat>, ids: seq<nat>)
    requires TrackedBits(synced, bits, touched) && bits.Keys <= was.Keys && was.Keys == twigs.Keys
    requires forall t {:trigger bits[t]} :: t in bits ==>
               && ActiveBits.BitsRight(was[t], Was(synced, t))
               && twigs[t] == BothPhases(was[t], bits[t], t, list, pairs, ids)
    requires (forall b :: b in list <==> b in touched) && UpperTree.IsParents(list, pairs)
    requires UpperTree.IsParents(pairs, ids)
    ensures forall t {:trigger bits[t]} :: t in bits ==>
              SyncedTwig(was[t], twigs[t], bits[t], ActiveBits.TouchedTwig(touched, t))
  {
    forall t | t in bits ensures SyncedTwig(was[t], twigs[t], bits[t], ActiveBits.TouchedTwig(touched, t)) {
      ActiveBits.PhasesRestore(was[t], Was(synced, t), bits[t], t, touched, list, pairs, ids);
    }
  }

  lemma NewTwigsTouched(synced: map<nat, Bits>, bits: map<nat, Bits>, touched: set<nat>)
    requires AnnouncedBits(synced, bits, touched)
    ensures forall t {:trigger bits[t]} :: t in bits && t !in synced ==> ActiveBits.TouchedTwig(touched, t)
  {
    forall t | t in bits && t !in synced ensures ActiveBits.TouchedTwig(touched, t) {
      assert bits[t] == bits[t];
      assert 4 * t in touched && 4 * t / 4 == t;
    }
  }

  lemma PairsInTwigs(touched: set<nat>, list: seq<nat>, pairs: seq<nat>, twigs: map<nat, ActiveBits.TwigData>)
    requires (forall b :: b in list <==> b in touched) && UpperTree.IsParents(list, pairs)
    requires forall b :: b in touched ==> b / 4 in twigs
    ensures forall i :: i in pairs ==> i / 2 in twigs
  {
    forall i | i in pairs ensures i / 2 in twigs {
      var b :| b in list && b / 2 == i;
      assert b / 4 == i / 2;
    }
  }

  /** The bits of the twigs from `oldest` on are those of the live run. */
  ghost predicate LiveIn(bits: map<nat, Bits>, log: seq<LogEntry>, n: nat, oldest: nat)
    requires n <= |log|
  {
    forall s: nat {:trigger BitIn(bits, s)} :: BitIn(bits, s) <==> s >= oldest * 2048 && LiveBit(log, n, s)
  }

  lemma LiveNext(bits: map<nat, Bits>, log: seq<LogEntry>, n: nat, oldest: nat)
    requires oldest * 2048 <= n < |log| && LiveIn(bits, log, n, oldest)
    requires n / 2048 in bits && (n % 2048 == 2047 ==> n / 2048 + 1 !in bits)
    requires Clearable(Activated(bits, n), log[n].dsns, 0)
    ensures LiveIn(Cleared(Activated(bits, n), log[n].dsns, 0), log, n + 1, oldest)
  {
    ActivatedMeans(bits, n);
    ClearedMeans(Activated(bits, n), log[n].dsns, 0);
    LiveStep(log, n);
    var after := Cleared(Activated(bits, n), log[n].dsns, 0);
    forall s: nat ensures BitIn(after, s) <==> s >= oldest * 2048 && LiveBit(log, n + 1, s) {
      assert BitIn(after, s) <==> BitIn(Activated(bits, n), s) && s !in log[n].dsns;
      assert BitIn(Activated(bits, n), s) <==> s == n || BitIn(bits, s);
    }
  }

  /** The bits are those of the replay so far. */
  ghost predicate ReplayedIn(bits: map<nat, Bits>, log: seq<LogEntry>, n: nat, oldest: nat)
    requires n <= |log|
  {
    forall s: nat {:trigger BitIn(bits, s)} ::
      BitIn(bits, s) <==> s >= oldest * 2048 && ReplayBit(log, oldest * 2048, n, s)
  }

  lemma ReplayNext(bits: map<nat, Bits>, log: seq<LogEntry>, n: nat, oldest: nat)
    requires oldest * 2048 <= n < |log| && ReplayedIn(bits, log, n, oldest)
    requires n / 2048 in bits && (n % 2048 == 2047 ==> n / 2048 + 1 !in bits)
    requires Clearable(bits, log[n].dsns, oldest)
    ensures ReplayedIn(Activated(Cleared(bits, log[n].dsns, oldest), n), log, n + 1, oldest)
  {
    var b := Cleared(bits, log[n].dsns, oldest);
    ClearedMeans(bits, log[n].dsns, oldest);
    ActivatedMeans(b, n);
    forall s: nat
      ensures BitIn(Activated(b, n), s) <==> s >= oldest * 2048 && ReplayBit(log, oldest * 2048, n + 1, s)
    {
      assert BitIn(Activated(b, n), s) <==> s == n || BitIn(b, s);
      assert BitIn(b, s) <==> BitIn(bits, s) && !(s in log[n].dsns && s / 2048 >= oldest);
    }
  }

  /** Numbers of existing twigs can be cleared, also after the next entry was activated. */
  lemma LastTwigs(bits: map<nat, Bits>, dsns: seq<nat>, from: nat, oldest: nat, youngest: nat)
    requires forall t: nat :: t in bits <==> oldest <= t <= youngest
    requires forall k :: 0 <= k < |dsns| ==> dsns[k] / 2048 < from || oldest <= dsns[k] / 2048 <= youngest
    ensures Clearable(bits, dsns, from)
  {
  }

  lemma StillClearable(bits: map<nat, Bits>, dsns: seq<nat>, from: nat, sn: nat)
    requires Clearable(bits, dsns, from) && sn / 2048 in bits
    ensures Clearable(Activated(bits, sn), dsns, from)
  {
  }

  class Tree {
    /** active bits per twig */
    var bits: map<nat, Bits>
    /** root of the left half per twig */
    var leftRoot: map<nat, Digest>
    var youngest: nat
    const mtree: array<Digest>
    var changeStart: int
    var changeEnd: int
    /** the 512-bit blocks in which a bit was set or cleared since the last sync */
    var touched: set<nat>
    /** the bits at the last sync */
    ghost var synced: map<nat, Bits>
    /** the tree of an empty twig */
    const nullTree: seq<Digest>

    ghost predicate Shaped()
      reads this`bits, this`leftRoot, this`youngest, this`changeStart, this`changeEnd, mtree
    {
      && mtree.Length == 4096 && Dirty(nullTree, -1, 0) && Dirty(mtree[..], changeStart, changeEnd)
      && bits.Keys == leftRoot.Keys && youngest in bits
      && forall t :: t in bits ==> |bits[t]| == 2048
    }

    /** The touched blocks cover every change since the last sync. */
    ghost predicate Tracked()
      reads this`bits, this`touched, this`synced
    {
      TrackedBits(synced, bits, touched)
    }

    /** Every twig that was started since then is touched too, so that its parents are synced. */
    ghost predicate Announced()
      reads this`bits, this`touched, this`synced
    {
      AnnouncedBits(synced, bits, touched)
    }

    /** `set_entry_activiation` */
    method SetActivation(sn: nat, active: bool)
      requires Shaped() && sn / 2048 in bits
      modifies this`bits, this`touched
      ensures Shaped() && bits.Keys == old(bits.Keys) && touched == old(touched) + {sn / 512}
      ensures forall s: nat {:trigger BitIn(bits, s)} ::
                BitIn(bits, s) == if s == sn then active else BitIn(old(bits), s)
      ensures bits == SetBit(old(bits), sn, active)
    {
      bits := bits[sn / 2048 := bits[sn / 2048][sn % 2048 := active]];
      touched := touched + {sn / 512};
    }

    /** `sync_mt_for_youngest_twig` */
    method SyncYoungest()
      requires Shaped()
      modifies this`changeStart, this`changeEnd, this`leftRoot, mtree
      ensures Shaped() && changeStart == -1 && mtree[2048..] == old(mtree[2048..])
      ensures leftRoot == if old(changeStart) == -1 then old(leftRoot) else old(leftRoot)[youngest := mtree[1]]
    {
      if changeStart == -1 { return; }
      assert mtree[2048..] == mtree[..][2048..];
      SyncMTree(mtree, changeStart, changeEnd);
      changeStart, changeEnd := -1, 0;
      assert mtree[2048..] == mtree[..][2048..];
      leftRoot := leftRoot[youngest := mtree[1]];
    }

    /** Record a new leaf. */
    method PutLeaf(p: nat, h: Digest)
      requires Shaped() && p < 2048 && (changeStart == -1 || changeEnd <= p)
      modifies this`changeStart, this`changeEnd, mtree
      ensures Shaped() && changeStart != -1 && changeEnd == p
      ensures mtree[..] == old(mtree[..])[2048 + p := h]
    {
      LeafAppended(mtree[..], changeStart, changeEnd, p, h);
      if changeStart == -1 { changeStart := p; }
      changeEnd := p;
      mtree[2048 + p] := h;
    }

    /** A full twig: fix its left root, by hashing or from the twig file, and start the next one. */
    method FinishTwig(stored: Option<Digest>)
      requires Shaped() && changeStart != -1 && youngest + 1 !in bits
      modifies this`youngest, this`bits, this`leftRoot, this`changeStart, this`changeEnd, mtree
      ensures Shaped() && changeStart == -1 && youngest == old(youngest) + 1 && mtree[..] == nullTree
      ensures bits == old(bits)[youngest := NoBits()]
      ensures leftRoot.Keys == bits.Keys && leftRoot[youngest] == nullTree[1]
      ensures forall t :: t in old(bits) && t != old(youngest) ==> leftRoot[t] == old(leftRoot[t])
      ensures if stored.Some? then leftRoot[old(youngest)] == stored.value
              else IsRoot(leftRoot[old(youngest)], old(mtree[2048..]))
    {
      if stored.Some? {
        changeStart, changeEnd := -1, 0;
        leftRoot := leftRoot[youngest := stored.value];
      } else {
        SyncYoungest();
        assert mtree[..][2048..] == mtree[2048..] && IsRoot(mtree[1], mtree[2048..]);
      }
      StartTwig();
    }

    /** An empty twig becomes the youngest. */
    method StartTwig()
      requires mtree.Length == 4096 && Dirty(nullTree, -1, 0) && changeStart == -1
      requires bits.Keys == leftRoot.Keys && forall t :: t in bits ==> |bits[t]| == 2048
      modifies this`youngest, this`bits, this`leftRoot, mtree
      ensures Shaped() && youngest == old(youngest) + 1 && mtree[..] == nullTree
      ensures bits == old(bits)[youngest := NoBits()] && leftRoot == old(leftRoot)[youngest := nullTree[1]]
    {
      youngest := youngest + 1;
      bits := bits[youngest := NoBits()];
      leftRoot := leftRoot[youngest := nullTree[1]];
      forall i | 0 <= i < 4096 { mtree[i] := nullTree[i]; }
      assert mtree[..] == nullTree;
    }

    /** The twigs from `oldest` on, after the first n entries of the log. */
    ghost predicate Twigs(log: seq<LogEntry>, n: nat, oldest: nat)
      requires n <= |log|
      reads this`bits, this`leftRoot, this`youngest, this`changeStart, this`changeEnd, mtree
    {
      && Shaped() && youngest == n / 2048 && oldest <= youngest
      && (forall t :: t in bits <==> oldest <= t <= youngest)
      && mtree[2048..] == LeavesOf(log, n, nullTree[2048..], youngest)
      && (changeStart != -1 ==> changeEnd + 1 == n % 2048)
      && (changeStart == -1 ==> IsRoot(leftRoot[youngest], mtree[2048..]))
      && forall t :: oldest <= t < youngest ==> IsRoot(leftRoot[t], LeavesOf(log, n, nullTree[2048..], t))
    }

    /** The same right after leaf n was put in place. */
    ghost predicate Filling(log: seq<LogEntry>, n: nat, oldest: nat)
      requires n < |log|
      reads this`bits, this`leftRoot, this`youngest, this`changeStart, this`changeEnd, mtree
    {
      && Shaped() && youngest == n / 2048 && oldest <= youngest
      && (forall t :: t in bits <==> oldest <= t <= youngest)
      && mtree[2048..] == LeavesOf(log, n + 1, nullTree[2048..], youngest)
      && changeStart != -1 && changeEnd == n % 2048
      && forall t :: oldest <= t < youngest ==> IsRoot(leftRoot[t], LeavesOf(log, n + 1, nullTree[2048..], t))
    }

    /** The part that appending and recovering share: the entry becomes the next leaf. */
    method Extend(e: LogEntry, stored: Option<Digest>, ghost log: seq<LogEntry>, ghost n: nat, ghost oldest: nat)
      requires n < |log| && e == log[n] && e.sn == n && Twigs(log, n, oldest)
      requires stored.Some? && n % 2048 == 2047 ==>
                 IsRoot(stored.value, LeavesOf(log, n + 1, nullTree[2048..], n / 2048))
      modifies this`youngest, this`bits, this`leftRoot, this`changeStart, this`changeEnd, mtree
      ensures Twigs(log, n + 1, oldest)
      ensures if n % 2048 == 2047 then n / 2048 + 1 !in old(bits) && bits == old(bits)[n / 2048 + 1 := NoBits()]
              else bits == old(bits)
    {
      youngest := e.sn / 2048;
      var p := e.sn % 2048;
      FillLeaf(p, e.hash, log, n, oldest);
      NextTwig(n);
      if p == 2047 { CloseTwig(stored, log, n, oldest); }
    }

    method FillLeaf(p: nat, hash: Digest, ghost log: seq<LogEntry>, ghost n: nat, ghost oldest: nat)
      requires n < |log| && p == n % 2048 && hash == log[n].hash && Twigs(log, n, oldest)
      modifies this`changeStart, this`changeEnd, mtree
      ensures Filling(log, n, oldest)
    {
      ghost var nul := nullTree[2048..];
      PutLeaf(p, hash);
      assert mtree[2048..] == old(mtree[2048..])[p := hash];
      LeavesStep(log, n, nul, youngest);
      LeavesBefore(log, n, nul);
    }

    method CloseTwig(stored: Option<Digest>, ghost log: seq<LogEntry>, ghost n: nat, ghost oldest: nat)
      requires n < |log| && n % 2048 == 2047 && Filling(log, n, oldest)
      requires stored.Some? ==> IsRoot(stored.value, LeavesOf(log, n + 1, nullTree[2048..], youngest))
      modifies this`youngest, this`bits, this`leftRoot, this`changeStart, this`changeEnd, mtree
      ensures Twigs(log, n + 1, oldest)
      ensures n / 2048 + 1 !in old(bits) && bits == old(bits)[n / 2048 + 1 := NoBits()]
    {
      ghost var (nul, leaves, t) := (nullTree[2048..], mtree[2048..], youngest);
      NextTwig(n);
      FinishTwig(stored);
      NoLeavesYet(log, n + 1, nul, youngest);
      assert mtree[2048..] == mtree[..][2048..] == nul;
      assert IsRoot(nullTree[1], nul) && IsRoot(leftRoot[t], leaves);
    }

    // -------------------------------------------------------------- the live run

    ghost predicate LiveBits(log: seq<LogEntry>, n: nat, oldest: nat)
      requires n <= |log| && Twigs(log, n, oldest)
      reads this`bits, this`leftRoot, this`youngest, this`changeStart, this`changeEnd, mtree
    {
      LiveIn(bits, log, n, oldest)
    }

    /** A tree that starts with the empty twig `oldest`. */
    constructor (oldest: nat, nullTree: seq<Digest>, ghost log: seq<LogEntry>)
      requires Dirty(nullTree, -1, 0) && oldest * 2048 <= |log|
      ensures Twigs(log, oldest * 2048, oldest) && changeStart == -1
      ensures forall s: nat {:trigger BitIn(bits, s)} :: !BitIn(bits, s)
      ensures this.nullTree == nullTree && fresh(mtree)
      ensures synced == map[oldest := NoBits()] && Tracked() && Announced() && touched == {}
    {
      this.nullTree := nullTree;
      bits := map[oldest := NoBits()];
      synced := map[oldest := NoBits()];
      leftRoot := map[oldest := nullTree[1]];
      youngest, changeStart, changeEnd, touched := oldest, -1, -1, {};
      mtree := new Digest[4096](i requires 0 <= i < 4096 => nullTree[i]);
      new;
      assert mtree[..] == nullTree && mtree[2048..] == nullTree[2048..];
      assert IsRoot(nullTree[1], nullTree[2048..]);
      NoLeavesYet(log, oldest * 2048, nullTree[2048..], oldest);
    }

    /** `append_entry` followed by the deactivations, as the flusher does for every entry. */
    method AppendEntry(e: LogEntry, ghost log: seq<LogEntry>, ghost n: nat, ghost oldest: nat)
      requires n < |log| && e == log[n] && WellFormedAt(e, n) && Living(log, n, oldest)
      requires forall k :: 0 <= k < |e.dsns| ==> oldest <= e.dsns[k] / 2048
      requires Tracked() && Announced()
      modifies this`youngest, this`bits, this`leftRoot, this`changeStart, this`changeEnd, this`touched, mtree
      ensures Living(log, n + 1, oldest) && Tracked() && Announced()
      ensures touched == old(touched) + AppendTouches(n) + ClearTouches(e.dsns, 0)
    {
      AppendAndClear(e, log, n, oldest);
      AppendTracked(synced, old(bits), old(touched), n);
      ClearTracked(synced, Activated(old(bits), n), old(touched) + AppendTouches(n), e.dsns, 0);
    }

    /** The twigs and the bits of the live run. */
    ghost predicate Living(log: seq<LogEntry>, n: nat, oldest: nat)
      reads this`bits, this`leftRoot, this`youngest, this`changeStart, this`changeEnd, mtree
    {
      n <= |log| && Twigs(log, n, oldest) && LiveBits(log, n, oldest)
    }

    /** Its effect on twigs, bits and touched blocks. */
    method AppendAndClear(e: LogEntry, ghost log: seq<LogEntry>, ghost n: nat, ghost oldest: nat)
      requires n < |log| && e == log[n] && WellFormedAt(e, n) && Living(log, n, oldest)
      requires forall k :: 0 <= k < |e.dsns| ==> oldest <= e.dsns[k] / 2048
      modifies this`youngest, this`bits, this`leftRoot, this`changeStart, this`changeEnd, this`touched, mtree
      ensures Living(log, n + 1, oldest)
      ensures n / 2048 in old(bits) && (n % 2048 == 2047 ==> n / 2048 + 1 !in old(bits))
      ensures Clearable(Activated(old(bits), n), e.dsns, 0)
      ensures bits == Cleared(Activated(old(bits), n), e.dsns, 0)
      ensures touched == old(touched) + AppendTouches(n) + ClearTouches(e.dsns, 0)
    {
      ghost var was := bits;
      LastTwigs(bits, e.dsns, 0, oldest, youngest);
      Activate(e, log, n, oldest);
      StillClearable(was, e.dsns, 0, n);
      Deactivate(e.dsns, 0, log, n + 1, oldest);
      LiveNext(was, log, n, oldest);
    }

    /** `append_entry` */
    method Activate(e: LogEntry, ghost log: seq<LogEntry>, ghost n: nat, ghost oldest: nat)
      requires n < |log| && e == log[n] && e.sn == n && Twigs(log, n, oldest)
      modifies this`youngest, this`bits, this`leftRoot, this`changeStart, this`changeEnd, this`touched, mtree
      ensures Twigs(log, n + 1, oldest) && n / 2048 <= youngest && oldest * 2048 <= n
      ensures n / 2048 in old(bits) && (n % 2048 == 2047 ==> n / 2048 + 1 !in old(bits))
      ensures bits == Activated(old(bits), n) && touched == old(touched) + AppendTouches(n)
    {
      SetAndExtend(e, None, log, n, oldest);
      FirstBlock(n);
      if e.sn % 2048 == 2047 { touched := touched + {(e.sn + 1) / 512}; }
    }

    /** Set the bit of the entry and make it the next leaf. */
    method SetAndExtend(e: LogEntry, stored: Option<Digest>, ghost log: seq<LogEntry>, ghost n: nat, ghost oldest: nat)
      requires n < |log| && e == log[n] && e.sn == n && Twigs(log, n, oldest)
      requires stored.Some? && n % 2048 == 2047 ==>
                 IsRoot(stored.value, LeavesOf(log, n + 1, nullTree[2048..], n / 2048))
      modifies this`youngest, this`bits, this`leftRoot, this`changeStart, this`changeEnd, this`touched, mtree
      ensures Twigs(log, n + 1, oldest) && n / 2048 <= youngest && oldest * 2048 <= n
      ensures n / 2048 in old(bits) && (n % 2048 == 2047 ==> n / 2048 + 1 !in old(bits))
      ensures bits == Activated(old(bits), n) && touched == old(touched) + {n / 512}
    {
      SetActivation(e.sn, true);
      Extend(e, stored, log, n, oldest);
    }

    /** Clear the bits of the listed numbers that belong to twigs from `from` on. */
    method Deactivate(dsns: seq<nat>, from: nat, ghost log: seq<LogEntry>, ghost n: nat, ghost oldest: nat)
      requires n <= |log| && Twigs(log, n, oldest) && Clearable(bits, dsns, from)
      modifies this`bits, this`touched
      ensures Twigs(log, n, oldest)
      ensures bits == Cleared(old(bits), dsns, from) && touched == old(touched) + ClearTouches(dsns, from)
    {
      ClearAll(dsns, from);
    }

    method ClearAll(dsns: seq<nat>, from: nat)
      requires Shaped() && Clearable(bits, dsns, from)
      modifies this`bits, this`touched
      ensures Shaped() && bits == Cleared(old(bits), dsns, from)
      ensures touched == old(touched) + ClearTouches(dsns, from)
    {
      for k := 0 to |dsns|
        invariant Shaped() && Clearable(old(bits), dsns[..k], from)
        invariant bits == Cleared(old(bits), dsns[..k], from)
        invariant touched == old(touched) + ClearTouches(dsns[..k], from)
      {
        if dsns[k] / 2048 >= from { SetActivation(dsns[k], false); }
        assert dsns[..k + 1][..k] == dsns[..k];
      }
      assert dsns[..|dsns|] == dsns;
    }

    /** The end of a block: sync the youngest twig and forget twigs whose entries are all compacted. */
    method EndBlock(delStart: nat, delEnd: nat, ghost log: seq<LogEntry>, ghost n: nat)
      requires n <= |log| && Twigs(log, n, delStart) && LiveBits(log, n, delStart) && delStart <= delEnd <= n / 2048
      modifies this, mtree
      ensures Twigs(log, n, delEnd) && LiveBits(log, n, delEnd) && changeStart == -1 && touched == {}
      ensures synced == bits && Tracked() && Announced()
    {
      Settle(log, n, delStart);
      for t := delStart to delEnd
        invariant Twigs(log, n, t) && LiveBits(log, n, t) && changeStart == -1
      {
        Forget(t, log, n);
      }
      touched := {};
      synced := bits;
    }

    /** The trees over the active bits are those of the last sync. */
    ghost predicate InLine(twigs: map<nat, ActiveBits.TwigData>)
      reads this`bits, this`synced
    {
      && bits.Keys <= twigs.Keys && ActiveBits.AllShaped(twigs)
      && forall t {:trigger bits[t]} :: t in bits ==> ActiveBits.BitsRight(twigs[t], Was(synced, t))
    }

    /** Both phases of the sync, with the touched blocks that were collected since the last one: the trees
        over the active bits are right for the present bits, touched twigs are closed, and the list for
        the upper tree has the parents of all touched twigs, new ones included. */
    method SyncActiveBits(data: ActiveBits.Twigs) returns (parents: seq<nat>)
      requires Tracked() && Announced() && InLine(data.twigs)
      modifies data
      ensures data.twigs.Keys == old(data.twigs.Keys)
      ensures forall t {:trigger bits[t]} :: t in bits ==>
                SyncedTwig(old(data.twigs)[t], data.twigs[t], bits[t], ActiveBits.TouchedTwig(touched, t))
      ensures UpperTree.Increasing(parents)
      ensures forall n: nat :: n in parents <==>
                ActiveBits.TouchedTwig(touched, 2 * n) || ActiveBits.TouchedTwig(touched, 2 * n + 1)
      ensures forall t {:trigger bits[t]} :: t in bits && t !in synced ==> ActiveBits.TouchedTwig(touched, t)
    {
      ghost var twigs := data.twigs;
      var list, pairs, ids;
      list, pairs, ids, parents := RunPhases(data);
      ActiveBits.ParentsOfTouched(touched, list, pairs, ids, parents);
      AllSynced(synced, bits, touched, twigs, data.twigs, list, pairs, ids);
      NewTwigsTouched(synced, bits, touched);
    }

    method RunPhases(data: ActiveBits.Twigs) returns (list: seq<nat>, pairs: seq<nat>, ids: seq<nat>, parents: seq<nat>)
      requires bits.Keys <= data.twigs.Keys && ActiveBits.AllShaped(data.twigs)
      requires forall b {:trigger b in touched} :: b in touched ==> b / 4 in bits
      modifies data
      ensures data.twigs.Keys == old(data.twigs.Keys) && ActiveBits.AllShaped(data.twigs)
      ensures (forall b :: b in list <==> b in touched) && UpperTree.IsParents(list, pairs)
      ensures UpperTree.IsParents(pairs, ids) && UpperTree.IsParents(ids, parents)
      ensures forall t {:trigger bits[t]} :: t in bits ==>
                ActiveBits.Shaped(old(data.twigs)[t]) &&
                data.twigs[t] == BothPhases(old(data.twigs)[t], bits[t], t, list, pairs, ids)
    {
      ghost var twigs := data.twigs;
      list, pairs := data.Phase1(touched, bits);
      PairsInTwigs(touched, list, pairs, twigs);
      ids, parents := data.Phase2(pairs);
    }

    method Forget(t: nat, ghost log: seq<LogEntry>, ghost n: nat)
      requires n <= |log| && Twigs(log, n, t) && t < youngest
      modifies this`bits, this`leftRoot
      ensures Twigs(log, n, t + 1)
      ensures forall s: nat {:trigger BitIn(bits, s)} :: BitIn(bits, s) <==> s >= (t + 1) * 2048 && BitIn(old(bits), s)
    {
      bits := bits - {t};
      leftRoot := leftRoot - {t};
    }

    /** Bring the youngest twig's left root up to date. */
    method Settle(ghost log: seq<LogEntry>, ghost n: nat, ghost oldest: nat)
      requires n <= |log| && Twigs(log, n, oldest)
      modifies this`changeStart, this`changeEnd, this`leftRoot, mtree
      ensures Twigs(log, n, oldest) && changeStart == -1
      ensures leftRoot == old(leftRoot)[youngest := leftRoot[youngest]]
    {
      SyncYoungest();
      assert mtree[..][2048..] == mtree[2048..];
      assert IsRoot(mtree[1], mtree[2048..]);
    }

    // -------------------------------------------------------------- recovery

    ghost predicate ReplayedBits(log: seq<LogEntry>, n: nat, oldest: nat)
      requires n <= |log| && Twigs(log, n, oldest)
      reads this`bits, this`leftRoot, this`youngest, this`changeStart, this`changeEnd, mtree
    {
      ReplayedIn(bits, log, n, oldest)
    }

    /** `recover_entry` */
    method RecoverEntry(e: LogEntry, oldest: nat, stored: Option<Digest>, ghost log: seq<LogEntry>, ghost n: nat)
      requires n < |log| && e == log[n] && WellFormedAt(e, n) && Replaying(log, n, oldest) && Tracked()
      requires stored.Some? && n % 2048 == 2047 ==>
                 IsRoot(stored.value, LeavesOf(log, n + 1, nullTree[2048..], n / 2048))
      modifies this`youngest, this`bits, this`leftRoot, this`changeStart, this`changeEnd, this`touched, mtree
      ensures Replaying(log, n + 1, oldest) && Tracked()
    {
      Replay(e, oldest, stored, log, n);
      RecoverTracked(synced, old(bits), old(touched), e.dsns, oldest, n);
    }

    /** Its effect on twigs and bits. */
    method Replay(e: LogEntry, oldest: nat, stored: Option<Digest>, ghost log: seq<LogEntry>, ghost n: nat)
      requires n < |log| && e == log[n] && WellFormedAt(e, n) && Replaying(log, n, oldest)
      requires stored.Some? && n % 2048 == 2047 ==>
                 IsRoot(stored.value, LeavesOf(log, n + 1, nullTree[2048..], n / 2048))
      modifies this`youngest, this`bits, this`leftRoot, this`changeStart, this`changeEnd, this`touched, mtree
      ensures Replaying(log, n + 1, oldest)
      ensures Clearable(old(bits), e.dsns, oldest) && n / 2048 in old(bits)
      ensures n % 2048 == 2047 ==> n / 2048 + 1 !in old(bits)
      ensures bits == Activated(Cleared(old(bits), e.dsns, oldest), n)
      ensures touched == old(touched) + ClearTouches(e.dsns, oldest) + {n / 512}
    {
      ghost var was := bits;
      LastTwigs(bits, e.dsns, oldest, oldest, youngest);
      Deactivate(e.dsns, oldest, log, n, oldest);
      SetAndExtend(e, stored, log, n, oldest);
      ReplayNext(was, log, n, oldest);
    }

    /** `recover_tree` up to the active bits: start with an empty oldest twig and replay the entry
        file from that twig's first entry; full twigs take their left root from the twig file. */
    static method RecoverTwigs(file: map<nat, LogEntry>, size: nat, firstEntryPos: nat, stored: nat -> Digest,
                               emptyTwigFile: bool,
                               oldest: nat, youngest: nat, nullTree: seq<Digest>,
                                   ghost log: seq<LogEntry>) returns (t: Tree)
      requires WellFormed(log) && IsFile(file, log) && size == Offset(log, |log|) && oldest * 2048 <= |log|
      requires firstEntryPos == Offset(log, oldest * 2048) && youngest == |log| / 2048 && Dirty(nullTree, -1, 0)
      requires emptyTwigFile || StoredRight(log, nullTree[2048..], oldest, stored)
      ensures fresh(t) && fresh(t.mtree) && t.nullTree == nullTree && t.changeStart == -1
      ensures t.Replaying(log, |log|, oldest) && t.synced == map[oldest := NoBits()] && t.Tracked()
    {
      t := Blank(oldest, nullTree, log);
      t.ScanEntries(file, size, firstEntryPos, stored, emptyTwigFile, oldest, youngest, log);
      t.SettleReplayed(log, oldest);
    }

    /** An empty oldest twig, nothing replayed yet. */
    static method Blank(oldest: nat, nullTree: seq<Digest>, ghost log: seq<LogEntry>) returns (t: Tree)
      requires Dirty(nullTree, -1, 0) && oldest * 2048 <= |log|
      ensures fresh(t) && fresh(t.mtree) && t.nullTree == nullTree
      ensures t.Replaying(log, oldest * 2048, oldest) && t.synced == map[oldest := NoBits()] && t.Tracked()
    {
      t := new Tree(oldest, nullTree, log);
      NothingReplayed(log, oldest);
    }

    method SettleReplayed(ghost log: seq<LogEntry>, ghost oldest: nat)
      requires Replaying(log, |log|, oldest)
      modifies this`changeStart, this`changeEnd, this`leftRoot, mtree
      ensures Replaying(log, |log|, oldest) && changeStart == -1
    {
      Settle(log, |log|, oldest);
    }

    ghost predicate Replaying(log: seq<LogEntry>, n: nat, oldest: nat)
      reads this`bits, this`leftRoot, this`youngest, this`changeStart, this`changeEnd, mtree
    {
      oldest * 2048 <= n <= |log| && Twigs(log, n, oldest) && ReplayedBits(log, n, oldest)
    }

    /** `scan_entries` */
    method ScanEntries(file: map<nat, LogEntry>, size: nat, firstEntryPos: nat, stored: nat -> Digest,
                       emptyTwigFile: bool,
                       oldest: nat, metaYoungest: nat, ghost log: seq<LogEntry>)
      requires WellFormed(log) && IsFile(file, log) && size == Offset(log, |log|) && oldest * 2048 <= |log|
      requires firstEntryPos == Offset(log, oldest * 2048) && metaYoungest == |log| / 2048
      requires Replaying(log, oldest * 2048, oldest) && Tracked()
      requires emptyTwigFile || StoredRight(log, nullTree[2048..], oldest, stored)
      modifies this`youngest, this`bits, this`leftRoot, this`changeStart, this`changeEnd, this`touched, mtree
      ensures Replaying(log, |log|, oldest) && Tracked()
    {
      ghost var n := oldest * 2048;
      var pos := firstEntryPos;
      while pos < size
        invariant oldest * 2048 <= n <= |log| && pos == Offset(log, n)
        invariant Replaying(log, n, oldest) && Tracked()
        decreases size - pos
      {
        ReadNext(file, log, n);
        var e := file[pos];
        ScanEntry(e, stored, emptyTwigFile, oldest, metaYoungest, log, n);
        pos := pos + e.len;
        n := n + 1;
      }
      OffsetEnd(log, n);
    }

    /** One entry of the scan: the root of its twig, if that is full, comes from the twig file. */
    method ScanEntry(e: LogEntry, stored: nat -> Digest, emptyTwigFile: bool, oldest: nat, metaYoungest: nat,
                     ghost log: seq<LogEntry>, ghost n: nat)
      requires n < |log| && e == log[n] && WellFormedAt(e, n) && metaYoungest == |log| / 2048
      requires Replaying(log, n, oldest) && (emptyTwigFile || StoredRight(log, nullTree[2048..], oldest, stored))
      requires Tracked()
      modifies this`youngest, this`bits, this`leftRoot, this`changeStart, this`changeEnd, this`touched, mtree
      ensures Replaying(log, n + 1, oldest) && Tracked()
    {
      var root := if e.sn / 2048 == metaYoungest || emptyTwigFile then None else Some(stored(e.sn / 2048));
      if root.Some? && n % 2048 == 2047 { StoredRoot(log, n, nullTree[2048..], oldest, stored); }
      RecoverEntry(e, oldest, root, log, n);
    }
  }

  lemma NothingReplayed(log: seq<LogEntry>, oldest: nat)
    requires oldest * 2048 <= |log|
    ensures forall s: nat :: s >= oldest * 2048 ==> !ReplayBit(log, oldest * 2048, oldest * 2048, s)
  {
  }

  /** Where entry i starts in the entry file. */
  ghost function Offset(log: seq<LogEntry>, i: nat): nat
    requires i <= |log|
  {
    if i == 0 then 0 else Offset(log, i - 1) + log[i - 1].len
  }

  lemma {:induction false} OffsetMonotone(log: seq<LogEntry>, i: nat, j: nat)
    requires WellFormed(log) && i < j <= |log|
    ensures Offset(log, i) < Offset(log, j)
  {
    assert WellFormedAt(log[j - 1], j - 1);
    if i < j - 1 { OffsetMonotone(log, i, j - 1); }
  }

  lemma OffsetEnd(log: seq<LogEntry>, n: nat)
    requires WellFormed(log) && n <= |log|
    ensures Offset(log, n) < Offset(log, |log|) <==> n < |log|
  {
    if n < |log| { OffsetMonotone(log, n, |log|); }
  }

  lemma ReadNext(file: map<nat, LogEntry>, log: seq<LogEntry>, n: nat)
    requires WellFormed(log) && IsFile(file, log) && n <= |log| && Offset(log, n) < Offset(log, |log|)
    ensures n < |log| && Offset(log, n) in file && file[Offset(log, n)] == log[n] && WellFormedAt(log[n], n)
    ensures Offset(log, n + 1) == Offset(log, n) + log[n].len <= Offset(log, |log|)
  {
    assert n < |log| by { OffsetEnd(log, n); }
    assert Readable(file, log, n) && WellFormedAt(log[n], n);
    if n + 1 < |log| { OffsetMonotone(log, n + 1, |log|); }
  }

  ghost predicate StoredRight(log: seq<LogEntry>, nullLeaves: seq<Digest>, oldest: nat, stored: nat -> Digest)
    requires |nullLeaves| == 2048
  {
    forall k: nat :: oldest <= k < |log| / 2048 ==> IsRoot(stored(k), LeavesOf(log, |log|, nullLeaves, k))
  }

  lemma StoredRoot(log: seq<LogEntry>, n: nat, nullLeaves: seq<Digest>, oldest: nat, stored: nat -> Digest)
    requires |nullLeaves| == 2048 && StoredRight(log, nullLeaves, oldest, stored)
    requires n < |log| && oldest <= n / 2048 && n % 2048 == 2047
    ensures IsRoot(stored(n / 2048), LeavesOf(log, n + 1, nullLeaves, n / 2048))
  {
    LeavesFinal(log, n, nullLeaves);
  }

  /** The leaves of a full twig are final. */
  lemma LeavesFinal(log: seq<LogEntry>, n: nat, nullLeaves: seq<Digest>)
    requires n < |log| && |nullLeaves| == 2048 && n % 2048 == 2047
    ensures LeavesOf(log, n + 1, nullLeaves, n / 2048) == LeavesOf(log, |log|, nullLeaves, n / 2048)
  {
  }

  /** Reading at an entry's position yields that entry. */
  ghost predicate IsFile(file: map<nat, LogEntry>, log: seq<LogEntry>) {
    forall i {:trigger Readable(file, log, i)} :: 0 <= i < |log| ==> Readable(file, log, i)
  }
  ghost predicate Readable(file: map<nat, LogEntry>, log: seq<LogEntry>, i: nat)
    requires i < |log|
  {
    Offset(log, i) in file && file[Offset(log, i)] == log[i]
  }

  // ---------------------------------------------------------------- the comparison

  /** A number that named itself was dropped again later. */
  ghost predicate SelfDropsUndone(log: seq<LogEntry>, start: nat) {
    forall s :: start <= s < |log| && s in log[s].dsns ==> Dropped(log, |log|, s)
  }

  /** The recovered tree is the live one, twig by twig, for every log; the active bits agree
      exactly when no entry from the oldest twig on names itself for good. */
  lemma RecoveredIsLive(live: Tree, rec: Tree, log: seq<LogEntry>, oldest: nat)
    requires live.Twigs(log, |log|, oldest) && live.LiveBits(log, |log|, oldest) && live.changeStart == -1
    requires rec.Twigs(log, |log|, oldest) && rec.ReplayedBits(log, |log|, oldest) && rec.changeStart == -1
    requires live.nullTree == rec.nullTree
    ensures live.youngest == rec.youngest && live.leftRoot == rec.leftRoot
    ensures forall i :: 1 <= i < 4096 ==> live.mtree[i] == rec.mtree[i]
    ensures live.bits == rec.bits <==> SelfDropsUndone(log, oldest * 2048)
  {
    forall t | t in live.leftRoot ensures live.leftRoot[t] == rec.leftRoot[t] {
      RootUnique(live.leftRoot[t], rec.leftRoot[t], LeavesOf(log, |log|, live.nullTree[2048..], t));
    }
    assert live.mtree[..][2048..] == live.mtree[2048..] && rec.mtree[..][2048..] == rec.mtree[2048..];
    forall i | 1 <= i < 4096 ensures live.mtree[i] == rec.mtree[i] { SameAt(live.mtree[..], rec.mtree[..], i); }
    BitsEqual(live, rec, log, oldest);
    forall s: nat | oldest * 2048 <= s
      ensures (BitIn(live.bits, s) == BitIn(rec.bits, s)) <==>
              (s < |log| && s in log[s].dsns ==> Dropped(log, |log|, s))
    {
      if s < |log| {
        ReplayAgreesIff(log, oldest * 2048, s);
      } else {
        NotYetLive(log, |log|, s);
        NotYetReplayed(log, oldest * 2048, |log|, s);
      }
    }
  }

  lemma BitsEqual(a: Tree, b: Tree, log: seq<LogEntry>, oldest: nat)
    requires a.Twigs(log, |log|, oldest) && b.Twigs(log, |log|, oldest)
    ensures a.bits == b.bits <==> forall s: nat :: s >= oldest * 2048 ==> BitIn(a.bits, s) == BitIn(b.bits, s)
  {
    if forall s: nat :: s >= oldest * 2048 ==> BitIn(a.bits, s) == BitIn(b.bits, s) {
      forall t | t in a.bits ensures a.bits[t] == b.bits[t] {
        forall o | 0 <= o < 2048 ensures a.bits[t][o] == b.bits[t][o] {
          var s := t * 2048 + o;
          assert s / 2048 == t && s % 2048 == o && BitIn(a.bits, s) == BitIn(b.bits, s);
        }
      }
    }
  }

  /** After a restart on a log that the updater wrote, the recovered tree is the live one, active bits
      included. */
  lemma RecoveredExactly(live: Tree, rec: Tree, log: seq<LogEntry>, written: seq<ShardLog.Rec>, oldest: nat)
    requires live.Twigs(log, |log|, oldest) && live.LiveBits(log, |log|, oldest) && live.changeStart == -1
    requires rec.Twigs(log, |log|, oldest) && rec.ReplayedBits(log, |log|, oldest) && rec.changeStart == -1
    requires live.nullTree == rec.nullTree && SameDrops(log, written) && ShardLog.DeactivatesActive(written)
    ensures live.youngest == rec.youngest && live.leftRoot == rec.leftRoot && live.bits == rec.bits
    ensures forall i :: 1 <= i < 4096 ==> live.mtree[i] == rec.mtree[i]
  {
    RecoveredIsLive(live, rec, log, oldest);
    forall s: nat | oldest * 2048 <= s < |log| ensures s !in log[s].dsns {
      UpdaterLogReplays(log, written, oldest * 2048, s);
    }
  }
}
