/** The buffer between the updater and the flusher: entries of any length written into buffers of
    65536 bytes, read back in order by one reader that learns about progress through a channel. */
module EntryBuffering {
  import opened Basics

  const MIN: int := -0x8000_0000_0000_0000

  /** `get_entry_len`: the length is in the first five bytes. */
  function EntryLen(s: seq<byte>): (r: nat)
    requires |s| >= 5
    ensures r % 8 == 0 && r >= 56
  {
    SerialisedLen(s[0] as int, s[1] as int + 256 * s[2] as int + 65536 * s[3] as int, s[4] as int)
  }

  /** The first five bytes that `dump` writes: value and key length in one little-endian word, then the
      number of deactivated serial numbers. */
  function Header(keyLen: nat, valueLen: nat, dsns: nat): seq<byte>
    requires keyLen < 256 && valueLen < 0x100_0000 && dsns < 256
  {
    var w := valueLen * 256 + keyLen;
    [(w % 256) as byte, (w / 256 % 256) as byte, (w / 65536 % 256) as byte, (w / 16777216) as byte, dsns as byte]
  }

  /** They give the length of the entry back: all its fields, padded to whole words. */
  lemma HeaderLength(keyLen: nat, valueLen: nat, dsns: nat, rest: seq<byte>)
    requires keyLen < 256 && valueLen < 0x100_0000 && dsns < 256
    ensures EntryLen(Header(keyLen, valueLen, dsns) + rest) == SerialisedLen(keyLen, valueLen, dsns)
    ensures 53 + keyLen + valueLen + 8 * dsns <= EntryLen(Header(keyLen, valueLen, dsns) + rest)
    ensures EntryLen(Header(keyLen, valueLen, dsns) + rest) < 61 + keyLen + valueLen + 8 * dsns
  {
    var w := valueLen * 256 + keyLen;
    assert w % 256 == keyLen && w / 256 == valueLen;
    assert w / 65536 == valueLen / 256 && w / 16777216 == valueLen / 65536;
  }

  /** A serialised entry; what its bytes after the lengths mean does not matter here. */
  predicate IsEntry(s: seq<byte>) { |s| >= 5 && EntryLen(s) == |s| }

  lemma EntrySize(s: seq<byte>)
    requires IsEntry(s)
    ensures |s| % 8 == 0 && |s| >= 56
  {
  }

  // ---------------------------------------------------------------- what happened so far

  /** What the writer did: an entry appended at a position, or the end of a block. */
  datatype Event = Put(pos: nat, bz: seq<byte>) | Mark(pos: nat, donePos: int, doneSn: int, snEnd: int)

  function EndOf(e: Event): nat { if e.Put? then e.pos + |e.bz| else e.pos }

  /** The entry reaches the end of its buffer. */
  predicate Straddles(e: Event) { e.Put? && e.pos % 65536 + |e.bz| >= 65536 }

  /** How many messages an event sends. */
  function Width(e: Event): nat { if e.Mark? then 5 else if Straddles(e) then 1 else 0 }

  /** The events, the file content from position 0 (arbitrary before `base`), all messages sent. */
  datatype History = History(es: seq<Event>, base: nat, flat: seq<byte>, sent: seq<int>)

  /** Index of the first message of event k. */
  ghost function Off(es: seq<Event>, k: nat): nat
    requires k <= |es|
  {
    if k == 0 then 0 else Off(es, k - 1) + Width(es[k - 1])
  }

  lemma {:induction false} OffFrame(es: seq<Event>, e: Event, k: nat)
    requires k <= |es|
    ensures Off(es + [e], k) == Off(es, k)
  {
    if k > 0 { OffFrame(es, e, k - 1); }
  }

  /** Events lie end to end, their bytes are those of the content, their messages were sent. */
  ghost predicate EventOk(h: History, k: nat)
    requires k < |h.es|
  {
    var e := h.es[k];
    && e.pos == (if k == 0 then h.base else EndOf(h.es[k - 1])) && e.pos % 8 == 0 && EndOf(e) <= |h.flat|
    && (e.Put? ==> IsEntry(e.bz) && |e.bz| <= 65536 && h.flat[e.pos..EndOf(e)] == e.bz)
    && SentOk(h, k)
  }

  ghost predicate SentOk(h: History, k: nat)
    requires k < |h.es|
  {
    var (e, o) := (h.es[k], Off(h.es, k));
    && o + Width(e) <= |h.sent|
    && (Width(e) > 0 ==> h.sent[o] == e.pos)
    && (e.Mark? ==> h.sent[o + 1] == MIN && h.sent[o + 2] == e.donePos)
    && (e.Mark? ==> h.sent[o + 3] == e.doneSn && h.sent[o + 4] == e.snEnd)
  }

  ghost predicate Chained(h: History) {
    && h.base <= |h.flat| && h.base % 8 == 0 && |h.flat| % 8 == 0
    && (forall k {:trigger EventOk(h, k)} :: 0 <= k < |h.es| ==> EventOk(h, k))
    && |h.flat| == (if h.es == [] then h.base else EndOf(h.es[|h.es| - 1]))
    && |h.sent| == Off(h.es, |h.es|)
  }

  /** What the writer's next event does to the history. */
  function Then(h: History, e: Event): History {
    h.(es := h.es + [e],
       flat := h.flat + if e.Put? then e.bz else [],
       sent := h.sent + if e.Mark? then [e.pos, MIN, e.donePos, e.doneSn, e.snEnd]
           else if Straddles(e) then [e.pos] else [])
  }

  lemma ChainedMore(h: History, e: Event)
    requires Chained(h) && e.pos == |h.flat| && (e.Put? ==> IsEntry(e.bz) && |e.bz| <= 65536)
    ensures Chained(Then(h, e))
  {
    var (h', n) := (Then(h, e), |h.es|);
    assert h'.es[..n] == h.es;
    OffFrame(h.es, e, n);
    if e.Put? { EntrySize(e.bz); }
    forall k | 0 <= k < n + 1 ensures EventOk(h', k) {
      if k < n { EventKept(h, e, k); } else { NewEvent(h, e); }
    }
  }

  lemma EventKept(h: History, e: Event, k: nat)
    requires k < |h.es| && EventOk(h, k) && e.pos == |h.flat|
    ensures EventOk(Then(h, e), k)
  {
    var h' := Then(h, e);
    OffFrame(h.es, e, k);
    assert h'.flat[h.es[k].pos..EndOf(h.es[k])] == h.flat[h.es[k].pos..EndOf(h.es[k])];
  }

  lemma NewEvent(h: History, e: Event)
    requires Chained(h) && e.pos == |h.flat| && (e.Put? ==> IsEntry(e.bz) && |e.bz| <= 65536)
    ensures EventOk(Then(h, e), |h.es|)
  {
    var (h', n) := (Then(h, e), |h.es|);
    OffFrame(h.es, e, n);
    assert h'.es[n] == e && (n > 0 ==> h'.es[n - 1] == h.es[n - 1]);
    assert e.Put? ==> h'.flat[e.pos..] == e.bz;
    assert SentOk(h', n);
  }

  /** The next message to come belongs to the first event that sends one. */
  lemma {:induction false} FirstMsg(h: History, r: nat) returns (j: nat)
    requires Chained(h) && r <= |h.es| && Off(h.es, r) < |h.sent|
    ensures r <= j < |h.es| && Width(h.es[j]) > 0 && Off(h.es, j) == Off(h.es, r)
    ensures forall k {:trigger Width(h.es[k])} :: r <= k < j ==> Width(h.es[k]) == 0
    decreases |h.es| - r
  {
    if Width(h.es[r]) > 0 { j := r; } else { j := FirstMsg(h, r + 1); }
  }

  lemma {:induction false} Silent(h: History, r: nat)
    requires Chained(h) && r <= |h.es| && Off(h.es, r) >= |h.sent|
    ensures forall k {:trigger h.es[k]} :: r <= k < |h.es| ==> h.es[k].Put?
    decreases |h.es| - r
  {
    if r < |h.es| {
      assert EventOk(h, r);
      Silent(h, r + 1);
    }
  }

  // ---------------------------------------------------------------- buffers

  /** Where the buffer of a position starts in the file. */
  function Lo(pos: nat): nat { pos / 65536 * 65536 }

  /** A buffer that starts at `lo` holds the content before `upto` that belongs to it. */
  ghost predicate Holds(buf: seq<byte>, flat: seq<byte>, lo: nat, upto: nat)
    requires upto <= |flat|
  {
    |buf| == 65536 && forall p {:trigger flat[p]} :: lo <= p < upto && p < lo + 65536 ==> buf[p - lo] == flat[p]
  }

  lemma HoldsMore(buf: seq<byte>, flat: seq<byte>, bz: seq<byte>, lo: nat, upto: nat)
    requires upto <= |flat| && Holds(buf, flat, lo, upto)
    ensures Holds(buf, flat + bz, lo, upto)
  {
  }

  lemma HoldsLess(buf: seq<byte>, flat: seq<byte>, lo: nat, upto: nat, upto': nat)
    requires upto <= |flat| && Holds(buf, flat, lo, upto) && upto' <= |flat| && (upto' <= upto || lo + 65536 <= upto)
    ensures Holds(buf, flat, lo, upto')
  {
  }

  ghost predicate Full(m: map<nat, seq<byte>>, flat: seq<byte>, idx: nat) {
    idx in m && idx * 65536 + 65536 <= |flat| && Holds(m[idx], flat, idx * 65536, idx * 65536 + 65536)
  }

  /** The current buffer as published by an end of block. */
  ghost predicate Published(m: map<nat, seq<byte>>, flat: seq<byte>, e: Event) {
    e.Mark? && e.pos <= |flat| && Lo(e.pos) == Lo(|flat|) ==>
        e.pos / 65536 in m && Holds(m[e.pos / 65536], flat, Lo(e.pos), e.pos)
  }

  /** What the writer guarantees: its own buffer is current, the buffers before it are published
      from `start` on, and the last end of block is readable. */
  ghost predicate WriterOk(h: History, start: nat, m: map<nat, seq<byte>>, wbuf: seq<byte>) {
    && Holds(wbuf, h.flat, Lo(|h.flat|), |h.flat|)
    && (forall idx: nat {:trigger Full(m, h.flat, idx)} ::
      start / 65536 <= idx < |h.flat| / 65536 ==> Full(m, h.flat, idx))
    && forall k {:trigger Published(m, h.flat, h.es[k])} :: 0 <= k < |h.es| ==> Published(m, h.flat, h.es[k])
  }

  lemma MarkBefore(h: History, k: nat)
    requires Chained(h) && k < |h.es|
    ensures h.es[k].pos <= EndOf(h.es[k]) <= |h.flat|
  {
    assert EventOk(h, k);
  }

  lemma FullKept(m: map<nat, seq<byte>>, flat: seq<byte>, bz: seq<byte>, idx: nat)
    requires Full(m, flat, idx)
    ensures Full(m, flat + bz, idx)
  {
    HoldsMore(m[idx], flat, bz, idx * 65536, idx * 65536 + 65536);
  }

  /** Appending within the current buffer. */
  lemma WriteWithin(h: History, start: nat, m: map<nat, seq<byte>>, wbuf: seq<byte>, bz: seq<byte>)
    requires Chained(h) && WriterOk(h, start, m, wbuf) && |h.flat| % 65536 + |bz| < 65536
    ensures var off := |h.flat| % 65536;
            WriterOk(Then(h, Put(|h.flat|, bz)), start, m, wbuf[..off] + bz + wbuf[off + |bz|..])
  {
    var (off, flat) := (|h.flat| % 65536, h.flat);
    var (e, flat') := (Put(|flat|, bz), flat + bz);
    var wbuf' := wbuf[..off] + bz + wbuf[off + |bz|..];
    assert |flat'| / 65536 == |flat| / 65536;
    forall i: nat | start / 65536 <= i < |flat| / 65536 ensures Full(m, flat', i) {
      assert Full(m, flat, i);
      FullKept(m, flat, bz, i);
    }
    forall k | 0 <= k < |h.es| + 1 ensures Published(m, flat', (h.es + [e])[k]) {
      if k < |h.es| {
        MarkBefore(h, k);
        assert Published(m, flat, h.es[k]);
      }
    }
  }

  /** Appending past the end of the current buffer: it is published, and the rest of the entry
      starts the next one. */
  lemma WriteAcross(h: History, start: nat, m: map<nat, seq<byte>>, wbuf: seq<byte>, bz: seq<byte>, done: seq<byte>,
                    next: seq<byte>)
    requires Chained(h) && WriterOk(h, start, m, wbuf) && |bz| <= 65536 <= |h.flat| % 65536 + |bz| && |next| == 65536
    requires var (off, copied) := (|h.flat| % 65536, 65536 - |h.flat| % 65536);
             done == wbuf[..off] + bz[..copied] && next[..|bz| - copied] == bz[copied..]
    ensures WriterOk(Then(h, Put(|h.flat|, bz)), start, m[|h.flat| / 65536 := done], next)
  {
    var flat := h.flat;
    var (off, idx, copied) := (|flat| % 65536, |flat| / 65536, 65536 - |flat| % 65536);
    var (e, flat', m') := (Put(|flat|, bz), flat + bz, m[idx := done]);
    assert |flat'| / 65536 == idx + 1 && Lo(|flat'|) == idx * 65536 + 65536;
    assert Holds(done, flat', idx * 65536, idx * 65536 + 65536);
    forall i: nat | start / 65536 <= i < idx + 1 ensures Full(m', flat', i) {
      if i < idx {
        assert Full(m, flat, i);
        FullKept(m, flat, bz, i);
      }
    }
    assert Holds(next, flat', idx * 65536 + 65536, |flat'|) by {
      forall p | idx * 65536 + 65536 <= p < |flat'| ensures next[p - (idx * 65536 + 65536)] == flat'[p] {
        var i := p - (idx * 65536 + 65536);
        assert next[..|bz| - copied][i] == bz[copied..][i];
      }
    }
    forall k | 0 <= k < |h.es| + 1 ensures Published(m', flat', (h.es + [e])[k]) {
      if k < |h.es| { MarkBefore(h, k); }
    }
  }

  /** The end of a block publishes the current buffer. */
  lemma WriteMark(h: History, start: nat, m: map<nat, seq<byte>>, wbuf: seq<byte>, e: Event)
    requires Chained(h) && WriterOk(h, start, m, wbuf) && e.Mark? && e.pos == |h.flat|
    ensures WriterOk(Then(h, e), start, m[|h.flat| / 65536 := wbuf], wbuf)
  {
    var m' := m[|h.flat| / 65536 := wbuf];
    assert h.flat + [] == h.flat;
    forall i: nat | start / 65536 <= i < |h.flat| / 65536 ensures Full(m', h.flat, i) { assert Full(m, h.flat, i); }
    forall k | 0 <= k < |h.es| + 1 ensures Published(m', h.flat, (h.es + [e])[k]) {
      if k < |h.es| { MarkBefore(h, k); }
    }
  }

  /** Buffers before the reader's position may go. */
  lemma WriterPruned(h: History, start: nat, m: map<nat, seq<byte>>, wbuf: seq<byte>, i: nat, start': nat)
    requires WriterOk(h, start, m, wbuf) && i < start' / 65536 && i < |h.flat| / 65536 && start <= start'
    ensures WriterOk(h, start', m - {i}, wbuf)
  {
    var m' := m - {i};
    forall x: nat | start' / 65536 <= x < |h.flat| / 65536 ensures Full(m', h.flat, x) { assert Full(m, h.flat, x); }
    forall k | 0 <= k < |h.es| ensures Published(m', h.flat, h.es[k]) { assert Published(m, h.flat, h.es[k]); }
  }

  // ---------------------------------------------------------------- the reader

  function NextPos(h: History, r: nat): nat { if r < |h.es| then h.es[r].pos else |h.flat| }

  /** How far the buffer of an announced event is known to be written. */
  function Upto(e: Event): nat { if e.Mark? then e.pos else Lo(e.pos) + 65536 }

  /** Event j was announced; of the events before it only the next one may have been. */
  ghost predicate Ahead(h: History, r: nat, j: int) {
    && r <= j < |h.es| && Width(h.es[j]) > 0 && (r < j ==> h.es[r].Put?)
    && forall k {:trigger Width(h.es[k])} :: r < k < j ==> Width(h.es[k]) == 0
  }

  /** r events are delivered and `got` messages received. Either nothing later has been announced
      (j = -1) and `owed` messages of the last mark are still to be read, or the first message of
      event j was the last one received. */
  datatype Reader = Reader(r: nat, j: int, owed: nat, currPos: nat, endPos: nat, got: nat, buf: Option<seq<byte>>)

  ghost predicate ReaderOk(h: History, start: nat, x: Reader) {
    && x.r <= |h.es| && x.currPos == NextPos(h, x.r) && start <= x.currPos && x.got <= |h.sent|
    && if x.j == -1 then
         && x.buf.None? && x.endPos <= x.currPos && x.got + x.owed == Off(h.es, x.r)
         && (x.owed == 0 || (x.owed == 3 && x.r > 0 && h.es[x.r - 1].Mark?))
       else
         && Ahead(h, x.r, x.j) && x.endPos == h.es[x.j].pos && x.owed == 0 && x.got == Off(h.es, x.j) + 1
         && x.buf.Some? && Upto(h.es[x.j]) <= |h.flat| && Holds(x.buf.value, h.flat, Lo(x.currPos), Upto(h.es[x.j]))
  }

  /** Whatever the writer adds, the reader's view stays right. */
  lemma ReaderKept(h: History, start: nat, x: Reader, e: Event)
    requires ReaderOk(h, start, x) && e.pos == |h.flat|
    ensures ReaderOk(Then(h, e), start, x)
  {
    var h' := Then(h, e);
    assert NextPos(h', x.r) == NextPos(h, x.r);
    OffFrame(h.es, e, x.r);
    if x.j != -1 {
      OffFrame(h.es, e, x.j);
      assert Ahead(h', x.r, x.j);
      HoldsMore(x.buf.value, h.flat, h'.flat[|h.flat|..], Lo(x.currPos), Upto(h.es[x.j]));
      assert h'.flat == h.flat + h'.flat[|h.flat|..];
    }
  }

  /** Entries that send nothing stay within one buffer. */
  lemma {:induction false} SameSlot(h: History, r: nat, j: nat)
    requires Chained(h) && r <= j < |h.es| && forall k {:trigger Width(h.es[k])} :: r <= k < j ==> Width(h.es[k]) == 0
    ensures h.es[r].pos <= h.es[j].pos && h.es[r].pos / 65536 == h.es[j].pos / 65536
    decreases j - r
  {
    if r < j {
      assert EventOk(h, r + 1) && Width(h.es[r]) == 0;
      SameSlot(h, r + 1, j);
    }
  }

  /** Whoever was announced can be read from the published buffers. */
  lemma Available(h: History, start: nat, m: map<nat, seq<byte>>, wbuf: seq<byte>, j: nat)
    requires Chained(h) && WriterOk(h, start, m, wbuf)
    requires j < |h.es| && Width(h.es[j]) > 0 && start / 65536 <= h.es[j].pos / 65536
    ensures var e := h.es[j];
            Upto(e) <= |h.flat| && e.pos / 65536 in m && Holds(m[e.pos / 65536], h.flat, Lo(e.pos), Upto(e))
  {
    assert EventOk(h, j) && Published(m, h.flat, h.es[j]);
    if h.es[j].pos / 65536 < |h.flat| / 65536 { assert Full(m, h.flat, h.es[j].pos / 65536); }
  }

  /** The buffer after a straddling entry is published once anything later was announced. */
  lemma AvailableLater(h: History, start: nat, m: map<nat, seq<byte>>, wbuf: seq<byte>, r: nat, j: nat)
    requires Chained(h) && WriterOk(h, start, m, wbuf) && r < j && Ahead(h, r, j) && Straddles(h.es[r])
    requires start <= h.es[r].pos
    ensures var (e, next) := (h.es[j], h.es[r].pos / 65536 + 1);
            && e.pos / 65536 == next && EndOf(h.es[r]) / 65536 == next && EndOf(h.es[r]) <= e.pos <= Upto(e) <= |h.flat|
            && next in m && Holds(m[next], h.flat, next * 65536, Upto(e))
  {
    assert EventOk(h, r) && EventOk(h, r + 1);
    SameSlot(h, r + 1, j);
    Available(h, start, m, wbuf, j);
  }

  /** Before the announced position the next event is an entry. */
  lemma ReadyIff(h: History, r: nat, j: nat)
    requires Chained(h) && Ahead(h, r, j)
    ensures h.es[r].pos < h.es[j].pos <==> r < j
    ensures r < j ==> EndOf(h.es[r]) == h.es[r + 1].pos <= h.es[j].pos
  {
    if r < j {
      assert EventOk(h, r) && EventOk(h, r + 1);
      EntrySize(h.es[r].bz);
      SameSlot(h, r + 1, j);
    }
  }

  lemma AheadFrom(h: History, r: nat, j: nat)
    requires r <= j < |h.es| && Width(h.es[j]) > 0
    requires forall k {:trigger Width(h.es[k])} :: r <= k < j ==> Width(h.es[k]) == 0
    ensures Ahead(h, r, j)
  {
    assert r < j ==> Width(h.es[r]) == 0;
  }

  lemma AheadNext(h: History, r: nat, j: nat)
    requires Ahead(h, r, j) && r < j
    ensures Ahead(h, r + 1, j)
  {
    AheadFrom(h, r + 1, j);
  }

  /** A message that announces event j: the reader may go on to it. */
  lemma ReceivePos(h: History, start: nat, m: map<nat, seq<byte>>, wbuf: seq<byte>, x: Reader) returns (j: nat)
    requires Chained(h) && WriterOk(h, start, m, wbuf) && ReaderOk(h, start, x) && x.owed == 0
    requires x.currPos >= x.endPos && x.got < |h.sent| && !(x.j != -1 && h.es[x.j].Mark?)
    ensures j < |h.es| && h.sent[x.got] == h.es[j].pos && (x.buf.None? ==> x.currPos / 65536 in m)
    ensures ReaderOk(h, start, x.(j := j, endPos := h.es[j].pos, got := x.got + 1,
                                  buf := if x.buf.None? then Some(m[x.currPos / 65536]) else x.buf))
  {
    if x.j == -1 {
      j := FirstMsg(h, x.r);
      AheadFrom(h, x.r, j);
      SameSlot(h, x.r, j);
      Available(h, start, m, wbuf, j);
    } else {
      ReadyIff(h, x.r, x.j);
      j := FirstMsg(h, x.r + 1);
      assert Ahead(h, x.r, j);
      AvailableLater(h, start, m, wbuf, x.r, j);
      HoldsLess(x.buf.value, h.flat, Lo(x.currPos), Upto(h.es[x.j]), Upto(h.es[j]));
    }
    assert EventOk(h, j);
  }

  /** The message after a mark's position ends the block. */
  lemma ReceiveEnd(h: History, start: nat, x: Reader)
    requires Chained(h) && ReaderOk(h, start, x) && x.j != -1 && h.es[x.j].Mark? && x.currPos >= x.endPos
    ensures x.r == x.j && x.got < |h.sent| && h.sent[x.got] == MIN && h.es[x.r].pos == x.currPos
    ensures ReaderOk(h, start, x.(r := x.r + 1, j := -1, owed := 3, got := x.got + 1, buf := None))
  {
    ReadyIff(h, x.r, x.j);
    assert EventOk(h, x.r) && (x.r + 1 < |h.es| ==> EventOk(h, x.r + 1));
  }

  /** The next message tells which it is. */
  lemma NextMessage(h: History, start: nat, m: map<nat, seq<byte>>, wbuf: seq<byte>, x: Reader) returns (j: nat)
    requires Chained(h) && WriterOk(h, start, m, wbuf) && ReaderOk(h, start, x) && x.owed == 0
    requires x.currPos >= x.endPos && x.got < |h.sent|
    ensures h.sent[x.got] == MIN ==>
              && x.r < |h.es| && h.es[x.r].Mark? && h.es[x.r].pos == x.currPos
              && ReaderOk(h, start, x.(r := x.r + 1, j := -1, owed := 3, got := x.got + 1, buf := None))
    ensures h.sent[x.got] != MIN ==>
              && h.sent[x.got] >= 0 && (x.buf.None? ==> x.currPos / 65536 in m)
              && ReaderOk(h, start, x.(j := j, endPos := h.sent[x.got], got := x.got + 1,
                                       buf := if x.buf.None? then Some(m[x.currPos / 65536]) else x.buf))
  {
    j := 0;
    if x.j != -1 && h.es[x.j].Mark? { ReceiveEnd(h, start, x); } else { j := ReceivePos(h, start, m, wbuf, x); }
  }

  /** With nothing left to receive only entries are still to come. */
  lemma NothingAnnounced(h: History, start: nat, x: Reader)
    requires Chained(h) && ReaderOk(h, start, x) && x.owed == 0 && x.currPos >= x.endPos && x.got >= |h.sent|
    ensures forall k {:trigger h.es[k]} :: x.r <= k < |h.es| ==> h.es[k].Put?
  {
    if x.j == -1 {
      Silent(h, x.r);
    } else {
      ReadyIff(h, x.r, x.j);
      assert EventOk(h, x.r);
      Silent(h, x.r + 1);
    }
  }

  /** What a buffer yields at the position of an entry that starts in it. */
  lemma ReadWhole(h: History, k: nat, buf: seq<byte>, upto: nat)
    requires Chained(h) && k < |h.es| && h.es[k].Put? && upto <= |h.flat| && Holds(buf, h.flat, Lo(h.es[k].pos), upto)
    requires EndOf(h.es[k]) <= upto || upto == Lo(h.es[k].pos) + 65536
    ensures var (e, off) := (h.es[k], h.es[k].pos % 65536);
            && off + 5 <= 65536 && EntryLen(buf[off..]) == |e.bz|
            && (off + |e.bz| <= 65536 ==> buf[off..off + |e.bz|] == e.bz)
            && (off + |e.bz| >= 65536 ==> buf[off..] == e.bz[..65536 - off])
  {
    var (e, off) := (h.es[k], h.es[k].pos % 65536);
    SameBytes(h, k, buf, upto);
    SameLen(buf, off, e.bz, if |e.bz| <= 65536 - off then |e.bz| else 65536 - off);
  }

  /** Entries start at multiples of eight, so the length field never crosses a buffer. */
  lemma Aligned(pos: nat)
    requires pos % 8 == 0
    ensures pos % 65536 + 8 <= 65536
  {
  }

  /** What the buffer holds of the entry. */
  lemma SameBytes(h: History, k: nat, buf: seq<byte>, upto: nat)
    requires Chained(h) && k < |h.es| && h.es[k].Put? && upto <= |h.flat| && Holds(buf, h.flat, Lo(h.es[k].pos), upto)
    requires EndOf(h.es[k]) <= upto || upto == Lo(h.es[k].pos) + 65536
    ensures var (e, off) := (h.es[k], h.es[k].pos % 65536);
            var n := if |e.bz| <= 65536 - off then |e.bz| else 65536 - off;
            |buf| == 65536 && 5 <= n && |e.bz| >= 5 && buf[off..off + n] == e.bz[..n] && EntryLen(e.bz) == |e.bz|
  {
    var (e, lo, off) := (h.es[k], Lo(h.es[k].pos), h.es[k].pos % 65536);
    assert EventOk(h, k);
    Aligned(e.pos);
    EntrySize(e.bz);
    HeldSlice(buf, h.flat, lo, upto, off, e.pos, e.bz, if |e.bz| <= 65536 - off then |e.bz| else 65536 - off);
  }

  lemma HeldSlice(buf: seq<byte>, flat: seq<byte>, lo: nat, upto: nat, off: nat, pos: nat, bz: seq<byte>, n: nat)
    requires upto <= |flat| && Holds(buf, flat, lo, upto) && pos == lo + off && n <= |bz| && off + n <= 65536
    requires pos + n <= upto
    requires pos + |bz| <= |flat| && flat[pos..pos + |bz|] == bz
    ensures |buf| == 65536 && buf[off..off + n] == bz[..n]
  {
    forall i | 0 <= i < n ensures buf[off + i] == bz[i] {
      assert flat[pos..pos + |bz|][i] == flat[pos + i];
      assert buf[pos + i - lo] == flat[pos + i];
    }
  }

  lemma SameLen(buf: seq<byte>, off: nat, bz: seq<byte>, n: nat)
    requires 5 <= n <= |bz| && off + n <= |buf| && buf[off..off + n] == bz[..n]
    ensures EntryLen(buf[off..]) == EntryLen(bz)
  {
    var a := buf[off..];
    assert a[0] == bz[..n][0] && a[1] == bz[..n][1] && a[2] == bz[..n][2] && a[3] == bz[..n][3] && a[4] == bz[..n][4];
  }

  /** The second part of an entry that crosses into the next buffer. */
  lemma ReadRest(h: History, k: nat, next: seq<byte>, upto: nat)
    requires Chained(h) && k < |h.es| && Straddles(h.es[k]) && EndOf(h.es[k]) <= upto <= |h.flat|
    requires Holds(next, h.flat, Lo(h.es[k].pos) + 65536, upto)
    ensures var (e, copied) := (h.es[k], 65536 - h.es[k].pos % 65536);
            copied <= |e.bz| <= 65536 + copied && next[..|e.bz| - copied] == e.bz[copied..]
  {
    var (e, copied) := (h.es[k], 65536 - h.es[k].pos % 65536);
    assert EventOk(h, k);
    forall i | 0 <= i < |e.bz| - copied ensures next[i] == e.bz[copied + i] {
      assert h.flat[e.pos..EndOf(e)][copied + i] == h.flat[e.pos + copied + i];
    }
  }

  /** The entry the reader stands at, when something later was announced. */
  lemma NextEntry(h: History, start: nat, x: Reader)
    requires Chained(h) && ReaderOk(h, start, x) && x.currPos < x.endPos
    ensures x.j != -1 && x.r < x.j && x.buf.Some? && |x.buf.value| == 65536
    ensures var (e, off, buf) := (h.es[x.r], x.currPos % 65536, x.buf.value);
            && e.Put? && e.pos == x.currPos && off + 5 <= 65536 && EntryLen(buf[off..]) == |e.bz|
            && if off + |e.bz| < 65536
               then buf[off..off + |e.bz|] == e.bz && ReaderOk(h, start, x.(r := x.r + 1, currPos := EndOf(e)))
               else buf[off..] == e.bz[..65536 - off]
  {
    ReadyIff(h, x.r, x.j);
    var e := h.es[x.r];
    ReadWhole(h, x.r, x.buf.value, Upto(h.es[x.j]));
    if x.currPos % 65536 + |e.bz| < 65536 {
      assert EventOk(h, x.r) && EndOf(e) / 65536 == e.pos / 65536;
      AheadNext(h, x.r, x.j);
    }
  }

  /** Its continuation in the next buffer. */
  lemma NextBuffer(h: History, start: nat, m: map<nat, seq<byte>>, wbuf: seq<byte>, x: Reader, start': nat)
    requires start' == start || start' <= (x.currPos / 65536 + 1) * 65536
    requires Chained(h) && WriterOk(h, start, m, wbuf) && ReaderOk(h, start, x) && x.j != -1 && x.r < x.j
    requires Straddles(h.es[x.r])
    ensures var idx: nat, copied: nat, e := x.currPos / 65536 + 1, 65536 - x.currPos % 65536, h.es[x.r];
            && idx in m && |m[idx]| == 65536 && idx <= |h.flat| / 65536 && copied <= |e.bz| <= 65536 + copied
            && m[idx][..|e.bz| - copied] == e.bz[copied..]
            && ReaderOk(h, start', x.(r := x.r + 1, currPos := EndOf(e), buf := Some(m[idx])))
  {
    var e := h.es[x.r];
    AvailableLater(h, start, m, wbuf, x.r, x.j);
    assert EndOf(e) == h.es[x.r + 1].pos by { assert EventOk(h, x.r + 1); }
    assert Lo(EndOf(e)) == Lo(e.pos) + 65536 == (x.currPos / 65536 + 1) * 65536;
    ReadRest(h, x.r, m[x.currPos / 65536 + 1], Upto(h.es[x.j]));
    AheadNext(h, x.r, x.j);
  }

  // ---------------------------------------------------------------- lookups

  lemma SameBuffer(pos: nat, size: nat, end: nat)
    requires Lo(end) <= pos && pos + size <= end
    ensures Lo(pos) == Lo(end) && pos % 65536 + size < 65536
  {
  }

  /** An entry that starts in the writer's buffer lies in it. */
  lemma InCurrent(h: History, k: nat, wbuf: seq<byte>)
    requires Chained(h) && Holds(wbuf, h.flat, Lo(|h.flat|), |h.flat|) && k < |h.es| && h.es[k].Put?
    requires h.es[k].pos >= Lo(|h.flat|)
    ensures var (e, off) := (h.es[k], h.es[k].pos % 65536);
            && EndOf(e) > Lo(|h.flat|) && off + |e.bz| <= 65536 && off + 5 <= 65536 && EntryLen(wbuf[off..]) == |e.bz|
            && wbuf[off..off + |e.bz|] == e.bz
  {
    assert EventOk(h, k);
    EntrySize(h.es[k].bz);
    SameBuffer(h.es[k].pos, |h.es[k].bz|, |h.flat|);
    ReadWhole(h, k, wbuf, |h.flat|);
  }

  /** An entry that starts in a published buffer. */
  lemma FirstPart(h: History, start: nat, m: map<nat, seq<byte>>, wbuf: seq<byte>, k: nat)
    requires Chained(h) && WriterOk(h, start, m, wbuf) && k < |h.es| && h.es[k].Put?
    requires start <= h.es[k].pos < Lo(|h.flat|)
    ensures var idx: nat, off: nat, e := h.es[k].pos / 65536, h.es[k].pos % 65536, h.es[k];
            && idx in m && |m[idx]| == 65536 && off + 5 <= 65536 && EntryLen(m[idx][off..]) == |e.bz|
            && (off + |e.bz| <= 65536 ==> m[idx][off..off + |e.bz|] == e.bz)
            && (off + |e.bz| >= 65536 ==> m[idx][off..] == e.bz[..65536 - off])
  {
    var idx: nat := h.es[k].pos / 65536;
    assert Full(m, h.flat, idx);
    ReadWhole(h, k, m[idx], idx * 65536 + 65536);
  }

  /** Its continuation, in the writer's buffer or in the next published one. */
  lemma SecondPart(h: History, start: nat, m: map<nat, seq<byte>>, wbuf: seq<byte>, k: nat)
    requires Chained(h) && WriterOk(h, start, m, wbuf) && k < |h.es| && h.es[k].Put?
    requires start <= h.es[k].pos < Lo(|h.flat|)
    requires h.es[k].pos % 65536 + |h.es[k].bz| > 65536
    ensures var idx: nat, copied: nat, e := h.es[k].pos / 65536, 65536 - h.es[k].pos % 65536, h.es[k];
            && copied <= |e.bz| <= 65536 + copied && |wbuf| == 65536
            && if EndOf(e) > Lo(|h.flat|) then wbuf[..|e.bz| - copied] == e.bz[copied..]
               else idx + 1 in m && |m[idx + 1]| == 65536 && m[idx + 1][..|e.bz| - copied] == e.bz[copied..]
  {
    var idx: nat, e := h.es[k].pos / 65536, h.es[k];
    assert EventOk(h, k);
    assert idx * 65536 + 65536 < EndOf(e) < idx * 65536 + 2 * 65536;
    if EndOf(e) > Lo(|h.flat|) {
      assert |h.flat| / 65536 == idx + 1;
      ReadRest(h, k, wbuf, |h.flat|);
    } else {
      assert Full(m, h.flat, idx + 1);
      ReadRest(h, k, m[idx + 1], idx * 65536 + 2 * 65536);
    }
  }

  // ---------------------------------------------------------------- what is recycled

  /** The entries that memory keeps start at the initial start, or so many buffers before the reader's. */
  function KeptFrom(base: nat, currPos: nat, bufMargin: nat): nat {
    var from := Lo(currPos) - (bufMargin / 65536 + 1) * 65536;
    if from > base then from else base
  }

  /** Exactly the buffers before that are gone. */
  ghost predicate Recycled(base: nat, start: nat, currPos: nat, bufMargin: nat, m: map<nat, seq<byte>>) {
    start == KeptFrom(base, currPos, bufMargin) && forall i {:trigger i in m} :: i in m ==> start / 65536 <= i
  }

  /** So nothing goes within `bufMargin` bytes before the reader's buffer, and what lies a buffer further
      back does. */
  lemma WithinMargin(base: nat, start: nat, currPos: nat, bufMargin: nat, m: map<nat, seq<byte>>)
    requires Recycled(base, start, currPos, bufMargin, m)
    ensures start == base || start + bufMargin < Lo(currPos)
    ensures base <= start && Lo(currPos) <= start + bufMargin + 65536
  {
  }

  lemma StartBehind(h: History, start: nat, x: Reader)
    requires Chained(h) && ReaderOk(h, start, x)
    ensures start / 65536 <= |h.flat| / 65536
  {
    if x.r < |h.es| { MarkBefore(h, x.r); }
  }

  /** Going on to the next buffer. */
  lemma RecycleNext(base: nat, start: nat, currPos: nat, bufMargin: nat, m: map<nat, seq<byte>>, removeIdx: int,
                    start': nat, m': map<nat, seq<byte>>, currPos': nat)
    requires Recycled(base, start, currPos, bufMargin, m) && removeIdx == currPos / 65536 - bufMargin / 65536 - 1
    requires start' == (if removeIdx >= 0 && start < (removeIdx + 1) * 65536 then (removeIdx + 1) * 65536 else start)
    requires forall i {:trigger i in m'} :: i in m' ==> i in m && i != removeIdx
    requires Lo(currPos') == currPos / 65536 * 65536 + 65536
    ensures Recycled(base, start', currPos', bufMargin, m')
  {
  }

  /** Staying in the buffer. */
  lemma RecycleSame(base: nat, start: nat, currPos: nat, bufMargin: nat, m: map<nat, seq<byte>>, size: nat)
    requires Recycled(base, start, currPos, bufMargin, m) && currPos % 65536 + size < 65536
    ensures Recycled(base, start, currPos + size, bufMargin, m)
  {
    assert Lo(currPos + size) == Lo(currPos);
  }

  lemma NextLo(h: History, k: nat)
    requires Chained(h) && k < |h.es| && Straddles(h.es[k])
    ensures Lo(EndOf(h.es[k])) == h.es[k].pos / 65536 * 65536 + 65536
  {
    assert EventOk(h, k);
  }

  /** What the delivery of an entry leaves of the buffers. */
  ghost predicate Released(e: Event, bufMargin: nat, start: nat, m: map<nat, seq<byte>>, start': nat,
                           m': map<nat, seq<byte>>) {
    if !Straddles(e) then start' == start && m' == m
    else
      var removeIdx := e.pos / 65536 - bufMargin / 65536 - 1;
      start' == StartAfter(start, removeIdx) && m' == MapAfter(m, removeIdx)
  }

  /** Start and buffers once buffer removeIdx, if there is such a buffer, is gone. */
  function StartAfter(start: nat, removeIdx: int): nat {
    if removeIdx >= 0 && start < (removeIdx + 1) * 65536 then (removeIdx + 1) * 65536 else start
  }
  function MapAfter(m: map<nat, seq<byte>>, removeIdx: int): map<nat, seq<byte>> {
    if removeIdx >= 0 then m - {removeIdx} else m
  }

  lemma DeliveryRecycles(h: History, k: nat, start: nat, bufMargin: nat, m: map<nat, seq<byte>>, start': nat,
                         m': map<nat, seq<byte>>)
    requires Chained(h) && k < |h.es| && h.es[k].Put? && Recycled(h.base, start, h.es[k].pos, bufMargin, m)
    requires Released(h.es[k], bufMargin, start, m, start', m')
    ensures Recycled(h.base, start', EndOf(h.es[k]), bufMargin, m')
  {
    var e := h.es[k];
    if Straddles(e) {
      NextLo(h, k);
      RecycleNext(h.base, start, e.pos, bufMargin, m, e.pos / 65536 - bufMargin / 65536 - 1, start', m', EndOf(e));
    } else {
      RecycleSame(h.base, start, e.pos, bufMargin, m, |e.bz|);
    }
  }

  lemma {:induction false} PosFromBase(h: History, k: nat)
    requires Chained(h) && k < |h.es|
    ensures h.base <= h.es[k].pos
  {
    assert EventOk(h, k);
    if k > 0 {
      assert EventOk(h, k - 1);
      PosFromBase(h, k - 1);
    }
  }

  datatype Read = Blocked | EndOfBlock(filePos: nat) | Delivered(filePos: nat, bz: seq<byte>)

  datatype Lookup = InDisk | NotAccessed | Found(bz: seq<byte>)

  /** `EntryBuffer` with its writer and its reader. */
  class EntryBuffer {
    // shared
    var start: nat
    var end: nat
    var bufMap: map<nat, seq<byte>>
    var freeList: seq<seq<byte>>
    var chan: seq<int>
    // writer
    var writerBuf: seq<byte>
    // reader
    var readerBuf: Option<seq<byte>>
    var endPos: nat
    var currPos: nat
    const bufMargin: nat
    // history
    ghost var h: History
    ghost var delivered: nat
    ghost var announced: int
    ghost var owed: nat
    ghost var got: nat

    ghost function Rd(): Reader
      reads this
    {
      Reader(delivered, announced, owed, currPos, endPos, got, readerBuf)
    }

    ghost predicate Valid()
      reads this
    {
      && end == |h.flat| && Chained(h) && WriterOk(h, start, bufMap, writerBuf) && ReaderOk(h, start, Rd())
      && chan == h.sent[got..] && Sized()
    }

    /** Exactly the buffers that lie too far behind the reader are gone. */
    ghost predicate Trimmed()
      reads this
    {
      Recycled(h.base, start, currPos, bufMargin, bufMap)
    }

    /** Memory keeps everything from the initial start on that lies within `bufMargin` bytes before the
        reader's buffer, and at most a buffer more. */
    ghost predicate Window()
      reads this
    {
      && (start == h.base || start + bufMargin < Lo(currPos)) && Lo(currPos) <= start + bufMargin + 65536
      && forall i {:trigger i in bufMap} :: i in bufMap ==> start <= i * 65536 + 65535
    }

    ghost predicate Sized()
      reads this
    {
      forall k :: 0 <= k < |freeList| ==> |freeList[k]| == 65536
    }

    ghost predicate SizedMap()
      reads this
    {
      forall i :: i in bufMap ==> |bufMap[i]| == 65536
    }

    constructor (start: nat, bufMargin: nat)
      requires start % 8 == 0
      ensures Valid() && SizedMap() && Trimmed() && h.es == [] && delivered == 0 && owed == 0
      ensures h.base == this.start == start && this.bufMargin == bufMargin
    {
      this.start, this.end, this.endPos, this.currPos := start, start, start, start;
      this.bufMargin := bufMargin;
      bufMap, freeList, chan := map[], [], [];
      writerBuf, readerBuf := seq(65536, i => 0), None;
      h := History([], start, seq(start, i => 0), []);
      delivered, announced, owed, got := 0, -1, 0, 0;
    }

    method AllocateBigBuf() returns (buf: seq<byte>)
      requires Sized()
      modifies this`freeList
      ensures Sized() && |buf| == 65536
    {
      if freeList != [] {
        buf := freeList[|freeList| - 1];
        freeList := freeList[..|freeList| - 1];
      } else {
        buf := seq(65536, i => 0);
      }
    }

    /** `append`: the position of the entry, or None when it is larger than a buffer. */
    method Append(bz: seq<byte>) returns (pos: Option<nat>)
      requires Valid() && SizedMap() && Trimmed() && IsEntry(bz)
      modifies this`writerBuf, this`bufMap, this`freeList, this`chan, this`end, this`h
      ensures Valid() && SizedMap() && Trimmed()
      ensures if |bz| > 65536 then pos == None && h == old(h)
          else pos == Some(old(end)) && h == Then(old(h), Put(old(end), bz))
    {
      if |bz| > 65536 { return None; }
      pos := Some(end);
      StartBehind(h, start, Rd());
      if end % 65536 + |bz| < 65536 { AppendWithin(bz); } else { AppendAcross(bz); }
    }

    /** The current buffer is large enough. */
    method AppendWithin(bz: seq<byte>)
      requires Valid() && IsEntry(bz) && end % 65536 + |bz| < 65536
      modifies this`writerBuf, this`end, this`h
      ensures Valid() && h == Then(old(h), Put(old(end), bz))
    {
      ghost var e := Put(end, bz);
      var offset := end % 65536;
      ChainedMore(h, e);
      ReaderKept(h, start, Rd(), e);
      WriteWithin(h, start, bufMap, writerBuf, bz);
      writerBuf := writerBuf[..offset] + bz + writerBuf[offset + |bz|..];
      end := end + |bz|;
      h := Then(h, e);
    }

    /** The entry fills the current buffer; the rest of it starts a new one. */
    method AppendAcross(bz: seq<byte>)
      requires Valid() && SizedMap() && IsEntry(bz) && |bz| <= 65536 <= end % 65536 + |bz|
      modifies this`writerBuf, this`bufMap, this`freeList, this`chan, this`end, this`h
      ensures Valid() && SizedMap() && h == Then(old(h), Put(old(end), bz))
      ensures bufMap.Keys == old(bufMap.Keys) + {old(end) / 65536}
    {
      ghost var e := Put(end, bz);
      var (idx, offset) := (end / 65536, end % 65536);
      ChainedMore(h, e);
      ReaderKept(h, start, Rd(), e);
      var newBuf := AllocateBigBuf();
      var done, next := Spill(bz, newBuf, writerBuf, offset);
      WriteAcross(h, start, bufMap, writerBuf, bz, done, next);
      bufMap := bufMap[idx := done];
      writerBuf := next;
      chan := chan + [end];
      end := end + |bz|;
      h := Then(h, e);
    }

    /** Distribute an entry over the current and a new buffer, through the new buffer. */
    static method Spill(bz: seq<byte>, newBuf: seq<byte>, currBuf: seq<byte>, offset: nat)
      returns (done: seq<byte>, next: seq<byte>)
      requires |newBuf| == |currBuf| == 65536 && offset < 65536 && |bz| <= 65536 <= offset + |bz|
      ensures |done| == |next| == 65536
      ensures done == currBuf[..offset] + bz[..65536 - offset]
      ensures next[..|bz| - (65536 - offset)] == bz[65536 - offset..]
    {
      var copied := 65536 - offset;
      var dumped := bz + newBuf[|bz|..];
      done := currBuf[..offset] + dumped[..copied];
      next := dumped[copied..|bz|] + dumped[|bz| - copied..];
    }

    /** `end_block` */
    method EndBlock(donePos: int, doneSn: int, snEnd: int)
      requires Valid() && SizedMap() && Trimmed()
      modifies this`bufMap, this`chan, this`h
      ensures Valid() && SizedMap() && Trimmed() && h == Then(old(h), Mark(old(end), donePos, doneSn, snEnd))
    {
      ghost var e := Mark(end, donePos, doneSn, snEnd);
      ChainedMore(h, e);
      ReaderKept(h, start, Rd(), e);
      WriteMark(h, start, bufMap, writerBuf, e);
      StartBehind(h, start, Rd());
      bufMap := bufMap[end / 65536 := writerBuf];
      chan := chan + [end, MIN, donePos, doneSn, snEnd];
      h := Then(h, e);
    }

    /** One turn of the waiting loop; true at the end of a block. */
    method TakeMessage() returns (endOfBlock: bool)
      requires Valid() && owed == 0 && currPos >= endPos && chan != []
      modifies this`chan, this`endPos, this`readerBuf, this`delivered, this`announced, this`owed, this`got
      ensures Valid() && |chan| < |old(chan)|
      ensures if endOfBlock then delivered == old(delivered) + 1 <= |h.es| && owed == 3
                                 && h.es[old(delivered)].Mark? && h.es[old(delivered)].pos == currPos
              else delivered == old(delivered) && owed == 0
    {
      var pos := chan[0];
      assert pos == h.sent[got];
      ghost var j := NextMessage(h, start, bufMap, writerBuf, Rd());
      endOfBlock := pos == MIN;
      if endOfBlock { BlockEnds(); } else { Announced(pos, j); }
    }

    /** The message that ends a block. */
    method BlockEnds()
      requires Valid() && chan != [] && delivered < |h.es|
      requires ReaderOk(h, start, Rd().(r := delivered + 1, j := -1, owed := 3, got := got + 1, buf := None))
      modifies this`chan, this`readerBuf, this`delivered, this`announced, this`owed, this`got
      ensures Valid() && |chan| < |old(chan)| && delivered == old(delivered) + 1 && owed == 3
    {
      assert chan[1..] == h.sent[got + 1..];
      chan, got, readerBuf := chan[1..], got + 1, None;
      delivered, announced, owed := delivered + 1, -1, 3;
    }

    /** The message that announces the position of event j. */
    method Announced(pos: nat, ghost j: nat)
      requires Valid() && chan != [] && (readerBuf.None? ==> currPos / 65536 in bufMap)
      requires ReaderOk(h, start, Rd().(j := j, endPos := pos, got := got + 1,
                                        buf := if readerBuf.None? then Some(bufMap[currPos / 65536]) else readerBuf))
      modifies this`chan, this`endPos, this`readerBuf, this`announced, this`got
      ensures Valid() && |chan| < |old(chan)|
    {
      assert chan[1..] == h.sent[got + 1..];
      chan, got, endPos := chan[1..], got + 1, pos;
      if readerBuf.None? { readerBuf := Some(bufMap[currPos / 65536]); }
      announced := j;
    }

    /** `read_next_entry`: exactly the next event, unless nothing announces it yet; while the end
        of a block is ahead the reader is never blocked. Buffers go exactly when they lie more than
        `bufMargin` bytes, rounded up to whole buffers, behind the reader's. */
    method ReadNextEntry() returns (res: Read)
      requires Valid() && SizedMap() && Trimmed() && owed == 0
      modifies this`chan, this`endPos, this`readerBuf, this`delivered, this`announced, this`owed, this`got,
               this`currPos, this`start, this`bufMap, this`freeList
      ensures Valid() && SizedMap() && Trimmed() && Window()
      ensures res.Blocked? ==> delivered == old(delivered) && owed == 0
                               && forall k {:trigger h.es[k]} :: delivered <= k < |h.es| ==> h.es[k].Put?
      ensures !res.Blocked? ==> delivered == old(delivered) + 1 <= |h.es|
      ensures res.Delivered? ==> h.es[old(delivered)] == Put(res.filePos, res.bz) && owed == 0
      ensures res.EndOfBlock? ==> h.es[old(delivered)].Mark? && h.es[old(delivered)].pos == res.filePos && owed == 3
    {
      res := TakeNext();
      if res.Delivered? { DeliveryRecycles(h, old(delivered), old(start), bufMargin, old(bufMap), start, bufMap); }
      WithinMargin(h.base, start, currPos, bufMargin, bufMap);
    }

    /** The waiting loop and the delivery. */
    method TakeNext() returns (res: Read)
      requires Valid() && SizedMap() && owed == 0
      modifies this`chan, this`endPos, this`readerBuf, this`delivered, this`announced, this`owed, this`got,
               this`currPos, this`start, this`bufMap, this`freeList
      ensures Valid() && SizedMap()
      ensures res.Blocked? ==> delivered == old(delivered) && owed == 0
                               && forall k {:trigger h.es[k]} :: delivered <= k < |h.es| ==> h.es[k].Put?
      ensures !res.Blocked? ==> delivered == old(delivered) + 1 <= |h.es|
      ensures res.EndOfBlock? ==> h.es[old(delivered)].Mark? && h.es[old(delivered)].pos == res.filePos && owed == 3
      ensures res.Delivered? ==>
                && h.es[old(delivered)] == Put(res.filePos, res.bz) && owed == 0
                && h.es[old(delivered)].pos == old(currPos) && currPos == EndOf(h.es[old(delivered)])
                && Released(h.es[old(delivered)], bufMargin, old(start), old(bufMap), start, bufMap)
      ensures !res.Delivered? ==> start == old(start) && bufMap == old(bufMap) && currPos == old(currPos)
    {
      var filePos := currPos;
      while currPos >= endPos
        invariant Valid() && SizedMap() && owed == 0 && delivered == old(delivered) && currPos == filePos
        invariant start == old(start) && bufMap == old(bufMap)
        decreases |chan|
      {
        if chan == [] {
          NothingAnnounced(h, start, Rd());
          return Blocked;
        }
        var endOfBlock := TakeMessage();
        if endOfBlock { return EndOfBlock(filePos); }
      }
      var bz := Deliver();
      return Delivered(filePos, bz);
    }

    /** Read the entry at the current position. */
    method Deliver() returns (bz: seq<byte>)
      requires Valid() && SizedMap() && owed == 0 && currPos < endPos
      modifies this`readerBuf, this`delivered, this`currPos, this`start, this`bufMap, this`freeList
      ensures Valid() && SizedMap() && delivered == old(delivered) + 1 <= |h.es|
      ensures h.es[old(delivered)] == Put(old(currPos), bz) && currPos == EndOf(h.es[old(delivered)])
      ensures Released(h.es[old(delivered)], bufMargin, old(start), old(bufMap), start, bufMap)
    {
      NextEntry(h, start, Rd());
      ghost var e := h.es[delivered];
      var offset := currPos % 65536;
      var size := LenAt(readerBuf.value, offset, |e.bz|);
      if offset + size < 65536 {
        bz := DeliverWithin(offset, size);
      } else {
        bz := DeliverAcross(offset, size);
      }
      Advance(size);
    }

    /** The entry lies in the reader's buffer. */
    method DeliverWithin(offset: nat, size: nat) returns (bz: seq<byte>)
      requires Valid() && delivered < |h.es| && h.es[delivered].Put? && h.es[delivered].pos == currPos
      requires offset == currPos % 65536 && size == |h.es[delivered].bz| && offset + size < 65536
      requires readerBuf.Some? && |readerBuf.value| == 65536
      requires readerBuf.value[offset..offset + size] == h.es[delivered].bz
      requires ReaderOk(h, start, Rd().(r := delivered + 1, currPos := EndOf(h.es[delivered])))
      ensures bz == h.es[delivered].bz && Moved(currPos + size) && currPos + size == EndOf(h.es[delivered])
      ensures Released(h.es[delivered], bufMargin, start, bufMap, start, bufMap)
    {
      bz := readerBuf.value[offset..offset + size];
    }

    /** Everything is ready for the reader to be at this position, one event further. */
    ghost predicate Moved(pos: nat)
      reads this
    {
      && end == |h.flat| && Chained(h) && WriterOk(h, start, bufMap, writerBuf) && Sized()
      && ReaderOk(h, start, Rd().(r := delivered + 1, currPos := pos)) && chan == h.sent[got..]
    }

    /** Go on to the next event. */
    method Advance(size: nat)
      requires Moved(currPos + size)
      modifies this`delivered, this`currPos
      ensures Valid() && delivered == old(delivered) + 1
    {
      currPos := currPos + size;
      delivered := delivered + 1;
    }

    /** The entry goes on in the next buffer, which becomes the reader's. */
    method DeliverAcross(offset: nat, size: nat) returns (bz: seq<byte>)
      requires Valid() && SizedMap() && announced != -1 && delivered < announced && readerBuf.Some?
      requires delivered < |h.es|
      requires offset == currPos % 65536 && Straddles(h.es[delivered]) && size == |h.es[delivered].bz|
      requires |readerBuf.value| == 65536 && readerBuf.value[offset..] == h.es[delivered].bz[..65536 - offset]
      modifies this`readerBuf, this`start, this`bufMap, this`freeList
      ensures SizedMap() && bz == h.es[delivered].bz && currPos + size == EndOf(h.es[delivered])
      ensures Moved(currPos + size)
      ensures Released(h.es[delivered], bufMargin, old(start), old(bufMap), start, bufMap)
    {
      ghost var x := Rd();
      var idx := currPos / 65536;
      var removeIdx := idx - bufMargin / 65536 - 1;
      NextBuffer(h, start, bufMap, writerBuf, x, StartAfter(start, removeIdx));
      var next := GetAndRemoveBuf(idx + 1, removeIdx);
      bz := readerBuf.value[offset..] + next[..size - (65536 - offset)];
      Joined(h.es[delivered].bz, readerBuf.value[offset..], next[..size - (65536 - offset)], 65536 - offset);
      readerBuf := Some(next);
    }

    method GetAndRemoveBuf(idx: nat, removeIdx: int) returns (res: seq<byte>)
      requires idx in bufMap && removeIdx < idx <= |h.flat| / 65536 && Sized() && SizedMap()
      requires WriterOk(h, start, bufMap, writerBuf)
      modifies this`start, this`bufMap, this`freeList
      ensures res == old(bufMap)[idx] && Sized() && SizedMap() && WriterOk(h, start, bufMap, writerBuf)
      ensures start == old(start) || start <= idx * 65536
      ensures start == StartAfter(old(start), removeIdx) && bufMap == MapAfter(old(bufMap), removeIdx)
    {
      res := bufMap[idx];
      if removeIdx >= 0 {
        var newStart := (removeIdx + 1) * 65536;
        var start' := if start < newStart then newStart else start;
        WriterPruned(h, start, bufMap, writerBuf, removeIdx, start');
        start := start';
        if removeIdx in bufMap {
          freeList := freeList + [bufMap[removeIdx]];
          bufMap := bufMap - {removeIdx};
        } else {
          assert bufMap - {removeIdx} == bufMap;
        }
      }
    }

    /** `read_extra_info`: the three values of the mark just read. */
    method ReadExtraInfo() returns (donePos: int, doneSn: int, snEnd: int)
      requires Valid() && owed == 3
      modifies this`chan, this`owed, this`got
      ensures Valid() && owed == 0 && 0 < delivered <= |h.es|
      ensures h.es[delivered - 1].Mark? && h.es[delivered - 1] == Mark(h.es[delivered - 1].pos, donePos, doneSn, snEnd)
    {
      assert EventOk(h, delivered - 1);
      donePos, doneSn, snEnd := chan[0], chan[1], chan[2];
      assert chan[3..] == h.sent[got + 3..];
      chan := chan[3..];
      owed, got := 0, got + 3;
    }

    /** `get_entry_bz_at`, with the writer's current buffer or without: the entry at that position,
        unless it was handed over to the disk or reaches into a buffer that was not given. */
    method GetEntryBzAt(filePos: nat, haveCurr: bool, ghost k: nat) returns (res: Lookup)
      requires Valid() && Trimmed() && k < |h.es| && h.es[k].Put? && h.es[k].pos == filePos
      ensures res == if filePos < start then InDisk
                     else if !haveCurr && EndOf(h.es[k]) > Lo(end) then NotAccessed
                     else Found(h.es[k].bz)
      ensures haveCurr && currPos <= filePos + bufMargin ==> res == Found(h.es[k].bz)
      ensures filePos + bufMargin + 65536 < Lo(currPos) ==> res == InDisk
    {
      WithinMargin(h.base, start, currPos, bufMargin, bufMap);
      PosFromBase(h, k);
      var (idx, offset) := (filePos / 65536, filePos % 65536);
      if filePos < start { return InDisk; }
      var currBufStart := end / 65536 * 65536;
      MarkBefore(h, k);
      if filePos >= currBufStart {
        InCurrent(h, k, writerBuf);
        if !haveCurr { return NotAccessed; }
        var size := EntryLen(writerBuf[offset..]);
        return Found(writerBuf[offset..offset + size]);
      }
      res := FromPublished(filePos, haveCurr, k);
    }

    /** The entry starts in a published buffer. */
    method FromPublished(filePos: nat, haveCurr: bool, ghost k: nat) returns (res: Lookup)
      requires Valid() && k < |h.es| && h.es[k].Put? && h.es[k].pos == filePos && start <= filePos < Lo(end)
      ensures res == if !haveCurr && EndOf(h.es[k]) > Lo(end) then NotAccessed else Found(h.es[k].bz)
    {
      var idx: nat, offset: nat, currBufStart: nat := filePos / 65536, filePos % 65536, end / 65536 * 65536;
      ghost var e := h.es[k];
      FirstPart(h, start, bufMap, writerBuf, k);
      var target := bufMap[idx];
      var size := LenAt(target, offset, |e.bz|);
      if offset + size <= 65536 {
        EndsWithin(filePos, size, end);
        return Found(target[offset..offset + size]);
      }
      if filePos + size > currBufStart && !haveCurr { return NotAccessed; }
      SecondPart(h, start, bufMap, writerBuf, k);
      var rest: nat := size - (65536 - offset);
      var second := if filePos + size > currBufStart then writerBuf[..rest] else bufMap[idx + 1][..rest];
      Joined(e.bz, target[offset..], second, 65536 - offset);
      res := Found(target[offset..] + second);
    }
  }

  /** The length of the entry at an offset of a buffer. */
  method LenAt(buf: seq<byte>, offset: nat, ghost n: nat) returns (size: nat)
    requires offset + 5 <= |buf| && EntryLen(buf[offset..]) == n
    ensures size == n
  {
    size := EntryLen(buf[offset..]);
  }

  /** What ends in its buffer, before the current one, ends before the current one. */
  lemma EndsWithin(pos: nat, size: nat, end: nat)
    requires pos < Lo(end) && pos % 65536 + size <= 65536
    ensures pos + size <= Lo(end)
  {
  }

  lemma Joined(bz: seq<byte>, a: seq<byte>, b: seq<byte>, n: nat)
    requires n <= |bz| && a == bz[..n] && b == bz[n..]
    ensures a + b == bz
  {
  }
}
