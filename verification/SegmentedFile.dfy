/** The head-prunable file: one append-only byte string kept in segments. A slice that crosses the
    end of its segment stays in that segment as a whole; the next segment starts with as many
    placeholder bytes. */
module SegmentedFile {
  import opened Basics

  /** A byte string that `append` was given, and the position it returned. */
  datatype Slice = Slice(pos: nat, bz: seq<byte>)

  /** Where the first k slices end. */
  ghost function EndOf(slices: seq<Slice>, k: nat): nat
    requires k <= |slices|
  {
    if k == 0 then 0 else EndOf(slices, k - 1) + |slices[k - 1].bz|
  }

  lemma {:induction false} EndFrame(a: seq<Slice>, b: seq<Slice>, k: nat)
    requires k <= |a| && k <= |b| && forall i :: 0 <= i < k ==> a[i] == b[i]
    ensures EndOf(a, k) == EndOf(b, k)
  {
    if k > 0 { EndFrame(a, b, k - 1); }
  }

  lemma {:induction false} EndMonotone(s: seq<Slice>, i: nat, k: nat)
    requires i <= k <= |s|
    ensures EndOf(s, i) <= EndOf(s, k)
  {
    if i < k { EndMonotone(s, i, k - 1); }
  }

  /** The segment of a position, and the place within it: quotient and remainder. */
  function SegId(p: nat, s: nat): nat
    requires s > 0
  {
    if p < s then 0 else 1 + SegId(p - s, s)
  }

  function SegOff(p: nat, s: nat): (q: nat)
    requires s > 0
    ensures q < s
  {
    if p < s then p else SegOff(p - s, s)
  }

  lemma {:induction false} SegmentOf(id: nat, q: nat, s: nat)
    requires q < s
    ensures SegId(id * s + q, s) == id && SegOff(id * s + q, s) == q
  {
    if id > 0 {
      NextSegment(id - 1, s);
      SegmentOf(id - 1, q, s);
    }
  }

  lemma {:induction false} SegmentStart(p: nat, s: nat)
    requires s > 0
    ensures p == SegId(p, s) * s + SegOff(p, s)
  {
    if p >= s {
      SegmentStart(p - s, s);
      NextSegment(SegId(p - s, s), s);
    }
  }

  lemma SegIsDiv(p: nat, s: nat)
    requires s > 0
    ensures SegId(p, s) == p / s && SegOff(p, s) == p % s
  {
    var (d, m) := (p / s, p % s);
    assert p == d * s + m;
    SegmentOf(d, m, s);
  }

  lemma {:induction false} SegmentMonotone(a: nat, b: nat, s: nat)
    requires a <= b && s > 0
    ensures SegId(a, s) <= SegId(b, s)
  {
    if a >= s { SegmentMonotone(a - s, b - s, s); }
  }

  /** The bytes of a segment at an offset. */
  predicate HasAt(content: seq<byte>, q: nat, bz: seq<byte>) { q + |bz| <= |content| && content[q..q + |bz|] == bz }

  lemma HasAtMore(content: seq<byte>, more: seq<byte>, q: nat, bz: seq<byte>)
    requires HasAt(content, q, bz)
    ensures HasAt(content + more, q, bz)
  {
    assert (content + more)[q..q + |bz|] == content[q..q + |bz|];
  }

  /** `set_len` */
  function Resized(content: seq<byte>, n: nat): (r: seq<byte>)
    ensures |r| == n
  {
    if n <= |content| then content[..n] else content + seq(n - |content|, i => 0)
  }

  lemma HasAtResized(content: seq<byte>, n: nat, q: nat, bz: seq<byte>)
    requires HasAt(content, q, bz) && q + |bz| <= n
    ensures HasAt(Resized(content, n), q, bz)
  {
    assert Resized(content, n)[q..q + |bz|] == content[q..q + |bz|];
  }

  /** Writing at a place of a file. */
  function WriteAt(f: seq<byte>, at: nat, bz: seq<byte>): (r: seq<byte>)
    requires at <= |f|
    ensures at == |f| ==> r == f + bz
    ensures at < |f| && |bz| > 0 ==> |r| < |f| + |bz|
  {
    f[..at] + bz + if at + |bz| < |f| then f[at + |bz|..] else []
  }

  /** What reading n bytes at a place of a file gives. */
  function Read(f: seq<byte>, at: nat, n: nat): (r: seq<byte>)
    ensures |r| <= n
  {
    if at >= |f| then [] else f[at..if at + n <= |f| then at + n else |f|]
  }

  // ---------------------------------------------------------------- slices in segments

  /** What the segments will hold once the write buffer is flushed. */
  function Contents(m: map<nat, seq<byte>>, largest: nat, buffer: seq<byte>): map<nat, seq<byte>>
    requires largest in m
  {
    m[largest := m[largest] + buffer]
  }

  /** Slice k starts where the one before ends, and lies in one segment if that still exists. */
  ghost predicate SliceOk(seg: nat, slices: seq<Slice>, largest: nat, c: map<nat, seq<byte>>, k: nat)
    requires seg > 0 && k < |slices|
  {
    var (p, bz) := (slices[k].pos, slices[k].bz);
    && p == EndOf(slices, k) && SegId(p, seg) <= largest
    && (SegId(p, seg) in c ==> HasAt(c[SegId(p, seg)], SegOff(p, seg), bz))
  }

  ghost predicate Kept(seg: nat, slices: seq<Slice>, largest: nat, c: map<nat, seq<byte>>)
    requires seg > 0
  {
    forall k {:trigger SliceOk(seg, slices, largest, c, k)} :: 0 <= k < |slices| ==> SliceOk(seg, slices, largest, c, k)
  }

  /** Every segment of a is in b, possibly longer. */
  ghost predicate Grown(a: map<nat, seq<byte>>, b: map<nat, seq<byte>>) {
    forall id {:trigger id in a} {:trigger id in b} :: id in a ==> id in b && a[id] <= b[id]
  }

  lemma GrownSlice(seg: nat, slices: seq<Slice>, slices': seq<Slice>, largest: nat, largest': nat,
                   c: map<nat, seq<byte>>, c': map<nat, seq<byte>>, k: nat)
    requires seg > 0 && k < |slices| && slices <= slices' && largest <= largest' && Grown(c, c')
    requires SliceOk(seg, slices, largest, c, k)
    requires forall id :: id in c' && id <= largest ==> id in c
    ensures SliceOk(seg, slices', largest', c', k)
  {
    EndFrame(slices, slices', k);
    var id := SegId(slices[k].pos, seg);
    if id in c {
      assert c'[id] == c[id] + c'[id][|c[id]|..];
      HasAtMore(c[id], c'[id][|c[id]|..], SegOff(slices[k].pos, seg), slices[k].bz);
    }
  }

  lemma GrownKeeps(seg: nat, slices: seq<Slice>, all: seq<Slice>, largest: nat, top: nat, c: map<nat, seq<byte>>,
                   c': map<nat, seq<byte>>)
    requires seg > 0 && Kept(seg, slices, largest, c) && slices <= all && largest <= top && Grown(c, c')
    requires forall id :: id in c' && id <= largest ==> id in c
    ensures forall k {:trigger SliceOk(seg, all, top, c', k)} :: 0 <= k < |slices| ==> SliceOk(seg, all, top, c', k)
  {
    forall k | 0 <= k < |slices| ensures SliceOk(seg, all, top, c', k) {
      assert SliceOk(seg, slices, largest, c, k);
      GrownSlice(seg, slices, all, largest, top, c, c', k);
    }
  }

  /** Appending: the last segment and the buffer together grow by the new slice. */
  lemma AppendKeeps(seg: nat, slices: seq<Slice>, largest: nat, c: map<nat, seq<byte>>, end: nat, bz: seq<byte>)
    requires seg > 0 && Kept(seg, slices, largest, c) && largest in c
    requires EndOf(slices, |slices|) == end && SegId(end, seg) == largest && SegOff(end, seg) == |c[largest]|
    ensures Kept(seg, slices + [Slice(end, bz)], largest, c[largest := c[largest] + bz])
  {
    var (all, c') := (slices + [Slice(end, bz)], c[largest := c[largest] + bz]);
    GrownKeeps(seg, slices, all, largest, largest, c, c');
    EndFrame(slices, all, |slices|);
    NewSlice(seg, all, largest, c', c[largest], bz, |slices|);
  }

  lemma NewSlice(seg: nat, all: seq<Slice>, largest: nat, c: map<nat, seq<byte>>, before: seq<byte>, bz: seq<byte>,
                 k: nat)
    requires seg > 0 && largest in c && c[largest] == before + bz && k < |all| && all[k] == Slice(EndOf(all, k), bz)
    requires SegId(EndOf(all, k), seg) == largest && SegOff(EndOf(all, k), seg) == |before|
    ensures SliceOk(seg, all, largest, c, k)
  {
    assert (before + bz)[|before|..|before| + |bz|] == bz;
  }

  /** Starting a new segment: the old one is complete, possibly padded. */
  lemma RollGrows(m: map<nat, seq<byte>>, id: nat, buffer: seq<byte>, pad: seq<byte>, m': map<nat, seq<byte>>,
                  id': nat, next: seq<byte>)
    requires id in m && id' !in m && id < id' && m' == m[id := m[id] + buffer + pad][id' := []]
    ensures Grown(m, m') && Grown(Contents(m, id, buffer), Contents(m', id', next))
  {
    assert m[id] <= m[id] + buffer + pad && m[id] + buffer <= m[id] + buffer + pad;
  }

  /** Removing segments from the front. */
  lemma PruneKeeps(seg: nat, slices: seq<Slice>, largest: nat, c: map<nat, seq<byte>>, c': map<nat, seq<byte>>)
    requires seg > 0 && Kept(seg, slices, largest, c) && forall id :: id in c' ==> id in c && c'[id] == c[id]
    ensures Kept(seg, slices, largest, c')
  {
    forall k | 0 <= k < |slices| ensures SliceOk(seg, slices, largest, c', k) {
      assert SliceOk(seg, slices, largest, c, k);
    }
  }

  /** The slices up to a size: those that end by then, and the beginning of the one across it. */
  ghost function Cut(slices: seq<Slice>, size: nat): seq<Slice>
    decreases |slices|
  {
    if slices == [] || EndOf(slices, |slices|) <= size then slices
    else
      var n := |slices| - 1;
      var start := EndOf(slices, n);
      if start >= size then Cut(slices[..n], size) else slices[..n] + [slices[n].(bz := slices[n].bz[..size - start])]
  }

  lemma {:induction false} CutEnd(slices: seq<Slice>, size: nat)
    requires size <= EndOf(slices, |slices|)
    ensures |Cut(slices, size)| <= |slices| && EndOf(Cut(slices, size), |Cut(slices, size)|) == size
    ensures forall k ::
              0 <= k < |Cut(slices, size)| ==>
                  Cut(slices, size)[k].pos == slices[k].pos && Cut(slices, size)[k].bz <= slices[k].bz
    ensures forall k :: 0 <= k < |Cut(slices, size)| - 1 ==> Cut(slices, size)[k] == slices[k]
    decreases |slices|
  {
    if slices != [] && EndOf(slices, |slices|) > size {
      var n := |slices| - 1;
      EndFrame(slices, slices[..n], n);
      if EndOf(slices, n) >= size { CutEnd(slices[..n], size); } else { EndFrame(slices, Cut(slices, size), n); }
    }
  }

  /** A slice that ends by then is among them. */
  lemma {:induction false} CutWhole(slices: seq<Slice>, size: nat, k: nat)
    requires k < |slices| && EndOf(slices, k + 1) <= size
    ensures k < |Cut(slices, size)| && Cut(slices, size)[k] == slices[k]
    decreases |slices|
  {
    if EndOf(slices, |slices|) > size {
      var n := |slices| - 1;
      EndFrame(slices, slices[..n], n);
      if k < n {
        EndFrame(slices, slices[..n], k + 1);
        if EndOf(slices, n) >= size { CutWhole(slices[..n], size, k); }
      }
    }
  }

  /** Cutting the file at any size. */
  lemma TruncateKeeps(seg: nat, slices: seq<Slice>, largest: nat, c: map<nat, seq<byte>>, size: nat, largest': nat,
                      c': map<nat, seq<byte>>, rest: nat)
    requires seg > 0 && Kept(seg, slices, largest, c) && size <= EndOf(slices, |slices|)
    requires size == largest' * seg + rest && rest < seg && largest' <= largest && largest' in c
    requires c'.Keys == set id | id in c && id <= largest'
    requires (forall id :: id in c' && id != largest' ==> c'[id] == c[id]) && c'[largest'] == Resized(c[largest'], rest)
    ensures Kept(seg, Cut(slices, size), largest', c')
  {
    var cut := Cut(slices, size);
    CutEnd(slices, size);
    forall k | 0 <= k < |cut| ensures SliceOk(seg, cut, largest', c', k) {
      assert SliceOk(seg, slices, largest, c, k);
      EndFrame(cut, slices, k);
      EndMonotone(cut, k + 1, |cut|);
      CutSlice(seg, slices[k], cut[k], size, largest', c, c', rest);
    }
  }

  lemma CutSlice(seg: nat, s: Slice, t: Slice, size: nat, largest': nat, c: map<nat, seq<byte>>,
                 c': map<nat, seq<byte>>, rest: nat)
    requires seg > 0 && t.pos == s.pos && t.bz <= s.bz && t.pos + |t.bz| <= size == largest' * seg + rest
    requires rest < seg && largest' in c
    requires SegId(s.pos, seg) in c ==> HasAt(c[SegId(s.pos, seg)], SegOff(s.pos, seg), s.bz)
    requires c'.Keys == set id | id in c && id <= largest'
    requires (forall id :: id in c' && id != largest' ==> c'[id] == c[id]) && c'[largest'] == Resized(c[largest'], rest)
    ensures SegId(t.pos, seg) <= largest'
    ensures (SegId(t.pos, seg) in c' ==> HasAt(c'[SegId(t.pos, seg)], SegOff(t.pos, seg), t.bz))
  {
    var (id, q) := (SegId(t.pos, seg), SegOff(t.pos, seg));
    SegmentOf(largest', rest, seg);
    SegmentMonotone(t.pos, size, seg);
    if id in c {
      HasAtPrefix(c[id], q, s.bz, t.bz);
      if id == largest' {
        SegmentStart(t.pos, seg);
        HasAtResized(c[largest'], rest, q, t.bz);
      }
    }
  }

  lemma HasAtPrefix(content: seq<byte>, q: nat, bz: seq<byte>, part: seq<byte>)
    requires HasAt(content, q, bz) && part <= bz
    ensures HasAt(content, q, part)
  {
    assert content[q..q + |part|] == content[q..q + |bz|][..|part|];
  }

  // ---------------------------------------------------------------- the file

  class HPFile {
    const segmentSize: nat
    const bufferSize: nat
    /** the segment files in the directory */
    var fileMap: map<nat, seq<byte>>
    /** where the next write into the last segment goes */
    var cursor: nat
    var largestId: nat
    var latestFileSize: nat
    var fileSize: nat
    /** the writer's buffer */
    var buffer: seq<byte>
    /** what was appended and not truncated */
    ghost var slices: seq<Slice>
    /** the first segment that was not pruned */
    ghost var low: nat

    /** The segments and the buffer hold the slices. */
    ghost predicate Holding()
      reads this
    {
      && 0 < bufferSize <= segmentSize && |buffer| <= bufferSize
      && low <= largestId && (forall id :: id in fileMap <==> low <= id <= largestId)
      && cursor <= |fileMap[largestId]| && |fileMap[largestId]| + |buffer| == latestFileSize
      && fileSize == largestId * segmentSize + latestFileSize && fileSize == EndOf(slices, |slices|)
      && Kept(segmentSize, slices, largestId, Contents(fileMap, largestId, buffer))
    }

    /** And the last segment is not complete. */
    ghost predicate Valid()
      reads this
    {
      Holding() && latestFileSize < segmentSize
    }

    /** Writes go to the end of the last segment. */
    ghost predicate AtEnd()
      requires Valid()
      reads this
    {
      cursor == |fileMap[largestId]|
    }

    /** The next append of so many bytes finds room in the buffer or writes to the end. */
    ghost predicate Safe(n: nat)
      requires Valid()
      reads this
    {
      AtEnd() || |buffer| + n <= bufferSize
    }

    /** `new` on a directory that holds the segments of these slices, the last one opened at its
        beginning, or on an empty one. */
    constructor (wrBufSize: nat, segmentSize: nat, dir: map<nat, seq<byte>>, ghost was: seq<Slice>, ghost first: nat,
        largest: nat)
      requires 0 < wrBufSize <= segmentSize && segmentSize % wrBufSize == 0
      requires dir == map[] ==> was == [] && first == largest == 0
      requires dir != map[] ==>
                 && first <= largest && (forall id :: id in dir <==> first <= id <= largest)
                 && |dir[largest]| < segmentSize
                 && EndOf(was, |was|) == largest * segmentSize + |dir[largest]| && Kept(segmentSize, was, largest, dir)
      ensures Valid() && slices == was && low == first && buffer == [] && bufferSize == wrBufSize
      ensures this.segmentSize == segmentSize && cursor == 0 && largestId == largest
      ensures fileMap == if dir == map[] then map[0 := []] else dir
      ensures AtEnd() <==> fileSize == largest * segmentSize
    {
      this.segmentSize, bufferSize := segmentSize, wrBufSize;
      fileMap := if dir == map[] then map[0 := []] else dir;
      largestId, cursor, buffer := largest, 0, [];
      latestFileSize := if dir == map[] then 0 else |dir[largest]|;
      fileSize := largest * segmentSize + if dir == map[] then 0 else |dir[largest]|;
      slices, low := was, first;
      new;
      assert fileMap[largestId] + [] == fileMap[largestId];
      assert dir != map[] ==> Contents(fileMap, largestId, []) == dir;
    }

    /** A slice whose segment exists and whose last byte was written. */
    ghost predicate OnDisk(k: nat)
      requires segmentSize > 0 && k < |slices|
      reads this
    {
      var (p, n) := (slices[k].pos, |slices[k].bz|);
      SegId(p, segmentSize) in fileMap && SegOff(p, segmentSize) + n <= |fileMap[SegId(p, segmentSize)]|
    }

    /** `append`: None when the slice is larger than the buffer. What was on disk stays there. Right
        after opening, a write that does not find room in the buffer hits the beginning of the last
        segment. */
    method Append(bz: seq<byte>) returns (pos: Option<nat>)
      requires Valid()
      modifies this
      ensures low == old(low) && (pos.None? <==> |bz| > bufferSize) && (pos.Some? ==> pos.value == old(fileSize))
      ensures pos.None? ==>
                Valid() && slices == old(slices) && (old(AtEnd()) ==> AtEnd()) && Grown(old(fileMap), fileMap)
      ensures pos.Some? && old(Safe(|bz|)) ==>
                && Valid() && (old(AtEnd()) ==> AtEnd()) && slices == old(slices) + [Slice(old(fileSize), bz)]
                && Grown(old(fileMap), fileMap) && forall k :: 0 <= k < |old(slices)| && old(OnDisk(k)) ==> OnDisk(k)
      ensures pos.Some? && old(latestFileSize) + |bz| < segmentSize ==> (Valid() <==> old(Safe(|bz|)))
      ensures pos.Some? && !old(Safe(|bz|)) ==> Misplaced(old(fileMap), old(largestId), old(cursor), old(buffer), bz)
      ensures old(latestFileSize) + |bz| < segmentSize ==> largestId == old(largestId)
      ensures pos.Some? && |old(buffer)| + |bz| <= bufferSize && old(latestFileSize) + |bz| < segmentSize ==>
                fileMap == old(fileMap) && cursor == old(cursor) && buffer == old(buffer) + bz
    {
      if |bz| > bufferSize { return None; }
      pos := Some(fileSize);
      var oldSize := latestFileSize;
      Buffered(bz);
      if oldSize + |bz| >= segmentSize {
        ghost var (m, b, id) := (fileMap, buffer, largestId);
        Roll(oldSize + |bz| - segmentSize);
        assert m[id] + b <= fileMap[id];
      } else {
        assert fileMap[largestId] <= fileMap[largestId] + buffer;
      }
    }

    /** A full buffer went to the cursor and not to the end of segment id. Once that segment is complete
        the rest of the bytes follows. */
    ghost predicate Misplaced(m: map<nat, seq<byte>>, id: nat, at: nat, b: seq<byte>, bz: seq<byte>)
      requires id in m && at <= |m[id]| && |b| <= bufferSize <= |b| + |bz|
      reads this
    {
      var n := bufferSize - |b|;
      && id in fileMap
      && if largestId == id then fileMap[id] == WriteAt(m[id], at, b + bz[..n]) && buffer == bz[n..]
         else WriteAt(m[id], at, b + bz[..n]) + bz[n..] <= fileMap[id]
    }

    /** Put the bytes behind the buffer, writing out the buffer when it is full. */
    method Buffered(bz: seq<byte>)
      requires Valid() && |bz| <= bufferSize
      modifies this`fileMap, this`buffer, this`latestFileSize, this`fileSize, this`slices, this`cursor
      ensures latestFileSize == old(latestFileSize) + |bz| && slices == old(slices) + [Slice(old(fileSize), bz)]
      ensures Holding() <==> old(Safe(|bz|))
      ensures old(Safe(|bz|)) ==> (old(AtEnd()) ==> cursor == |fileMap[largestId]|) && Grown(old(fileMap), fileMap)
      ensures largestId in fileMap && fileMap.Keys == old(fileMap.Keys) && |buffer| <= bufferSize
      ensures !old(Safe(|bz|)) ==> Misplaced(old(fileMap), largestId, old(cursor), old(buffer), bz)
      ensures |old(buffer)| + |bz| <= bufferSize ==>
                fileMap == old(fileMap) && cursor == old(cursor) && buffer == old(buffer) + bz
    {
      ghost var (m, b) := (fileMap, buffer);
      latestFileSize, fileSize := latestFileSize + |bz|, fileSize + |bz|;
      Write(bz);
      EndFrame(slices, slices + [Slice(old(fileSize), bz)], |slices|);
      if old(Safe(|bz|)) {
        SegmentOf(largestId, old(latestFileSize), segmentSize);
        AppendKeeps(segmentSize, slices, largestId, Contents(m, largestId, b), old(fileSize), bz);
        assert Contents(fileMap, largestId, buffer) == Contents(m, largestId, b)[largestId := m[largestId] + b + bz];
      }
      slices := slices + [Slice(old(fileSize), bz)];
    }

    /** The buffer takes the bytes; what it cannot hold pushes a full buffer to the file. */
    method Write(bz: seq<byte>)
      requires largestId in fileMap && |bz| <= bufferSize && |buffer| <= bufferSize && 0 < bufferSize
      requires cursor <= |fileMap[largestId]|
      modifies this`fileMap, this`buffer, this`cursor
      ensures |buffer| <= bufferSize && fileMap.Keys == old(fileMap.Keys) && cursor <= |fileMap[largestId]|
      ensures forall id :: id in fileMap && id != largestId ==> fileMap[id] == old(fileMap)[id]
      ensures old(cursor == |fileMap[largestId]| || |buffer| + |bz| <= bufferSize) ==>
                && fileMap[largestId] + buffer == old(fileMap)[largestId] + old(buffer) + bz
                && old(fileMap)[largestId] <= fileMap[largestId]
                && (old(cursor == |fileMap[largestId]|) ==> cursor == |fileMap[largestId]|)
      ensures !old(cursor == |fileMap[largestId]| || |buffer| + |bz| <= bufferSize) ==>
                |fileMap[largestId]| + |buffer| < |old(fileMap)[largestId]| + |old(buffer)| + |bz|
      ensures |old(buffer)| + |bz| > bufferSize ==>
                Misplaced(old(fileMap), largestId, old(cursor), old(buffer), bz)
      ensures |old(buffer)| + |bz| <= bufferSize ==>
                fileMap == old(fileMap) && cursor == old(cursor) && buffer == old(buffer) + bz
    {
      ghost var (m, b) := (fileMap, buffer);
      var splitPos := 0;
      if |buffer| + |bz| > bufferSize {
        splitPos := |bz| - (|buffer| + |bz| - bufferSize);
        buffer := buffer + bz[..splitPos];
        fileMap := fileMap[largestId := WriteAt(fileMap[largestId], cursor, buffer)];
        cursor := cursor + |buffer|;
        buffer := [];
      }
      buffer := buffer + bz[splitPos..];
      assert bz == bz[..splitPos] + bz[splitPos..];
      assert old(cursor == |fileMap[largestId]| || |buffer| + |bz| <= bufferSize) ==>
          fileMap[largestId] + buffer == m[largestId] + b + bz;
    }

    /** Complete the last segment and start the next one with placeholder bytes. */
    method Roll(overflow: nat)
      requires largestId in fileMap && |buffer| <= bufferSize && overflow <= bufferSize
      modifies this`fileMap, this`buffer, this`latestFileSize, this`largestId, this`cursor
      ensures old(Holding()) && old(latestFileSize) == segmentSize + overflow && overflow < segmentSize ==>
                Valid() && AtEnd() && Grown(old(fileMap), fileMap)
      ensures old(largestId) in fileMap && old(fileMap[largestId] + buffer) <= fileMap[old(largestId)]
      ensures largestId == old(largestId) + 1
    {
      ghost var (m, b, id) := (fileMap, buffer, largestId);
      ghost var pad := WriteOut(true);
      largestId, cursor := largestId + 1, 0;
      fileMap := fileMap[largestId := []];
      if overflow != 0 { buffer := seq(overflow, i => 0); }
      latestFileSize := overflow;
      Prefixes(m[id], b, pad);
      if old(Holding()) && old(latestFileSize) == segmentSize + overflow && overflow < segmentSize {
        Rolled(m, id, b, pad, overflow);
      }
    }

    /** The slices are in the completed segment. */
    lemma Rolled(m: map<nat, seq<byte>>, id: nat, b: seq<byte>, pad: seq<byte>, overflow: nat)
      requires 0 < bufferSize <= segmentSize && low <= id && (forall i :: i in m <==> low <= i <= id)
      requires Kept(segmentSize, slices, id, Contents(m, id, b)) && fileSize == EndOf(slices, |slices|)
      requires fileSize == id * segmentSize + segmentSize + overflow && overflow < segmentSize && overflow <= bufferSize
      requires largestId == id + 1 && fileMap == m[id := m[id] + b + pad][id + 1 := []]
      requires |buffer| == latestFileSize == overflow && cursor == 0
      ensures Valid() && AtEnd() && Grown(m, fileMap)
    {
      RollGrows(m, id, b, pad, fileMap, largestId, buffer);
      GrownKeeps(segmentSize, slices, slices, id, largestId, Contents(m, id, b), Contents(fileMap, largestId, buffer));
      NextSegment(id, segmentSize);
    }

    /** `flush`: write the buffer behind the last segment, padded to whole blocks at its end. */
    method WriteOut(eof: bool) returns (ghost pad: seq<byte>)
      requires largestId in fileMap
      modifies this`fileMap, this`buffer, this`cursor
      ensures buffer == [] && fileMap == old(fileMap)[largestId := old(fileMap[largestId]) + old(buffer) + pad]
      ensures pad == [] || (eof && |pad| < 512 && (|old(buffer)| + |pad|) % 512 == 0)
      ensures cursor == if old(buffer) == [] then old(cursor) else |fileMap[largestId]|
    {
      pad := [];
      if buffer != [] {
        var tail := |buffer| % 512;
        if eof && tail != 0 {
          pad := seq(512 - tail, i => 0);
          buffer := buffer + seq(512 - tail, i => 0);
        }
        fileMap := fileMap[largestId := fileMap[largestId] + buffer];
        cursor := |fileMap[largestId]|;
        assert buffer == old(buffer) + pad;
        assert old(fileMap[largestId]) + old(buffer) + pad == old(fileMap[largestId]) + (old(buffer) + pad);
        buffer := [];
      } else {
        assert fileMap[largestId] + buffer + pad == fileMap[largestId];
      }
    }

    /** `flush` as its callers use it: afterwards every slice of an existing segment is on disk. */
    method Flush()
      requires Valid()
      modifies this`fileMap, this`buffer, this`cursor
      ensures Valid() && buffer == [] && (AtEnd() <==> old(AtEnd()) || old(buffer) != [])
      ensures Grown(old(fileMap), fileMap)
      ensures forall k :: 0 <= k < |slices| && low <= SegId(slices[k].pos, segmentSize) ==> OnDisk(k)
    {
      ghost var c := Contents(fileMap, largestId, buffer);
      ghost var pad := WriteOut(false);
      assert Contents(fileMap, largestId, buffer) == c by {
        assert fileMap[largestId] + [] == fileMap[largestId] == c[largestId] + [] == c[largestId];
      }
      forall k | 0 <= k < |slices| && low <= SegId(slices[k].pos, segmentSize) ensures OnDisk(k) {
        assert SliceOk(segmentSize, slices, largestId, c, k);
      }
    }

    /** `read_at` anywhere in an existing segment: what there is of the n bytes from there on. */
    method ReadBytes(offset: nat, n: nat) returns (res: Option<seq<byte>>)
      requires segmentSize > 0
      ensures res.None? <==> SegId(offset, segmentSize) !in fileMap
      ensures res.Some? ==> res.value == Read(fileMap[SegId(offset, segmentSize)], SegOff(offset, segmentSize), n)
    {
      SegIsDiv(offset, segmentSize);
      var (id, pos) := (offset / segmentSize, offset % segmentSize);
      if id !in fileMap { return None; }
      res := Some(Read(fileMap[id], pos, n));
    }

    /** `read_at` at a position that `append` returned: a prefix of that slice, all of it exactly
        when it is on disk; None when its segment was pruned. */
    lemma ReadSlice(k: nat)
      requires Valid() && k < |slices|
      ensures var (p, bz) := (slices[k].pos, slices[k].bz);
              && (SegId(p, segmentSize) in fileMap <==> low <= SegId(p, segmentSize))
              && (SegId(p, segmentSize) in fileMap ==>
                    var got := Read(fileMap[SegId(p, segmentSize)], SegOff(p, segmentSize), |bz|);
                    got <= bz && (got == bz <==> bz == [] || OnDisk(k)))
    {
      ghost var c := Contents(fileMap, largestId, buffer);
      assert SliceOk(segmentSize, slices, largestId, c, k);
      var (p, bz) := (slices[k].pos, slices[k].bz);
      var (id, q) := (SegId(p, segmentSize), SegOff(p, segmentSize));
      if id in fileMap && q < |fileMap[id]| {
        var f := fileMap[id];
        ReadPrefix(f, c[id], q, |bz|, if q + |bz| <= |f| then q + |bz| else |f|);
      }
    }

    /** What was appended last is not in a pruned segment. */
    lemma NotPruned(k: nat)
      requires Valid() && k < |slices| && low * segmentSize <= slices[k].pos
      ensures low <= SegId(slices[k].pos, segmentSize)
    {
      SegmentMonotone(low * segmentSize, slices[k].pos, segmentSize);
      SegmentOf(low, 0, segmentSize);
    }

    /** `prune_head`: remove the segments that end before `offset`. */
    method PruneHead(offset: nat)
      requires Valid() && offset <= fileSize
      modifies this`fileMap, this`low
      ensures Valid() && (AtEnd() <==> old(AtEnd()))
      ensures low == if SegId(offset, segmentSize) > old(low) then SegId(offset, segmentSize) else old(low)
      ensures forall k :: 0 <= k < |slices| && slices[k].pos >= offset && old(OnDisk(k)) ==> OnDisk(k)
    {
      SegIsDiv(offset, segmentSize);
      var fileId := offset / segmentSize;
      assert fileId <= largestId by {
        SegmentMonotone(offset, fileSize, segmentSize);
        SegmentOf(largestId, latestFileSize, segmentSize);
      }
      ghost var c := Contents(fileMap, largestId, buffer);
      fileMap := map id | id in fileMap && !(id < fileId) :: fileMap[id];
      low := if fileId > low then fileId else low;
      PruneKeeps(segmentSize, slices, largestId, c, Contents(fileMap, largestId, buffer));
      forall k | 0 <= k < |slices| && slices[k].pos >= offset && old(OnDisk(k)) ensures OnDisk(k) {
        SegmentMonotone(offset, slices[k].pos, segmentSize);
      }
    }

    /** `truncate` to any size within the file. The writer's buffer is not touched, so it had better be
        empty. */
    method Truncate(size: nat)
      requires Valid() && low * segmentSize <= size <= fileSize
      modifies this
      ensures low == old(low) && fileSize == size && (Valid() <==> old(buffer) == [])
      ensures buffer == old(buffer) && largestId in fileMap && largestId * segmentSize <= size
      ensures cursor == |fileMap[largestId]| == size - largestId * segmentSize
      ensures old(buffer) == [] ==> AtEnd() && buffer == [] && slices == Cut(old(slices), size)
      ensures old(buffer) == [] ==>
                forall k :: 0 <= k < |old(slices)| && EndOf(old(slices), k + 1) <= size && old(OnDisk(k)) ==>
                  k < |slices| && slices[k] == old(slices)[k] && OnDisk(k)
    {
      ghost var (m, top, was) := (fileMap, largestId, slices);
      DropSegments(size);
      var remaining := size - largestId * segmentSize;
      fileMap := fileMap[largestId := Resized(fileMap[largestId], remaining)];
      latestFileSize, fileSize, cursor := remaining, size, remaining;
      slices := Cut(slices, size);
      if buffer == [] {
        assert m[top] + [] == m[top];
        assert Contents(m, top, []) == m;
        CutValid(m, top, was, size, remaining);
      }
    }

    /** With an empty buffer the cut slices are in the cut file. */
    lemma CutValid(m: map<nat, seq<byte>>, top: nat, was: seq<Slice>, size: nat, rest: nat)
      requires 0 < bufferSize <= segmentSize && buffer == [] && size <= EndOf(was, |was|)
      requires low <= largestId <= top && (forall id :: id in fileMap <==> low <= id <= largestId)
      requires Kept(segmentSize, was, top, m) && (forall id :: id in m <==> low <= id <= top)
      requires (forall id :: id in fileMap && id != largestId ==> fileMap[id] == m[id])
      requires fileMap[largestId] == Resized(m[largestId], rest) && slices == Cut(was, size) && rest < segmentSize
      requires latestFileSize == cursor == rest && fileSize == size == largestId * segmentSize + rest
      ensures Valid()
      ensures forall k :: 0 <= k < |was| && EndOf(was, k + 1) <= size && SegId(was[k].pos, segmentSize) in m ==>
                k < |slices| && slices[k] == was[k] && OnDisk(k)
    {
      assert fileMap[largestId] + [] == fileMap[largestId];
      assert Contents(fileMap, largestId, []) == fileMap;
      assert fileMap.Keys == set id | id in m && id <= largestId;
      TruncateKeeps(segmentSize, was, top, m, size, largestId, fileMap, rest);
      CutEnd(was, size);
      forall k | 0 <= k < |was| && EndOf(was, k + 1) <= size && SegId(was[k].pos, segmentSize) in m
        ensures k < |slices| && slices[k] == was[k] && OnDisk(k)
      {
        StillOnDisk(was, size, k);
      }
    }

    lemma StillOnDisk(was: seq<Slice>, size: nat, k: nat)
      requires Valid() && buffer == [] && slices == Cut(was, size) && k < |was| && EndOf(was, k + 1) <= size
      requires low <= SegId(was[k].pos, segmentSize)
      ensures k < |slices| && slices[k] == was[k] && OnDisk(k)
    {
      CutWhole(was, size, k);
      var c := Contents(fileMap, largestId, buffer);
      assert SliceOk(segmentSize, slices, largestId, c, k);
      assert fileMap[largestId] + [] == fileMap[largestId];
    }

    /** Remove the segments that start behind `size`. */
    method DropSegments(size: nat)
      requires segmentSize > 0 && low <= largestId && (forall id :: id in fileMap <==> low <= id <= largestId)
      requires low * segmentSize <= size < largestId * segmentSize + segmentSize
      modifies this`fileMap, this`largestId
      ensures low <= largestId <= old(largestId) && (forall id :: id in fileMap <==> low <= id <= largestId)
      ensures forall id :: low <= id <= largestId ==> id in old(fileMap) && fileMap[id] == old(fileMap)[id]
      ensures largestId * segmentSize <= size < largestId * segmentSize + segmentSize
    {
      while size < largestId * segmentSize
        invariant low <= largestId <= old(largestId) && (forall id :: id in fileMap <==> low <= id <= largestId)
        invariant forall id :: low <= id <= largestId ==> id in old(fileMap) && fileMap[id] == old(fileMap)[id]
        invariant size < largestId * segmentSize + segmentSize
        decreases largestId
      {
        assert largestId != low;
        fileMap := fileMap - {largestId};
        NextSegment(largestId - 1, segmentSize);
        largestId := largestId - 1;
      }
    }

    /** Does what was asked for, unless the source would panic or mix up buffer and file. */
    method Perform(op: Op) returns (ok: bool)
      requires Valid() && AtEnd()
      modifies this
      ensures Valid() && AtEnd()
      ensures ok <==> old(Fits(op))
      ensures ok ==> slices == op.Effect(old(slices), old(fileSize))
      ensures forall k :: 0 <= k < |old(slices)| && old(OnDisk(k)) && op.Spares(old(slices)[k]) ==>
                k < |slices| && slices[k] == old(slices)[k] && OnDisk(k)
    {
      ghost var was := slices;
      ok := true;
      match op {
        case AppendOp(bz) =>
          var pos := Append(bz);
          ok := pos.Some?;
          forall k | 0 <= k < |was| && old(OnDisk(k)) ensures k < |slices| && slices[k] == was[k] && OnDisk(k) { }
        case FlushOp => Flush();
        case PruneOp(offset) =>
          if offset > fileSize { return false; }
          PruneHead(offset);
        case TruncateOp(size) =>
          SegIsDiv(size, segmentSize);
          if buffer != [] || size > fileSize || size / segmentSize !in fileMap { return false; }
          forall k | 0 <= k < |was| ensures EndOf(was, k + 1) == was[k].pos + |was[k].bz| {
            assert SliceOk(segmentSize, slices, largestId, Contents(fileMap, largestId, buffer), k);
          }
          FirstSegment(low, size, segmentSize);
          Truncate(size);
      }
    }

    /** What the source does not panic on, and what its callers see to. */
    ghost predicate Fits(op: Op)
      requires segmentSize > 0
      reads this
    {
      match op
      case AppendOp(bz) => |bz| <= bufferSize
      case FlushOp => true
      case PruneOp(offset) => offset <= fileSize
      case TruncateOp(size) => buffer == [] && size <= fileSize && SegId(size, segmentSize) in fileMap
    }

    /** Any number of operations; the first that does not fit ends the run. */
    method RunAll(ops: seq<Op>) returns (ok: bool)
      requires Valid() && AtEnd()
      modifies this
      ensures Valid() && AtEnd()
      ensures forall k :: 0 <= k < |old(slices)| && old(OnDisk(k)) && Spared(ops, old(slices)[k]) ==>
                k < |slices| && slices[k] == old(slices)[k] && OnDisk(k)
    {
      ghost var was := slices;
      var i := 0;
      while i < |ops|
        invariant 0 <= i <= |ops| && Valid() && AtEnd()
        invariant forall k :: 0 <= k < |was| && old(OnDisk(k)) && Spared(ops, was[k]) ==>
                    k < |slices| && slices[k] == was[k] && OnDisk(k)
      {
        var done := Perform(ops[i]);
        if !done { return false; }
        i := i + 1;
      }
      return true;
    }

    /** Whatever happens between flushing a slice and reading it at the position that `append`
        returned: if the slice was neither pruned nor truncated, all its bytes come back. */
    method AppendRunRead(bz: seq<byte>, ops: seq<Op>) returns (pos: Option<nat>, got: Option<seq<byte>>)
      requires Valid() && AtEnd()
      modifies this
      ensures pos.None? <==> |bz| > bufferSize
      ensures pos.Some? && Spared(ops, Slice(pos.value, bz)) ==> got == Some(bz)
    {
      pos := AppendFlushed(bz);
      if pos.None? { return None, None; }
      ghost var k: nat := |slices| - 1;
      var _ := RunAll(ops);
      got := ReadBytes(pos.value, |bz|);
      if Spared(ops, Slice(pos.value, bz)) { ReadSlice(k); }
    }

    /** `append` and then `flush`. */
    method AppendFlushed(bz: seq<byte>) returns (pos: Option<nat>)
      requires Valid() && AtEnd()
      modifies this
      ensures Valid() && AtEnd() && (pos.None? <==> |bz| > bufferSize)
      ensures pos.Some? ==> slices == old(slices) + [Slice(pos.value, bz)] && OnDisk(|slices| - 1)
    {
      assert low * segmentSize <= fileSize by { FirstPosition(low, largestId, segmentSize); }
      pos := Append(bz);
      if pos.None? { return None; }
      NotPruned(|slices| - 1);
      Flush();
    }
  }

  // ---------------------------------------------------------------- inputs that fail

  /** A directory with one slice is reopened, with a buffer of two bytes. Two appends later, without a
      flush, the first of them stands where the old slice was. */
  method ReopenedOverwrites(was: seq<byte>, a: seq<byte>, b: seq<byte>) returns (got: Option<seq<byte>>)
    requires 0 < |b| <= |a| == |was| == 2
    ensures got == Some(a)
  {
    var f := Reopened(was);
    var _ := f.Append(a);
    assert f.buffer == a;
    var _ := f.Append(b);
    assert b[..0] == [] && a + [] == a && f.largestId == 0;
    assert f.fileMap[0] == WriteAt(was, 0, a) == a;
    got := f.ReadBytes(0, 2);
  }

  method Reopened(was: seq<byte>) returns (f: HPFile)
    requires |was| == 2
    ensures fresh(f) && f.Valid() && f.slices == [Slice(0, was)] && f.fileMap == map[0 := was] && f.cursor == 0
    ensures f.largestId == 0 && f.buffer == [] && f.bufferSize == 2 && f.segmentSize == 8
  {
    ghost var slices := [Slice(0, was)];
    assert EndOf(slices, 1) == EndOf(slices, 0) + 2;
    assert was[0..0 + 2] == was && SliceOk(8, slices, 0, map[0 := was], 0);
    f := new HPFile(2, 8, map[0 := was], slices, 0, 0);
  }

  /** A slice is appended and cut off again without a flush; the next one gets its position, and after
      a flush the bytes that were cut off stand there. */
  method TruncatedComesBack(a: seq<byte>, b: seq<byte>) returns (got: Option<seq<byte>>)
    requires |a| == |b| == 2
    ensures got == Some(a)
  {
    var f := new HPFile(4, 8, map[], [], 0, 0);
    var _ := f.Append(a);
    assert f.buffer == a;
    f.Truncate(0);
    assert f.largestId == 0 && f.fileMap[0] == [];
    f.Write(b);
    assert f.buffer == a + b && f.fileMap[0] == [];
    var _ := f.WriteOut(false);
    assert f.fileMap[0] == a + b && (a + b)[0..2] == a;
    got := f.ReadBytes(0, 2);
  }

  datatype Op = AppendOp(bz: seq<byte>) | FlushOp | PruneOp(offset: nat) | TruncateOp(size: nat) {
    /** The slice neither starts in a part to be pruned nor ends in one to be cut off. */
    predicate Spares(s: Slice) {
      match this
      case AppendOp(_) => true
      case FlushOp => true
      case PruneOp(offset) => offset <= s.pos
      case TruncateOp(size) => s.pos + |s.bz| <= size
    }

    ghost function Effect(slices: seq<Slice>, end: nat): seq<Slice> {
      match this
      case AppendOp(bz) => slices + [Slice(end, bz)]
      case FlushOp => slices
      case PruneOp(_) => slices
      case TruncateOp(size) => Cut(slices, size)
    }
  }

  ghost predicate Spared(ops: seq<Op>, s: Slice) { forall i {:trigger ops[i]} :: 0 <= i < |ops| ==> ops[i].Spares(s) }

  lemma Prefixes(a: seq<byte>, b: seq<byte>, c: seq<byte>)
    ensures a <= a + b + c && a + b <= a + b + c
  {
  }

  lemma FirstSegment(low: nat, size: nat, seg: nat)
    requires seg > 0 && low <= SegId(size, seg)
    ensures low * seg <= size
  {
    SegmentStart(size, seg);
    FirstPosition(low, SegId(size, seg), seg);
  }

  lemma FirstPosition(low: nat, largest: nat, seg: nat)
    requires low <= largest
    ensures low * seg <= largest * seg
  {
  }

  lemma ReadPrefix(f: seq<byte>, content: seq<byte>, pos: nat, n: nat, end: nat)
    requires f <= content && pos <= end <= |f| && end <= pos + n <= |content|
    ensures f[pos..end] <= content[pos..pos + n]
  {
    assert content[pos..pos + n][..end - pos] == f[pos..end];
  }

  lemma NextSegment(id: nat, seg: nat)
    ensures (id + 1) * seg == id * seg + seg
  {
  }
}
