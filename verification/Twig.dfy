/** Twigs: the 2048-leaf Merkle tree of the youngest twig, kept in one array and resynced by
    range, and the small tree over a twig's active bits. */
module Twig {
  import opened Merkle

  // ---------------------------------------------------------------- the leaf tree

  /** The value of array position i (1 is the root, 2048.. are the leaves) computed from the
      leaves alone. A node with b significant bits in its index has children at level 11 - b. */
  ghost function V(leaves: seq<Digest>, i: nat): Digest
    requires |leaves| == 2048 && 1 <= i < 4096
    decreases 4096 - i
  {
    if i >= 2048 then leaves[i - 2048]
    else BitLenBounds(i, 11); Node(11 - BitLen(i), V(leaves, 2 * i), V(leaves, 2 * i + 1))
  }

  lemma BitLenBounds(i: nat, d: nat)
    ensures BitLen(i) <= d <==> i < Shl(1, d)
  {
    ShlShr(1, i, d);
    ShrVanishes(i, d);
  }

  lemma PowersOfTwo()
    ensures Shl(1, 11) == 2048 && Shl(1, 12) == 4096 && Shl(1, 0) == 1
  {
    assert Shl(1, 2) == 4 && Shl(1, 4) == 16 && Shl(1, 6) == 64 && Shl(1, 8) == 256 && Shl(1, 10) == 1024;
  }

  /** Position i lies above some leaf of the range: the ancestors, in i's row, of the first and
      the last leaf enclose it. */
  ghost predicate Touched(start: nat, end: nat, i: nat) {
    BitLen(i) <= 12 && Shr(2048 + start, 12 - BitLen(i)) <= i <= Shr(2048 + end, 12 - BitLen(i))
  }

  lemma ChildBitLen(i: nat)
    requires i >= 1
    ensures BitLen(2 * i) == BitLen(i) + 1 && BitLen(2 * i + 1) == BitLen(i) + 1
  {
    assert (2 * i) / 2 == i && (2 * i + 1) / 2 == i;
  }

  lemma HalfOutside(a: nat, z: nat, i: nat)
    requires !(a / 2 <= i <= z / 2)
    ensures !(a <= 2 * i <= z) && !(a <= 2 * i + 1 <= z)
  {
  }

  /** Children of an untouched position are untouched. */
  lemma TouchedParent(start: nat, end: nat, i: nat)
    requires 1 <= i < 2048 && !Touched(start, end, i)
    ensures !Touched(start, end, 2 * i) && !Touched(start, end, 2 * i + 1)
  {
    BitLenBounds(i, 11);
    PowersOfTwo();
    ChildBitLen(i);
    var k: nat := 11 - BitLen(i);
    HalfOutside(Shr(2048 + start, k), Shr(2048 + end, k), i);
  }

  /** A change of leaves inside the range leaves every untouched position alone. */
  lemma {:induction false} UntouchedKeeps(old_: seq<Digest>, new_: seq<Digest>, start: nat, end: nat, i: nat)
    requires |old_| == |new_| == 2048 && 1 <= i < 4096 && !Touched(start, end, i)
    requires forall q :: 0 <= q < 2048 && !(start <= q <= end) ==> old_[q] == new_[q]
    ensures V(old_, i) == V(new_, i)
    decreases 4096 - i
  {
    if i >= 2048 {
      PowersOfTwo();
      BitLenBounds(i, 11);
      BitLenBounds(i, 12);
    } else {
      TouchedParent(start, end, i);
      UntouchedKeeps(old_, new_, start, end, 2 * i);
      UntouchedKeeps(old_, new_, start, end, 2 * i + 1);
    }
  }

  /** Position i holds the value computed from these leaves. */
  ghost predicate Is(mtree: seq<Digest>, leaves: seq<Digest>, i: nat)
    requires |mtree| == 4096 && |leaves| == 2048 && 1 <= i < 4096
  {
    mtree[i] == V(leaves, i)
  }

  /** In the row of length `base / 2` above row `base`, positions outside the halved range are
      untouched, and the children's level is `level`. */
  lemma RowAbove(start: nat, end: nat, level: nat, i: nat)
    requires level <= 10 && Shl(1, 10 - level) <= i < Shl(1, 11 - level)
    ensures BitLen(i) == 11 - level
    ensures Touched(start, end, i) <==> Shr(2048 + start, level + 1) <= i <= Shr(2048 + end, level + 1)
  {
    BitLenBounds(i, 10 - level);
    BitLenBounds(i, 11 - level);
  }

  /** All positions from `base` on hold their values; below it, all untouched ones do. */
  ghost predicate SyncedFrom(mtree: seq<Digest>, leaves: seq<Digest>, start: nat, end: nat, base: nat)
    requires |mtree| == 4096 && |leaves| == 2048 && base <= 2048
  {
    && mtree[2048..] == leaves
    && forall i {:trigger Is(mtree, leaves, i)} ::
         1 <= i < 4096 ==> Is(mtree, leaves, i) || (i < base && Touched(start, end, i))
  }

  ghost predicate RowIs(mtree: seq<Digest>, leaves: seq<Digest>, from: nat, to: nat)
    requires |mtree| == 4096 && |leaves| == 2048 && 1 <= from
  {
    forall i {:trigger Is(mtree, leaves, i)} :: from <= i < to && i < 4096 ==> Is(mtree, leaves, i)
  }

  /** Rehashing the parent of two right positions makes it right and disturbs nothing. */
  lemma Rehash(mtree: seq<Digest>, leaves: seq<Digest>, start: nat, end: nat, base: nat, level: nat, p: nat)
    requires |mtree| == 4096 && |leaves| == 2048 && level <= 10 && base == Shl(1, 11 - level) <= 2048
    requires Shl(1, 10 - level) <= p < base <= 2 * p && SyncedFrom(mtree, leaves, start, end, base)
    ensures var m := mtree[p := Node(level, mtree[2 * p], mtree[2 * p + 1])];
            && SyncedFrom(m, leaves, start, end, base)
            && forall from: nat :: 1 <= from <= p && RowIs(mtree, leaves, from, p) ==> RowIs(m, leaves, from, p + 1)
  {
    RowAbove(start, end, level, p);
    assert Is(mtree, leaves, 2 * p) && Is(mtree, leaves, 2 * p + 1);
    var m := mtree[p := Node(level, mtree[2 * p], mtree[2 * p + 1])];
    assert Is(m, leaves, p);
    assert m[2048..] == mtree[2048..];
    forall i | 1 <= i < 4096 && i != p ensures Is(m, leaves, i) == Is(mtree, leaves, i) { }
  }

  /** A row is done once the positions the range meets are. */
  lemma RowDone(mtree: seq<Digest>, leaves: seq<Digest>, start: nat, end: nat, base: nat, level: nat, from: nat,
                to: nat)
    requires |mtree| == 4096 && |leaves| == 2048 && level <= 10 && base == Shl(1, 11 - level) <= 2048
    requires SyncedFrom(mtree, leaves, start, end, base)
    requires 1 <= from <= Shr(2048 + start, level + 1) && RowIs(mtree, leaves, from, to)
    requires to >= base || Shr(2048 + end, level + 1) < to
    ensures SyncedFrom(mtree, leaves, start, end, base / 2)
  {
    forall i | 1 <= i < 4096 ensures Is(mtree, leaves, i) || (i < base / 2 && Touched(start, end, i)) {
      if base / 2 <= i < base { RowAbove(start, end, level, i); }
    }
  }

  /** One row of `sync_mtree`: rehash the pairs of row `base` that the range meets. */
  method SyncRow(mtree: array<Digest>, curStart: nat, curEnd: nat, level: nat, base: nat,
                 ghost leaves: seq<Digest>, ghost start: nat, ghost end: nat)
    requires mtree.Length == 4096 && |leaves| == 2048
    requires level <= 10 && base == Shl(1, 11 - level) <= 2048
    requires base + curStart == Shr(2048 + start, level) && base + curEnd == Shr(2048 + end, level)
    requires SyncedFrom(mtree[..], leaves, start, end, base)
    modifies mtree
    ensures SyncedFrom(mtree[..], leaves, start, end, base / 2) && mtree[0] == old(mtree[0])
  {
    ShlPositive(10 - level);
    ghost var (half, m) := (Shl(1, 10 - level), mtree[..]);
    assert base == 2 * half;
    var endRound := if curEnd % 2 == 1 then curEnd + 1 else curEnd;
    var j := (curStart / 2) * 2;
    ghost var (from: nat, q: nat) := (half + curStart / 2, curStart / 2);
    while j <= endRound && j + 1 < base
      invariant j == 2 * q && curStart / 2 <= q && m == mtree[..] && |m| == 4096
      invariant SyncedFrom(m, leaves, start, end, base) && m[0] == old(mtree[0])
      invariant RowIs(m, leaves, from, half + q)
    {
      ghost var p := half + q;
      Rehash(m, leaves, start, end, base, level, p);
      HashPair(mtree, level, base + j, p);
      m := m[p := Node(level, m[2 * p], m[2 * p + 1])];
      j, q := j + 2, q + 1;
    }
    assert Shr(2048 + start, level + 1) == from && Shr(2048 + end, level + 1) == half + curEnd / 2;
    RowDone(m, leaves, start, end, base, level, from, half + q);
  }

  /** Hash the pair at i into its parent. */
  method HashPair(mtree: array<Digest>, level: nat, i: nat, ghost p: nat)
    requires mtree.Length == 4096 && i == 2 * p && 2 <= i && i + 1 < 4096
    modifies mtree
    ensures mtree[..] == old(mtree[..])[p := Node(level, old(mtree[i]), old(mtree[i + 1]))]
  {
    mtree[i / 2] := Node(level, mtree[i], mtree[i + 1]);
  }

  lemma {:induction false} ShlPositive(k: nat)
    ensures Shl(1, k) >= 1
  {
    if k > 0 { ShlPositive(k - 1); }
  }

  /** `sync_mtree`: after the leaves start..end changed, rehash level by level; afterwards all
      2047 inner positions equal a full recomputation. */
  method SyncMTree(mtree: array<Digest>, start: nat, end: nat)
    requires mtree.Length == 4096
    requires SyncedFrom(mtree[..], mtree[2048..], start, end, 2048)
    modifies mtree
    ensures mtree[2048..] == old(mtree[2048..]) && mtree[0] == old(mtree[0])
    ensures forall i {:trigger Is(mtree[..], mtree[2048..], i)} :: 1 <= i < 4096 ==> Is(mtree[..], mtree[2048..], i)
  {
    ghost var leaves := mtree[2048..];
    PowersOfTwo();
    var curStart: nat, curEnd: nat, level: nat, base: nat := start, end, 0, 2048;
    while base >= 2
      invariant level <= 11 && base == Shl(1, 11 - level) <= 2048
      invariant base + curStart == Shr(2048 + start, level) && base + curEnd == Shr(2048 + end, level)
      invariant SyncedFrom(mtree[..], leaves, start, end, base) && mtree[0] == old(mtree[0])
      decreases base
    {
      SyncRow(mtree, curStart, curEnd, level, base, leaves, start, end);
      curStart, curEnd, level, base := curStart / 2, curEnd / 2, level + 1, base / 2;
    }
    assert mtree[2048..] == mtree[..][2048..];
  }

  /** The range that changed is all `sync_mtree` has to know: a tree that was right for the old
      leaves meets its precondition after any change of leaves inside the range. */
  lemma RangeSuffices(mtree: seq<Digest>, mtree': seq<Digest>, start: nat, end: nat)
    requires |mtree| == |mtree'| == 4096 && mtree[..2048] == mtree'[..2048]
    requires forall i {:trigger Is(mtree, mtree[2048..], i)} :: 1 <= i < 4096 ==> Is(mtree, mtree[2048..], i)
    requires forall q :: 2048 <= q < 4096 && !(start <= q - 2048 <= end) ==> mtree[q] == mtree'[q]
    ensures SyncedFrom(mtree', mtree'[2048..], start, end, 2048)
  {
    var (o, n) := (mtree[2048..], mtree'[2048..]);
    forall i | 1 <= i < 4096 ensures Is(mtree', n, i) || (i < 2048 && Touched(start, end, i)) {
      if i < 2048 && !Touched(start, end, i) {
        UntouchedKeeps(o, n, start, end, i);
        assert Is(mtree, o, i) && mtree[..2048][i] == mtree'[..2048][i];
      }
    }
  }
}
