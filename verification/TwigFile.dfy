/** The twig file: it stores each finished twig's leaf tree without the three levels above the
    leaves, and rebuilds those from an 8-leaf cone on demand. */
module TwigFile {
  import opened Basics
  import opened Merkle
  import opened Twig

  const IGNORED: nat := 1792   // positions 256 .. 2047
  const TWIG_SIZE: nat := 73708 // 12 + (4095 - 1792) * 32

  /** What one `append` writes: the 12-byte header or a 32-byte hash. */
  datatype Slice = Header(endPos: nat) | Hash(d: Digest)

  predicate OnDisk(i: nat) { 1 <= i < 256 || 2048 <= i < 4096 }

  /** Byte offset of position i of twig t. */
  function Off(t: nat, i: nat): nat
    requires OnDisk(i)
  {
    t * TWIG_SIZE + 12 + (i - 1) * 32 - (if i >= 2048 then IGNORED * 32 else 0)
  }

  /** A leaf tree whose inner positions are all right. */
  ghost predicate FullTree(tree: seq<Digest>) {
    |tree| == 4096 && forall i {:trigger Is(tree, tree[2048..], i)} :: 1 <= i < 4096 ==> Is(tree, tree[2048..], i)
  }

  /** The stored positions of twig t are those of the tree. */
  ghost predicate Stored(slices: map<nat, Slice>, t: nat, tree: seq<Digest>)
    requires |tree| == 4096
  {
    forall i: nat {:trigger Off(t, i)} :: OnDisk(i) ==> Off(t, i) in slices && slices[Off(t, i)] == Hash(tree[i])
  }

  ghost predicate StoredHeader(slices: map<nat, Slice>, t: nat, endPos: nat) {
    t * TWIG_SIZE in slices && slices[t * TWIG_SIZE] == Header(endPos)
  }

  /** `get_leaf_range`: the eight leaves below the level-3 ancestor of an omitted position. */
  function LeafRange(id: nat): (r: (nat, nat))
    requires 256 <= id < 2048
    ensures r.1 == r.0 + 8 && r.0 % 8 == 0 && 2048 <= r.0 && r.1 <= 4096
    ensures id == r.0 / 8 || r.0 / 4 <= id < r.1 / 4 || r.0 / 2 <= id < r.1 / 2
  {
    if id < 512 then (id * 8, id * 8 + 8)
    else if id < 1024 then ((id / 2) * 8, (id / 2) * 8 + 8)
    else ((id / 4) * 8, (id / 4) * 8 + 8)
  }

  /** An inner position of a full tree hashes its children, tagged with their level. */
  lemma InnerNode(tree: seq<Digest>, i: nat)
    requires FullTree(tree) && 1 <= i < 2048
    ensures BitLen(i) <= 11 && tree[i] == Node(11 - BitLen(i), tree[2 * i], tree[2 * i + 1])
  {
    BitLenBounds(i, 11);
    PowersOfTwo();
    assert Is(tree, tree[2048..], i) && Is(tree, tree[2048..], 2 * i) && Is(tree, tree[2048..], 2 * i + 1);
  }

  /** The omitted positions are the lowest three inner levels. */
  lemma OmittedLevel(i: nat)
    requires 256 <= i < 2048
    ensures BitLen(i) == if i < 512 then 9 else if i < 1024 then 10 else 11
  {
    BitLenBounds(i, 8);
    BitLenBounds(i, 9);
    BitLenBounds(i, 10);
    BitLenBounds(i, 11);
    assert Shl(1, 8) == 256 && Shl(1, 9) == 512 && Shl(1, 10) == 1024 by {
      assert Shl(1, 2) == 4 && Shl(1, 4) == 16 && Shl(1, 6) == 64;
    }
    PowersOfTwo();
  }

  lemma OmittedNode(tree: seq<Digest>, i: nat)
    requires FullTree(tree) && 256 <= i < 2048
    ensures tree[i] == Node(if i < 512 then 2 else if i < 1024 then 1 else 0, tree[2 * i], tree[2 * i + 1])
  {
    InnerNode(tree, i);
    OmittedLevel(i);
  }

  /** Every cached position is the tree's. */
  ghost predicate CacheRight(cache: map<nat, Digest>, tree: seq<Digest>)
    requires |tree| == 4096
  {
    forall k :: k in cache ==> 256 <= k < 2048 && cache[k] == tree[k]
  }

  class File {
    var slices: map<nat, Slice>
    var size: nat

    constructor ()
      ensures slices == map[] && size == 0
    {
      slices, size := map[], 0;
    }

    ghost predicate Valid()
      reads this
    {
      size % TWIG_SIZE == 0 && forall o :: o in slices ==> o < size
    }

    /** `append_twig`: header, positions 1..255, leaves. Everything written before stays. */
    method AppendTwig(tree: seq<Digest>, endPos: nat)
      requires Valid() && |tree| == 4096
      modifies this
      ensures Valid() && size == old(size) + TWIG_SIZE
      ensures Stored(slices, old(size) / TWIG_SIZE, tree) && StoredHeader(slices, old(size) / TWIG_SIZE, endPos)
      ensures forall o :: o in old(slices) ==> o in slices && slices[o] == old(slices)[o]
    {
      ghost var (start, t) := (size, size / TWIG_SIZE);
      assert t * TWIG_SIZE == start;
      AppendSlice(Header(endPos));
      for i := 1 to 256
        invariant size == start + 12 + (i - 1) * 32 && (forall o :: o in slices ==> o < size)
        invariant forall o :: o in old(slices) ==> o in slices && slices[o] == old(slices)[o]
        invariant start in slices && slices[start] == Header(endPos)
        invariant forall k {:trigger Off(t, k)} ::
                    1 <= k < i ==> Off(t, k) in slices && slices[Off(t, k)] == Hash(tree[k])
      {
        AppendSlice(Hash(tree[i]));
      }
      for i := 2048 to 4096
        invariant size == start + 12 + (i - 1 - 1792) * 32 && (forall o :: o in slices ==> o < size)
        invariant forall o :: o in old(slices) ==> o in slices && slices[o] == old(slices)[o]
        invariant start in slices && slices[start] == Header(endPos)
        invariant forall k {:trigger Off(t, k)} ::
                    (1 <= k < 256 || 2048 <= k < i) ==> Off(t, k) in slices && slices[Off(t, k)] == Hash(tree[k])
      {
        AppendSlice(Hash(tree[i]));
      }
    }

    method AppendSlice(s: Slice)
      requires forall o :: o in slices ==> o < size
      modifies this
      ensures slices == old(slices)[old(size) := s]
      ensures size == old(size) + if s.Header? then 12 else 32
    {
      slices := slices[size := s];
      size := size + if s.Header? then 12 else 32;
    }

    /** `get_first_entry_pos`: twig t starts where the entries of twig t - 1 end. */
    method GetFirstEntryPos(t: nat, ghost ends: seq<nat>) returns (pos: nat)
      requires t <= |ends| && forall k :: 0 <= k < t ==> StoredHeader(slices, k, ends[k])
      ensures pos == if t == 0 then 0 else ends[t - 1]
    {
      if t == 0 { return 0; }
      assert StoredHeader(slices, t - 1, ends[t - 1]);
      return slices[(t - 1) * TWIG_SIZE].endPos;
    }

    /** `get_hash_node`: for every position of a stored full tree, on disk or omitted, the answer
        is that tree's node, whatever the shared cache held before. */
    method GetHashNode(t: nat, id: int, cache: map<nat, Digest>, ghost tree: seq<Digest>)
      returns (out: Option<Digest>, cache': map<nat, Digest>)
      requires FullTree(tree) && Stored(slices, t, tree)
      ensures out == if 1 <= id < 4096 then Some(tree[id]) else None
      ensures CacheRight(cache, tree) ==> CacheRight(cache', tree)
    {
      cache' := cache;
      if id <= 0 || id >= 4096 { return None, cache'; }
      if 256 <= id < 2048 {
        var d;
        d, cache' := GetInIgnoredRange(t, id, cache, tree);
        return Some(d), cache';
      }
      return Some(slices[Off(t, id)].d), cache';
    }

    /** `get_hash_node_in_ignore_range`: read the eight leaves and rebuild their cone in the
        cache, one level at a time. */
    method GetInIgnoredRange(t: nat, id: nat, cache0: map<nat, Digest>, ghost tree: seq<Digest>)
      returns (out: Digest, cache: map<nat, Digest>)
      requires 256 <= id < 2048 && FullTree(tree) && Stored(slices, t, tree)
      ensures out == tree[id]
      ensures CacheRight(cache0, tree) ==> CacheRight(cache, tree)
    {
      var (start, end) := LeafRange(id);
      cache := FirstRow(t, start, cache0, tree);
      for i := start / 4 to end / 4
        invariant CacheRight(cache0, tree) ==> CacheRight(cache, tree)
        invariant forall k :: start / 2 <= k < end / 2 || start / 4 <= k < i ==> k in cache && cache[k] == tree[k]
      {
        OmittedNode(tree, i);
        cache := cache[i := Node(1, cache[2 * i], cache[2 * i + 1])];
      }
      var top := start / 8;
      OmittedNode(tree, top);
      cache := cache[top := Node(2, cache[2 * top], cache[2 * top + 1])];
      out := cache[id];
    }

    /** The four nodes right above the eight leaves. */
    method FirstRow(t: nat, start: nat, cache0: map<nat, Digest>, ghost tree: seq<Digest>)
      returns (cache: map<nat, Digest>)
      requires start % 8 == 0 && 2048 <= start <= 4088 && FullTree(tree) && Stored(slices, t, tree)
      ensures CacheRight(cache0, tree) ==> CacheRight(cache, tree)
      ensures forall k :: start / 2 <= k < (start + 8) / 2 ==> k in cache && cache[k] == tree[k]
    {
      var end := start + 8;
      cache := cache0;
      for i := start / 2 to end / 2
        invariant CacheRight(cache0, tree) ==> CacheRight(cache, tree)
        invariant forall k :: start / 2 <= k < i ==> k in cache && cache[k] == tree[k]
      {
        OmittedNode(tree, i);
        var (l, r) := (slices[Off(t, 2 * i)].d, slices[Off(t, 2 * i + 1)].d);
        cache := cache[i := Node(0, l, r)];
      }
    }
  }
}
