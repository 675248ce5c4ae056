/** Merkle proofs: checking, the wire form, and what an accepted proof binds. */
module Proof {
  import opened Basics
  import opened Merkle

  datatype ProofNode = ProofNode(self: Digest, peer: Digest, peerAtLeft: bool)

  /** Bit k of a serial number. */
  predicate Bit(sn: nat, k: nat) { Shr(sn, k) % 2 == 1 }

  /** Hash upwards along a path whose first node is at this level. */
  function Fold(level: nat, h: Digest, path: seq<ProofNode>): Digest
    decreases |path|
  {
    if path == [] then h
    else Fold(level + 1, Hash2x(level, h, path[0].peer, path[0].peerAtLeft), path[1..])
  }

  /** The own hashes stored along a path are the ones computed on the way up. */
  ghost predicate SelfsMatch(level: nat, h: Digest, path: seq<ProofNode>) {
    forall k :: 0 <= k < |path| ==> path[k].self == Fold(level, h, path[..k])
  }

  lemma {:induction false} FoldLast(level: nat, h: Digest, path: seq<ProofNode>)
    requires path != []
    ensures var n := |path| - 1;
            Fold(level, h, path) == Hash2x(level + n, Fold(level, h, path[..n]), path[n].peer, path[n].peerAtLeft)
    decreases |path|
  {
    if |path| > 1 {
      FoldLast(level + 1, Hash2x(level, h, path[0].peer, path[0].peerAtLeft), path[1..]);
      assert path[1..][..|path| - 2] == path[..|path| - 1][1..];
    }
  }

  // ---------------------------------------------------------------- proof paths

  /** The content of a proof: 11 levels of leaf tree, 3 levels of active bits, the upper path. */
  datatype Path = Path(left: seq<ProofNode>, right: seq<ProofNode>, upper: seq<ProofNode>, serialNum: nat, root: Digest)

  predicate Shaped(p: Path) { |p.left| == 11 && |p.right| == 3 }

  function TwigRootOf(p: Path): Digest
    requires Shaped(p)
  {
    Node(11, Fold(0, p.left[0].self, p.left), Fold(8, p.right[0].self, p.right))
  }

  /** The leaf and the bit page lead to the root. */
  predicate Accepts(p: Path)
    requires Shaped(p)
  {
    p.upper != [] && Fold(12, TwigRootOf(p), p.upper) == p.root
  }

  ghost predicate Complete(p: Path)
    requires Shaped(p)
  {
    && SelfsMatch(0, p.left[0].self, p.left) && SelfsMatch(8, p.right[0].self, p.right)
    && SelfsMatch(12, TwigRootOf(p), p.upper)
  }

  /** Ok, a mismatch, or the index panic on an empty upper path. */
  datatype Outcome = Ok | Mismatch | Panic

  class ProofPath {
    var left: seq<ProofNode>
    var right: seq<ProofNode>
    var upper: seq<ProofNode>
    var serialNum: nat
    var root: Digest

    ghost function View(): Path
      reads this
    {
      Path(left, right, upper, serialNum, root)
    }

    constructor (p: Path)
      ensures View() == p
    {
      left, right, upper, serialNum, root := p.left, p.right, p.upper, p.serialNum, p.root;
    }

    /** `check`: recompute the chain of hashes; fill in the own hashes when asked to complete the
        path, compare them otherwise. */
    method Check(complete: bool) returns (r: Outcome)
      requires Shaped(View())
      modifies this
      ensures r == Panic ==> old(upper) == []
      ensures r == Ok <==> Accepts(old(View())) && (complete || Complete(old(View())))
      ensures Shaped(View()) && SameContent(View(), old(View()))
      ensures !complete ==> View() == old(View())
      ensures complete && r == Ok ==> Complete(View())
    {
      ghost var p := View();
      var ok, leafRoot, bitsRoot, top;
      left, ok, leafRoot := Climb(0, left, complete);
      if !ok { return Mismatch; }
      right, ok, bitsRoot := Climb(8, right, complete);
      if !ok { return Mismatch; }
      var twigRoot := Node(11, leafRoot, bitsRoot);
      if upper == [] { return Panic; }
      if complete {
        upper := upper[0 := upper[0].(self := twigRoot)];
        FoldSamePeers(12, twigRoot, upper, p.upper);
      } else if upper[0].self != twigRoot {
        return Mismatch;
      }
      upper, ok, top := Climb(12, upper, complete);
      if !ok || top != root { return Mismatch; }
      assert TwigRootOf(View()) == twigRoot by {
        FoldSamePeers(0, p.left[0].self, left, p.left);
        FoldSamePeers(8, p.right[0].self, right, p.right);
      }
      return Ok;
    }
  }

  /** The two paths agree on everything but the own hashes above the leaf and the bit page. */
  ghost predicate SameContent(a: Path, b: Path)
    requires Shaped(a) && Shaped(b)
  {
    && a.left[0].self == b.left[0].self && SamePeers(a.left, b.left)
    && a.right[0].self == b.right[0].self && SamePeers(a.right, b.right)
    && SamePeers(a.upper, b.upper) && a.serialNum == b.serialNum && a.root == b.root
  }

  ghost predicate SamePeers(a: seq<ProofNode>, b: seq<ProofNode>) {
    |a| == |b| && forall k :: 0 <= k < |a| ==> a[k].peer == b[k].peer && a[k].peerAtLeft == b[k].peerAtLeft
  }

  lemma {:induction false} FoldSamePeers(level: nat, h: Digest, a: seq<ProofNode>, b: seq<ProofNode>)
    requires SamePeers(a, b)
    ensures Fold(level, h, a) == Fold(level, h, b)
    decreases |a|
  {
    if a != [] {
      FoldSamePeers(level + 1, Hash2x(level, h, a[0].peer, a[0].peerAtLeft), a[1..], b[1..]);
    }
  }

  /** One stretch of `check`: from the first own hash to the hash above the last. */
  method Climb(level: nat, path: seq<ProofNode>, complete: bool) returns (path': seq<ProofNode>, ok: bool, top: Digest)
    requires path != []
    ensures SamePeers(path', path) && path'[0] == path[0]
    ensures ok <==> complete || SelfsMatch(level, path[0].self, path)
    ensures !complete ==> path' == path
    ensures ok ==> SelfsMatch(level, path[0].self, path') && top == Fold(level, path[0].self, path)
  {
    path' := path;
    for i := 0 to |path| - 1
      invariant SamePeers(path', path) && path'[0] == path[0]
      invariant !complete ==> path' == path
      invariant forall k :: 0 <= k <= i ==> path'[k].self == Fold(level, path[0].self, path'[..k])
    {
      var res := Hash2x(level + i, path'[i].self, path'[i].peer, path'[i].peerAtLeft);
      FoldLast(level, path[0].self, path'[..i + 1]);
      assert path'[..i + 1][..i] == path'[..i];
      ghost var before := path';
      if complete {
        path' := path'[i + 1 := path'[i + 1].(self := res)];
        assert forall k :: 0 <= k <= i + 1 ==> path'[..k] == before[..k];
      } else if res != path'[i + 1].self {
        return path', false, res;
      }
    }
    ok := true;
    var n := |path| - 1;
    top := Hash2x(level + n, path'[n].self, path'[n].peer, path'[n].peerAtLeft);
    FoldLast(level, path[0].self, path');
    FoldSamePeers(level, path[0].self, path', path);
  }

  // ---------------------------------------------------------------- binding

  /** The level tag gives away how long a path was. */
  lemma FoldTag(level: nat, h: Digest, path: seq<ProofNode>)
    requires path != []
    ensures Fold(level, h, path).Node? && Fold(level, h, path).level == level + |path| - 1
  {
    FoldLast(level, h, path);
  }

  /** Equal results of equally long paths with the same directions come from equal inputs. */
  lemma {:induction false} FoldInjective(level: nat, g: Digest, h: Digest, a: seq<ProofNode>, b: seq<ProofNode>)
    requires |a| == |b| && forall k :: 0 <= k < |a| ==> a[k].peerAtLeft == b[k].peerAtLeft
    requires Fold(level, g, a) == Fold(level, h, b)
    ensures g == h && SamePeers(a, b)
    decreases |a|
  {
    if a != [] {
      var n := |a| - 1;
      FoldLast(level, g, a);
      FoldLast(level, h, b);
      FoldInjective(level, g, h, a[..n], b[..n]);
    }
  }

  /** The directions of a path are the bits of its serial number, as decoding sets them. */
  ghost predicate Directed(p: Path) {
    && Shaped(p)
    && (forall i :: 0 <= i < 11 ==> p.left[i].peerAtLeft == Bit(p.serialNum, i))
    && (forall i :: 0 <= i < 3 ==> p.right[i].peerAtLeft == Bit(p.serialNum, 8 + i))
    && (forall i :: 0 <= i < |p.upper| ==> p.upper[i].peerAtLeft == Bit(p.serialNum, 11 + i))
  }

  ghost predicate SameTurns(a: seq<ProofNode>, b: seq<ProofNode>) {
    |a| == |b| ==> forall k :: 0 <= k < |a| ==> a[k].peerAtLeft == b[k].peerAtLeft
  }

  /** Two accepted paths for the same root agree on everything exactly when they turn the same
      way at every level. The level tag already forces equal lengths. */
  lemma BindingIff(p: Path, q: Path)
    requires Shaped(p) && Shaped(q) && p.serialNum == q.serialNum && p.root == q.root
    requires Accepts(p) && Accepts(q)
    ensures |p.upper| == |q.upper|
    ensures SameContent(p, q) <==>
              SameTurns(p.left, q.left) && SameTurns(p.right, q.right) && SameTurns(p.upper, q.upper)
  {
    FoldTag(12, TwigRootOf(p), p.upper);
    FoldTag(12, TwigRootOf(q), q.upper);
    if SameTurns(p.left, q.left) && SameTurns(p.right, q.right) && SameTurns(p.upper, q.upper) {
      FoldInjective(12, TwigRootOf(p), TwigRootOf(q), p.upper, q.upper);
      FoldInjective(0, p.left[0].self, q.left[0].self, p.left, q.left);
      FoldInjective(8, p.right[0].self, q.right[0].self, p.right, q.right);
    }
  }

  /** Proof binding: two accepted decoded paths for the same serial number and root have the same
      upper length, the same leaf, the same page of active bits, and indeed the same peers. */
  lemma Binding(p: Path, q: Path)
    requires Directed(p) && Directed(q) && p.serialNum == q.serialNum && p.root == q.root
    requires Accepts(p) && Accepts(q)
    ensures |p.upper| == |q.upper| && SameContent(p, q)
  {
    BindingIff(p, q);
  }

  /** `check` itself does not tie the directions to the serial number: without that, two
      accepted paths for one serial number and root can disagree on the leaf. */
  lemma UndirectedDoesNotBind() returns (p: Path, q: Path)
    ensures Shaped(p) && Shaped(q) && p.serialNum == q.serialNum && p.root == q.root
    ensures Accepts(p) && Complete(p) && Accepts(q) && Complete(q)
    ensures p.left[0].self != q.left[0].self
  {
    var (x, y) := (Raw([0]), Raw([1]));
    var up := [ProofNode(x, x, false)];
    p := Filled(Path(seq(11, _ => ProofNode(x, y, false)), seq(3, _ => ProofNode(x, x, false)), up, 0, x));
    q := Filled(Path([ProofNode(y, x, true)] + seq(10, _ => ProofNode(x, y, false)),
        seq(3, _ => ProofNode(x, x, false)), up, 0, x));
    FilledAccepts(Path(seq(11, _ => ProofNode(x, y, false)), seq(3, _ => ProofNode(x, x, false)), up, 0, x));
    FilledAccepts(Path([ProofNode(y, x, true)] + seq(10, _ => ProofNode(x, y, false)),
        seq(3, _ => ProofNode(x, x, false)), up, 0, x));
    assert Fold(0, y, q.left) == Fold(1, Hash2x(0, y, x, true), q.left[1..]);
    assert Fold(0, x, p.left) == Fold(1, Hash2x(0, x, y, false), p.left[1..]);
    FoldSamePeers(1, Node(0, x, y), p.left[1..], q.left[1..]);
  }

  /** A stretch with its own hashes filled in. */
  ghost function FillPath(level: nat, h: Digest, path: seq<ProofNode>): (r: seq<ProofNode>)
    ensures SamePeers(r, path)
  {
    seq(|path|, k requires 0 <= k < |path| => path[k].(self := Fold(level, h, path[..k])))
  }

  /** A path with every own hash filled in and the root it leads to. */
  ghost function Filled(p: Path): Path
    requires Shaped(p)
  {
    var l := FillPath(0, p.left[0].self, p.left);
    var r := FillPath(8, p.right[0].self, p.right);
    p.(left := l, right := r, upper := FillPath(12, TwigRootOf(p), p.upper), root := Fold(12, TwigRootOf(p), p.upper))
  }

  lemma FillPathMatches(level: nat, h: Digest, path: seq<ProofNode>)
    ensures SelfsMatch(level, h, FillPath(level, h, path))
    ensures Fold(level, h, FillPath(level, h, path)) == Fold(level, h, path)
  {
    var r := FillPath(level, h, path);
    forall k | 0 <= k < |r| ensures r[k].self == Fold(level, h, r[..k]) {
      FoldSamePeers(level, h, path[..k], r[..k]);
    }
    FoldSamePeers(level, h, r, path);
  }

  lemma FilledAccepts(p: Path)
    requires Shaped(p) && p.upper != []
    ensures Accepts(Filled(p)) && Complete(Filled(p))
    ensures Filled(p).left[0].self == p.left[0].self && TwigRootOf(Filled(p)) == TwigRootOf(p)
  {
    FillPathMatches(0, p.left[0].self, p.left);
    FillPathMatches(8, p.right[0].self, p.right);
    FillPathMatches(12, TwigRootOf(p), p.upper);
  }

  // ---------------------------------------------------------------- the wire form

  /** Bytes of a proof: 8 for the serial number, then 32-byte words, then what is left over. */
  datatype Wire = Wire(serialNum: nat, words: seq<Digest>, tail: nat)

  /** Words that are not part of the upper path: leaf, 11 peers, page, 3 peers, root. */
  const OTHER_NODE_COUNT: nat := 17

  function Peers(path: seq<ProofNode>): seq<Digest> {
    seq(|path|, k requires 0 <= k < |path| => path[k].peer)
  }

  function Encode(p: Path): Wire
    requires Shaped(p)
  {
    Wire(p.serialNum,
        [p.left[0].self] + Peers(p.left) + [p.right[0].self] + Peers(p.right) + Peers(p.upper) + [p.root], 0)
  }

  /** Where everything is: the leaf, its 11 peers, the page, its 3 peers, the upper peers from the twig up,
      the root. */
  ghost predicate LaidOut(p: Path, w: Wire)
    requires Shaped(p)
  {
    && w.serialNum == p.serialNum && w.tail == 0 && |w.words| == 17 + |p.upper|
    && w.words[0] == p.left[0].self && (forall i :: 0 <= i < 11 ==> w.words[1 + i] == p.left[i].peer)
    && w.words[12] == p.right[0].self && (forall i :: 0 <= i < 3 ==> w.words[13 + i] == p.right[i].peer)
    && (forall i :: 0 <= i < |p.upper| ==> w.words[16 + i] == p.upper[i].peer)
    && w.words[16 + |p.upper|] == p.root
  }

  lemma EncodeLaysOut(p: Path)
    requires Shaped(p)
    ensures LaidOut(p, Encode(p))
  {
  }

  /** Path nodes read from words; only the first own hash is known. */
  function Nodes(first: Digest, words: seq<Digest>, sn: nat, bit: nat): seq<ProofNode> {
    seq(|words|, k requires 0 <= k < |words| => ProofNode(if k == 0 then first
        else Raw([]), words[k], Bit(sn, bit + k)))
  }

  /** `bytes_to_proof_path`: fails on a partial word, on too few words, and on more upper words
      than a 64-bit serial number has bits for. */
  function Decode(w: Wire): Option<Path> {
    var n := |w.words|;
    if w.tail != 0 || n < OTHER_NODE_COUNT || n - OTHER_NODE_COUNT > 53 then None
    else Some(Path(Nodes(w.words[0], w.words[1..12], w.serialNum, 0),
        Nodes(w.words[12], w.words[13..16], w.serialNum, 8),
                   Nodes(Raw([]), w.words[16..n - 1], w.serialNum, 11), w.serialNum, w.words[n - 1]))
  }

  /** `to_bytes`. */
  method ToBytes(p: Path) returns (w: Wire)
    requires Shaped(p)
    ensures w == Encode(p) && LaidOut(p, w)
  {
    EncodeLaysOut(p);
    var words := [p.left[0].self];
    for i := 0 to 11
      invariant words == [p.left[0].self] + Peers(p.left)[..i]
    {
      words := words + [p.left[i].peer];
    }
    assert Peers(p.left)[..11] == Peers(p.left);
    words := words + [p.right[0].self];
    ghost var w1 := words;
    for i := 0 to 3
      invariant words == w1 + Peers(p.right)[..i]
    {
      words := words + [p.right[i].peer];
    }
    assert Peers(p.right)[..3] == Peers(p.right);
    ghost var w2 := words;
    for i := 0 to |p.upper|
      invariant words == w2 + Peers(p.upper)[..i]
    {
      words := words + [p.upper[i].peer];
    }
    assert Peers(p.upper)[..|p.upper|] == Peers(p.upper);
    return Wire(p.serialNum, words + [p.root], 0);
  }

  /** The loops of `bytes_to_proof_path`. */
  method BytesToProofPath(w: Wire) returns (r: Option<Path>)
    ensures r == Decode(w) && (r.Some? ==> Directed(r.value) && LaidOut(r.value, w))
  {
    if Decode(w).Some? {
      DecodeThenEncode(w);
      EncodeLaysOut(Decode(w).value);
    }
    var n := |w.words|;
    if w.tail != 0 || n < OTHER_NODE_COUNT || n - OTHER_NODE_COUNT > 53 { return None; }
    var left := ReadNodes(w.words[0], w.words[1..12], w.serialNum, 0);
    var right := ReadNodes(w.words[12], w.words[13..16], w.serialNum, 8);
    var upper := ReadNodes(Raw([]), w.words[16..n - 1], w.serialNum, 11);
    return Some(Path(left, right, upper, w.serialNum, w.words[n - 1]));
  }

  method ReadNodes(first: Digest, words: seq<Digest>, sn: nat, bit: nat) returns (nodes: seq<ProofNode>)
    ensures nodes == Nodes(first, words, sn, bit)
  {
    nodes := [];
    for i := 0 to |words|
      invariant nodes == Nodes(first, words, sn, bit)[..i]
    {
      nodes := nodes + [ProofNode(if i == 0 then first else Raw([]), words[i], Bit(sn, bit + i))];
    }
  }

  /** A decoded path is directed, and encodes back to the bytes it came from. */
  lemma DecodeThenEncode(w: Wire)
    requires Decode(w).Some?
    ensures Directed(Decode(w).value) && Encode(Decode(w).value) == w
  {
    var p := Decode(w).value;
    var n := |w.words|;
    assert Peers(p.left) == w.words[1..12] && Peers(p.right) == w.words[13..16] && Peers(p.upper) == w.words[16..n - 1];
    assert w.words ==
        [w.words[0]] + w.words[1..12] + [w.words[12]] + w.words[13..16] + w.words[16..n - 1] + [w.words[n - 1]];
  }

  /** A directed path of a legal height survives the trip up to the own hashes that checking
      recomputes, so it is accepted after the trip exactly when it was before. */
  lemma EncodeThenDecode(p: Path)
    requires Directed(p) && |p.upper| <= 53
    ensures Decode(Encode(p)).Some? && SameContent(Decode(Encode(p)).value, p)
    ensures Accepts(Decode(Encode(p)).value) <==> Accepts(p)
  {
    var w := Encode(p);
    var n := |w.words|;
    assert w.words[1..12] == Peers(p.left) && w.words[13..16] == Peers(p.right) && w.words[16..n - 1] == Peers(p.upper);
    var q := Decode(w).value;
    FoldSamePeers(0, p.left[0].self, q.left, p.left);
    FoldSamePeers(8, p.right[0].self, q.right, p.right);
    FoldSamePeers(12, TwigRootOf(p), q.upper, p.upper);
  }

  /** `check_proof`: check as built, serialise, parse, check again. For a directed path the second
      check never disagrees with the first. */
  method CheckProof(p: Path) returns (r: Option<Wire>)
    requires Directed(p) && |p.upper| <= 53
    ensures r == if Accepts(p) && Complete(p) then Some(Encode(p)) else None
  {
    var path := new ProofPath(p);
    var first := path.Check(false);
    if first != Ok { return None; }
    var w := ToBytes(p);
    EncodeThenDecode(p);
    var parsed := BytesToProofPath(w);
    var again := new ProofPath(parsed.value);
    var second := again.Check(true);
    return if second == Ok then Some(w) else None;
  }
}
