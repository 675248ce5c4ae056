/** Digests as a free term algebra, and the recursive Merkle definition that every incremental
    structure of the tree is measured against. */
module Merkle {

  /** A 32-byte value: the hash of an entry, a page of 256 active bits stored as is, or the hash
      of two children tagged with the children's level. Hashing is injective because terms are. */
  datatype Digest = Raw(payload: seq<nat>) | Page(bits: seq<bool>) | Node(level: nat, left: Digest, right: Digest)

  /** `hash2x`: the two inputs, exchanged on request. */
  function Hash2x(level: nat, a: Digest, b: Digest, exchange: bool): Digest {
    if exchange then Node(level, b, a) else Node(level, a, b)
  }

  const TWIG_ROOT_LEVEL: nat := 12
  const FIRST_LEVEL_ABOVE_TWIG: nat := 13

  // ---------------------------------------------------------------- shifts

  /** n >> k. */
  function Shr(n: nat, k: nat): nat
    decreases k
  {
    if k == 0 then n else Shr(n, k - 1) / 2
  }

  /** n << k. */
  function Shl(n: nat, k: nat): nat
    decreases k
  {
    if k == 0 then n else 2 * Shl(n, k - 1)
  }

  /** Number of significant bits: 64 - leading_zeros. */
  function BitLen(n: nat): nat { if n == 0 then 0 else 1 + BitLen(n / 2) }

  /** `calc_max_level`: the level of the root when the youngest twig has this id. */
  function MaxLevel(youngest: nat): nat { TWIG_ROOT_LEVEL + BitLen(youngest) }

  lemma {:induction false} ShrFirst(n: nat, k: nat)
    requires k > 0
    ensures Shr(n, k) == Shr(n / 2, k - 1)
  {
    if k > 1 { ShrFirst(n, k - 1); }
  }

  lemma {:induction false} ShrAdd(n: nat, a: nat, b: nat)
    ensures Shr(n, a + b) == Shr(Shr(n, a), b)
    decreases b
  {
    if b > 0 { ShrAdd(n, a, b - 1); }
  }

  predicate IsShr(n: nat, k: nat, r: nat) { Shr(n, k) == r }

  lemma ShrFour(n: nat)
    ensures IsShr(n, 4, n / 16)
  {
    assert Shr(n, 1) == Shr(n, 0) / 2 == n / 2;
    assert Shr(n, 2) == n / 4;
    assert Shr(n, 3) == n / 8;
  }

  lemma ShrBytes(n: nat)
    ensures IsShr(n, 8, n / 256) && IsShr(n, 12, n / 4096) && IsShr(n, 11, n / 2048)
  {
    ShrAdd(n, 4, 4);
    ShrFour(n);
    ShrFour(n / 16);
    ShrAdd(n, 8, 4);
    ShrFour(n / 256);
    ShrAdd(n, 8, 3);
    assert Shr(n / 256, 1) == Shr(n / 256, 0) / 2;
    assert Shr(n / 256, 2) == n / 1024;
    assert Shr(n / 256, 3) == n / 2048;
  }

  lemma {:induction false} ShrMonotone(a: nat, b: nat, k: nat)
    requires a <= b
    ensures Shr(a, k) <= Shr(b, k)
  {
    if k > 0 { ShrMonotone(a, b, k - 1); }
  }

  lemma {:induction false} ShrVanishes(n: nat, k: nat)
    ensures Shr(n, k) == 0 <==> k >= BitLen(n)
  {
    if k > 0 {
      ShrFirst(n, k);
      ShrVanishes(n / 2, k - 1);
    }
  }

  lemma {:induction false} BitLenStep(n: nat)
    ensures BitLen(n) <= BitLen(n + 1) <= BitLen(n) + 1
  {
    if n > 0 && n % 2 != 0 { BitLenStep(n / 2); }
  }

  /** Shl(n, k) is the least number that shifts down to n. */
  lemma {:induction false} ShlShr(n: nat, t: nat, k: nat)
    ensures Shr(Shl(n, k), k) == n
    ensures Shl(n, k) <= t <==> n <= Shr(t, k)
    decreases k
  {
    if k > 0 {
      ShlFirst(n, k);
      ShlShr(2 * n, t, k - 1);
    }
  }

  lemma {:induction false} ShlFirst(n: nat, k: nat)
    requires k > 0
    ensures Shl(n, k) == Shl(2 * n, k - 1)
    decreases k
  {
    if k > 1 { ShlFirst(n, k - 1); }
  }

  // ---------------------------------------------------------------- the reference tree

  /** The Merkle value of position (level, n) above a list of twig roots, padded with `nul`
      twigs on the right. */
  ghost function M(roots: seq<Digest>, nul: Digest, level: nat, n: nat): Digest
    requires level >= TWIG_ROOT_LEVEL
    decreases level
  {
    if level == TWIG_ROOT_LEVEL then At(roots, nul, n)
    else Node(level - 1, M(roots, nul, level - 1, 2 * n), M(roots, nul, level - 1, 2 * n + 1))
  }

  function At(roots: seq<Digest>, nul: Digest, n: nat): Digest {
    if n < |roots| then roots[n] else nul
  }

  /** `NULL_NODE_IN_HIGHER_TREE`: a subtree without any twig. */
  function NullNode(nul: Digest, level: nat): Digest
    requires level >= TWIG_ROOT_LEVEL
    decreases level
  {
    if level == TWIG_ROOT_LEVEL then nul else Node(level - 1, NullNode(nul, level - 1), NullNode(nul, level - 1))
  }

  /** Right of the youngest twig's ancestor there are only null nodes. */
  lemma {:induction false} NullBeyond(roots: seq<Digest>, nul: Digest, level: nat, n: nat)
    requires level >= TWIG_ROOT_LEVEL && roots != [] && n > Shr(|roots| - 1, level - TWIG_ROOT_LEVEL)
    ensures M(roots, nul, level, n) == NullNode(nul, level)
    decreases level
  {
    if level > TWIG_ROOT_LEVEL {
      NullBeyond(roots, nul, level - 1, 2 * n);
      NullBeyond(roots, nul, level - 1, 2 * n + 1);
    }
  }

  ghost predicate Agree(roots: seq<Digest>, roots': seq<Digest>, nul: Digest, t: nat) {
    At(roots, nul, t) == At(roots', nul, t)
  }

  /** A node depends only on the twigs below it. */
  lemma {:induction false} MFrame(roots: seq<Digest>, roots': seq<Digest>, nul: Digest, level: nat, n: nat)
    requires level >= TWIG_ROOT_LEVEL
    requires forall t: nat {:trigger Agree(roots, roots', nul, t)} ::
               Shr(t, level - TWIG_ROOT_LEVEL) == n ==> Agree(roots, roots', nul, t)
    ensures M(roots, nul, level, n) == M(roots', nul, level, n)
    decreases level
  {
    if level == TWIG_ROOT_LEVEL {
      assert Agree(roots, roots', nul, n);
    } else {
      MFrame(roots, roots', nul, level - 1, 2 * n);
      MFrame(roots, roots', nul, level - 1, 2 * n + 1);
    }
  }
}
