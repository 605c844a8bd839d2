/**
 Index arithmetic behind the strided sweeps of the Kronecker kernel: a flat
 position in a buffer of `nleft * m * nright` entries splits uniquely into an
 outer block, a digit along the active mode and an inner offset.
 */
module Arith {

  lemma MulMonotone(a: int, b: int, c: int)
    requires a <= b && 0 <= c
    ensures a * c <= b * c
  {
    assert b * c - a * c == (b - a) * c;
  }

  lemma MulDistributes(a: int, b: int, c: int)
    ensures (a + b) * c == a * c + b * c
  {
  }

  /** Euclidean division is determined by its quotient and remainder. */
  lemma DivModUnique(p: int, d: int, q: int, r: int)
    requires 0 < d && 0 <= r < d && p == q * d + r
    ensures p / d == q && p % d == r
  {
    var q', r' := p / d, p % d;
    assert p == q' * d + r' && 0 <= r' < d;
    assert (q - q') * d == r' - r;
    if q - q' >= 1 {
      MulMonotone(1, q - q', d);
    } else if q - q' <= -1 {
      MulMonotone(q - q', -1, d);
    }
  }

  /** The outer block of position `p` in a sweep with mode size `m` and stride `nright`. */
  function Block(p: nat, m: nat, nright: nat): nat
    requires 0 < m && 0 < nright
  {
    p / (m * nright)
  }

  /** The index of position `p` along the active mode. */
  function Digit(p: nat, m: nat, nright: nat): nat
    requires 0 < m && 0 < nright
  {
    (p / nright) % m
  }

  /** The inner offset of position `p`, which is also its offset in the fiber's start. */
  function Offset(p: nat, nright: nat): nat
    requires 0 < nright
  {
    p % nright
  }

  /** Position of digit `t` on the fiber of block `k` and inner offset `j`. */
  function FiberPos(k: nat, j: nat, t: nat, m: nat, nright: nat): nat
  {
    k * (m * nright) + t * nright + j
  }

  /** Composing block, digit and offset back gives the position, and each lies in its range. */
  lemma {:induction false} Decompose(p: nat, m: nat, nright: nat)
    requires 0 < m && 0 < nright
    ensures Digit(p, m, nright) < m && Offset(p, nright) < nright
    ensures p == FiberPos(Block(p, m, nright), Offset(p, nright), Digit(p, m, nright), m, nright)
  {
    var q, j := p / nright, p % nright;
    var k, t := q / m, q % m;
    assert p == q * nright + j;
    assert q == k * m + t;
    assert q * nright == k * (m * nright) + t * nright by {
      MulDistributes(k * m, t, nright);
    }
    DivModUnique(p, m * nright, k, t * nright + j) by {
      MulMonotone(t, m - 1, nright);
    }
  }

  /** The position of a block, offset and digit, grouped two ways. */
  lemma FiberPosSplit(k: nat, j: nat, t: nat, m: nat, nright: nat)
    ensures FiberPos(k, j, t, m, nright) == (k * m + t) * nright + j
    ensures FiberPos(k, j, t, m, nright) == k * (m * nright) + (t * nright + j)
  {
    MulDistributes(k * m, t, nright);
  }

  /** Digit and offset in range stay inside one block. */
  lemma InsideBlock(t: nat, j: nat, m: nat, nright: nat)
    requires t < m && j < nright
    ensures t * nright + j < m * nright
  {
    MulMonotone(t, m - 1, nright);
  }

  /** Conversely, a block, digit and offset in range are recovered from their position. */
  lemma {:induction false} Recompose(k: nat, j: nat, t: nat, m: nat, nright: nat)
    requires t < m && j < nright
    ensures var p := FiberPos(k, j, t, m, nright);
      Block(p, m, nright) == k && Digit(p, m, nright) == t && Offset(p, nright) == j
  {
    var p := FiberPos(k, j, t, m, nright);
    FiberPosSplit(k, j, t, m, nright);
    InsideBlock(t, j, m, nright);
    DivModUnique(p, nright, k * m + t, j);
    DivModUnique(k * m + t, m, k, t);
    DivModUnique(p, m * nright, k, t * nright + j);
  }

  /** A position of the fiber of block `k < nleft` lies inside the buffer of `nleft * m * nright` entries. */
  lemma {:induction false} FiberPosInBounds(k: nat, j: nat, t: nat, nleft: nat, m: nat, nright: nat)
    requires k < nleft && t < m && j < nright
    ensures FiberPos(k, j, t, m, nright) < nleft * m * nright
  {
    MulMonotone(t, m - 1, nright);
    MulMonotone(k, nleft - 1, m * nright);
    assert nleft * m * nright == (nleft - 1) * (m * nright) + m * nright;
  }

  /** Every position of the buffer belongs to a block below `nleft`. */
  lemma {:induction false} BlockInBounds(p: nat, nleft: nat, m: nat, nright: nat)
    requires 0 < m && 0 < nright && p < nleft * m * nright
    ensures Block(p, m, nright) < nleft
  {
    assert nleft * m * nright == nleft * (m * nright);
    DivBound(p, nleft, m * nright);
  }

  /** Dividing a position below `a * b` by `b` gives a quotient below `a`. */
  lemma {:induction false} DivBound(c: nat, a: nat, b: nat)
    requires c < a * b
    ensures 0 < b && c / b < a
  {
    if 0 < b && a <= c / b {
      MulMonotone(a, c / b, b);
    }
  }

  /** Chunk `s` of length `len`, for `s < n`, lies inside a sequence of `n * len` entries. */
  lemma {:induction false} ChunkBound(s: nat, n: nat, len: nat)
    requires s < n
    ensures s * len + len <= n * len
  {
    MulMonotone(s + 1, n, len);
  }

  /** `p` lies on the fiber that starts at `start` with stride `nright` and `m` entries. */
  predicate OnFiber(p: nat, start: nat, nright: nat, m: nat)
    requires 0 < nright
  {
    start <= p && (p - start) % nright == 0 && (p - start) / nright < m
  }

  /** A position on the fiber of block `k` and offset `j` has that block and offset, and its digit is its index there. */
  lemma {:induction false} OnFiberOf(p: nat, k: nat, j: nat, m: nat, nright: nat)
    requires 0 < m && j < nright && OnFiber(p, FiberPos(k, j, 0, m, nright), nright, m)
    ensures Block(p, m, nright) == k && Offset(p, nright) == j
    ensures (p - FiberPos(k, j, 0, m, nright)) / nright == Digit(p, m, nright)
  {
    var d := p - FiberPos(k, j, 0, m, nright);
    var t := d / nright;
    assert d == t * nright + d % nright;
    assert p == FiberPos(k, j, t, m, nright);
    Recompose(k, j, t, m, nright);
  }

  /** Every position lies on the fiber of its own block and offset, at the index of its digit. */
  lemma {:induction false} OnOwnFiber(p: nat, m: nat, nright: nat)
    requires 0 < m && 0 < nright
    ensures var start := FiberPos(Block(p, m, nright), Offset(p, nright), 0, m, nright);
      OnFiber(p, start, nright, m) && (p - start) / nright == Digit(p, m, nright)
  {
    var k, j, t := Block(p, m, nright), Offset(p, nright), Digit(p, m, nright);
    Decompose(p, m, nright);
    DivModUnique(p - FiberPos(k, j, 0, m, nright), nright, t, 0);
  }

  /** The fiber of block `k` and inner offset `j` holds exactly the positions with that block and offset. */
  lemma {:induction false} OnFiberIff(p: nat, k: nat, j: nat, m: nat, nright: nat)
    requires 0 < m && j < nright
    ensures OnFiber(p, FiberPos(k, j, 0, m, nright), nright, m)
        <==> Block(p, m, nright) == k && Offset(p, nright) == j
    ensures Block(p, m, nright) == k && Offset(p, nright) == j ==>
        (p - FiberPos(k, j, 0, m, nright)) / nright == Digit(p, m, nright)
  {
    if Block(p, m, nright) == k && Offset(p, nright) == j {
      OnOwnFiber(p, m, nright);
    }
    if OnFiber(p, FiberPos(k, j, 0, m, nright), nright, m) {
      OnFiberOf(p, k, j, m, nright);
    }
  }

  /** The `t`-th position of a fiber is on it, at index `t`. */
  lemma {:induction false} OnFiberAt(start: nat, t: nat, nright: nat, m: nat)
    requires 0 < nright && t < m
    ensures OnFiber(start + t * nright, start, nright, m)
    ensures (start + t * nright - start) / nright == t
  {
    DivModUnique(t * nright, nright, t, 0);
  }

  /** Entry `t` of a strided range that starts at `start`. */
  function Strided(start: nat, t: nat, stride: nat): nat
  {
    start + t * stride
  }

  /** A position on a fiber is the strided entry at its index. */
  lemma {:induction false} OnFiberStrided(p: nat, start: nat, nright: nat, m: nat)
    requires 0 < nright && OnFiber(p, start, nright, m)
    ensures p == Strided(start, (p - start) / nright, nright)
  {
    assert p - start == ((p - start) / nright) * nright + (p - start) % nright;
  }

  /** Extending a fiber by one entry adds exactly the next strided position. */
  lemma {:induction false} OnFiberGrow(p: nat, start: nat, nright: nat, n: nat)
    requires 0 < nright
    ensures OnFiber(p, start, nright, n + 1) <==> OnFiber(p, start, nright, n) || p == Strided(start, n, nright)
    ensures p == Strided(start, n, nright) ==> (p - start) / nright == n
  {
    if p == Strided(start, n, nright) {
      OnFiberAt(start, n, nright, n + 1);
    }
    if OnFiber(p, start, nright, n + 1) {
      OnFiberStrided(p, start, nright, n + 1);
    }
  }
}
