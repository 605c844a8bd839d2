/**
 The per-pass operator of the kernel and the mixed-product argument that
 chains the passes into the full Kronecker product.

 A buffer of `nleft * m * nright` entries is read as `nleft` outer blocks of
 `m * nright` entries; inside a block, the entries of one fiber are `nright`
 apart. One pass replaces every fiber by `Q` times that fiber, which is the
 product with `I_nleft ⊗ Q ⊗ I_nright`.
 */
module ModeProduct {
  import opened Arith
  import opened Linalg

  /** `(I_nleft ⊗ K) x`: `K` applied to each of the `nleft` consecutive chunks of `x`. */
  function BlockApply(K: Matrix, x: seq<int>, nleft: nat): (y: seq<int>)
    requires IsSquare(K) && |x| == nleft * |K|
    ensures |y| == |x|
  {
    var s := |K|;
    seq(|x|, p requires 0 <= p < |x| =>
      DivBound(p, nleft, s);
      ChunkBound(p / s, nleft, s);
      Dot(K[p % s], Chunk(x, p / s, s)))
  }

  /** The `len` entries of `v` from `start` on, `stride` apart. */
  function Fiber(v: seq<int>, start: nat, stride: nat, len: nat): (f: seq<int>)
    requires len == 0 || start + (len - 1) * stride < |v|
    ensures |f| == len
  {
    seq(len, t requires 0 <= t < len => MulMonotone(t, len - 1, stride); v[Strided(start, t, stride)])
  }

  /**
   One pass of the kernel: the fiber of block `k` and inner offset `j`
   becomes `Q` times that fiber, for every `k < nleft` and `j < nright`.
   */
  function ModeApply(v: seq<int>, Q: Matrix, nleft: nat, nright: nat): (w: seq<int>)
    requires IsSquare(Q) && 0 < nright && |v| == nleft * |Q| * nright
    ensures |w| == |v|
  {
    var m := |Q|;
    seq(|v|, p requires 0 <= p < |v| =>
      BlockInBounds(p, nleft, m, nright);
      Decompose(p, m, nright);
      FiberPosInBounds(Block(p, m, nright), Offset(p, nright), m - 1, nleft, m, nright);
      Dot(Q[Digit(p, m, nright)], Fiber(v, FiberPos(Block(p, m, nright), Offset(p, nright), 0, m, nright), nright, m)))
  }

  lemma {:induction false} BlockApplyAt(K: Matrix, x: seq<int>, nleft: nat, k: nat, b: nat)
    requires IsSquare(K) && |x| == nleft * |K| && k < nleft && b < |K|
    ensures k * |K| + |K| <= |x|
    ensures BlockApply(K, x, nleft)[k * |K| + b] == Dot(K[b], Chunk(x, k, |K|))
  {
    ChunkBound(k, nleft, |K|);
    DivModUnique(k * |K| + b, |K|, k, b);
  }

  lemma {:induction false} ModeApplyAt(v: seq<int>, Q: Matrix, nleft: nat, nright: nat, k: nat, j: nat, t: nat)
    requires IsSquare(Q) && 0 < nright && |v| == nleft * |Q| * nright
    requires k < nleft && j < nright && t < |Q|
    ensures FiberPos(k, j, t, |Q|, nright) < |v| && FiberPos(k, j, |Q| - 1, |Q|, nright) < |v|
    ensures ModeApply(v, Q, nleft, nright)[FiberPos(k, j, t, |Q|, nright)]
         == Dot(Q[t], Fiber(v, FiberPos(k, j, 0, |Q|, nright), nright, |Q|))
  {
    FiberPosInBounds(k, j, t, nleft, |Q|, nright);
    FiberPosInBounds(k, j, |Q| - 1, nleft, |Q|, nright);
    Recompose(k, j, t, |Q|, nright);
  }

  /** Entry `p` of the identity applied block-wise is entry `p` of the input. */
  lemma {:induction false} BlockApplyIdentityAt(s: nat, v: seq<int>, nleft: nat, p: nat)
    requires 0 < s && |v| == nleft * s && p < |v|
    ensures IsSquare(Identity(s))
    ensures BlockApply(Identity(s), v, nleft)[p] == v[p]
  {
    var k, b := p / s, p % s;
    DivBound(p, nleft, s);
    assert p == k * s + b;
    BlockApplyAt(Identity(s), v, nleft, k, b);
    var c := Chunk(v, k, s);
    assert Identity(s)[b] == UnitVec(s, b);
    DotUnit(s, b, c);
    assert c[b] == v[p];
  }

  /** The identity applied block-wise changes nothing. */
  lemma {:induction false} BlockApplyIdentity(s: nat, v: seq<int>, nleft: nat)
    requires 0 < s && |v| == nleft * s
    ensures IsSquare(Identity(s))
    ensures BlockApply(Identity(s), v, nleft) == v
  {
    forall p | 0 <= p < |v|
      ensures BlockApply(Identity(s), v, nleft)[p] == v[p]
    {
      BlockApplyIdentityAt(s, v, nleft, p);
    }
  }

  /** With a single block, the block-wise product is the ordinary matrix-vector product. */
  lemma {:induction false} BlockApplySingle(K: Matrix, x: seq<int>)
    requires IsSquare(K) && |x| == |K|
    ensures BlockApply(K, x, 1) == MatVec(K, x)
  {
    forall p | 0 <= p < |x|
      ensures BlockApply(K, x, 1)[p] == MatVec(K, x)[p]
    {
      DivModUnique(p, |K|, 0, p);
      assert Chunk(x, 0, |K|) == x;
    }
  }

  /** The block-wise product is the product with the explicit matrix `I_nleft ⊗ K`. */
  lemma {:induction false} BlockApplyIsKron(K: Matrix, x: seq<int>, nleft: nat)
    requires IsSquare(K) && |x| == nleft * |K|
    ensures IsMatrix(KronPair(Identity(nleft), K), |x|, |x|)
    ensures BlockApply(K, x, nleft) == MatVec(KronPair(Identity(nleft), K), x)
  {
    var s := |K|;
    KronPairShape(Identity(nleft), K, nleft, nleft, s, s);
    forall p | 0 <= p < |x|
      ensures BlockApply(K, x, nleft)[p] == MatVec(KronPair(Identity(nleft), K), x)[p]
    {
      var k, b := p / s, p % s;
      DivBound(p, nleft, s);
      assert p == k * s + b;
      BlockApplyAt(K, x, nleft, k, b);
      KronRowDot(UnitVec(nleft, k), K[b], x);
      DotUnit(nleft, k, ChunkDots(K[b], x, nleft));
    }
  }

  lemma SliceOfSlice(x: seq<int>, a: nat, n: nat, b: nat, len: nat)
    requires a + n <= |x| && b + len <= n
    ensures x[a .. a + n][b .. b + len] == x[a + b .. a + b + len]
  {
    var lhs, rhs := x[a .. a + n][b .. b + len], x[a + b .. a + b + len];
    assert forall i :: 0 <= i < len ==> lhs[i] == x[a + b + i] == rhs[i];
  }

  lemma {:induction false} ChunkOfChunk(x: seq<int>, k: nat, s: nat, m: nat, len: nat)
    requires k * (m * len) + m * len <= |x| && s < m
    ensures s * len + len <= m * len && (k * m + s) * len + len <= |x|
    ensures Chunk(Chunk(x, k, m * len), s, len) == Chunk(x, k * m + s, len)
  {
    var n := m * len;
    var a, b := k * n, s * len;
    ChunkBound(s, m, len);
    assert (k * m + s) * len == a + b by {
      MulDistributes(k * m, s, len);
      MulAssociates(k, m, len);
    }
    SliceOfSlice(x, a, n, b, len);
  }

  lemma {:induction false} FiberEntryBounds(s: nat, x: seq<int>, nleft: nat, m: nat, k: nat, b: nat, t: nat)
    requires |x| == nleft * m * s && k < nleft && b < s && t < m
    ensures k * (m * s) + m * s <= |x| && FiberPos(k, b, t, m, s) < |x|
    ensures t * s + s <= m * s
    ensures k * m + t < nleft * m
    ensures FiberPos(k, b, t, m, s) == (k * m + t) * s + b
  {
    assert |x| == nleft * (m * s);
    ChunkBound(k, nleft, m * s);
    FiberPosInBounds(k, b, t, nleft, m, s);
    ChunkBound(t, m, s);
    ChunkBound(k, nleft, m);
    MulDistributes(k * m, t, s);
  }

  lemma {:induction false} FiberEntryOfBlockApply(K: Matrix, x: seq<int>, nleft: nat, m: nat, k: nat, b: nat, t: nat)
    requires IsSquare(K) && |x| == nleft * m * |K| && k < nleft && b < |K| && t < m
    ensures k * (m * |K|) + m * |K| <= |x| && FiberPos(k, b, t, m, |K|) < |x|
    ensures t * |K| + |K| <= m * |K|
    ensures BlockApply(K, x, nleft * m)[FiberPos(k, b, t, m, |K|)]
         == Dot(K[b], Chunk(Chunk(x, k, m * |K|), t, |K|))
  {
    FiberEntryBounds(|K|, x, nleft, m, k, b, t);
    BlockApplyAt(K, x, nleft * m, k * m + t, b);
    ChunkOfChunk(x, k, t, m, |K|);
  }

  /** A fiber of a block-wise product is the vector of dot products of one row of `K` with consecutive chunks. */
  lemma {:induction false} FiberOfBlockApply(K: Matrix, x: seq<int>, nleft: nat, m: nat, k: nat, b: nat)
    requires IsSquare(K) && 0 < m && |x| == nleft * m * |K| && k < nleft && b < |K|
    ensures k * (m * |K|) + m * |K| <= |x| && FiberPos(k, b, m - 1, m, |K|) < |x|
    ensures Fiber(BlockApply(K, x, nleft * m), FiberPos(k, b, 0, m, |K|), |K|, m)
         == ChunkDots(K[b], Chunk(x, k, m * |K|), m)
  {
    var s := |K|;
    FiberEntryOfBlockApply(K, x, nleft, m, k, b, m - 1);
    var w := BlockApply(K, x, nleft * m);
    forall t | 0 <= t < m
      ensures Fiber(w, FiberPos(k, b, 0, m, s), s, m)[t] == ChunkDots(K[b], Chunk(x, k, m * s), m)[t]
    {
      FiberEntryOfBlockApply(K, x, nleft, m, k, b, t);
      assert FiberPos(k, b, 0, m, s) + t * s == FiberPos(k, b, t, m, s);
    }
  }

  /** Row `t * |K| + b` of `Q ⊗ K` is `Q[t] ⊗ K[b]`. */
  lemma {:induction false} KronPairRow(Q: Matrix, K: Matrix, t: nat, b: nat)
    requires IsSquare(Q) && IsSquare(K) && t < |Q| && b < |K|
    ensures t * |K| + b < |Q| * |K|
    ensures KronPair(Q, K)[t * |K| + b] == KronRow(Q[t], K[b])
  {
    InsideBlock(t, b, |Q|, |K|);
    DivModUnique(t * |K| + b, |K|, t, b);
  }

  /** Row `t * |K| + b` of `Q ⊗ K` applied to block `k` contracts `Q[t]` with the chunk-wise products of `K[b]`. */
  lemma {:induction false} KronBlockEntry(Q: Matrix, K: Matrix, x: seq<int>, nleft: nat, k: nat, t: nat, b: nat)
    requires IsSquare(Q) && IsSquare(K) && |x| == nleft * (|Q| * |K|)
    requires k < nleft && t < |Q| && b < |K|
    ensures IsSquare(KronPair(Q, K)) && k * (|Q| * |K|) + |Q| * |K| <= |x|
    ensures FiberPos(k, b, t, |Q|, |K|) < |x|
    ensures BlockApply(KronPair(Q, K), x, nleft)[FiberPos(k, b, t, |Q|, |K|)]
         == Dot(Q[t], ChunkDots(K[b], Chunk(x, k, |Q| * |K|), |Q|))
  {
    var m, s := |Q|, |K|;
    var QK := KronPair(Q, K);
    KronPairSquare(Q, K);
    var i := t * s + b;
    KronPairRow(Q, K, t, b);
    assert QK[i] == KronRow(Q[t], K[b]);
    ChunkBound(k, nleft, m * s);
    var y := Chunk(x, k, m * s);
    BlockApplyAt(QK, x, nleft, k, i);
    FiberPosSplit(k, b, t, m, s);
    assert FiberPos(k, b, t, m, s) == k * |QK| + i;
    assert BlockApply(QK, x, nleft)[k * |QK| + i] == Dot(KronRow(Q[t], K[b]), y);
    KronRowDot(Q[t], K[b], y);
  }

  /**
   The mixed-product step: one pass with `Q` on a vector already holding
   `(I ⊗ K) x` leaves `(I ⊗ (Q ⊗ K)) x`.
   */
  lemma {:induction false} MixedProductAt(K: Matrix, Q: Matrix, x: seq<int>, nleft: nat, p: nat)
    requires IsSquare(K) && IsSquare(Q) && |x| == nleft * |Q| * |K| && p < |x|
    ensures IsSquare(KronPair(Q, K)) && |x| == nleft * (|Q| * |K|)
    ensures ModeApply(BlockApply(K, x, nleft * |Q|), Q, nleft, |K|)[p] == BlockApply(KronPair(Q, K), x, nleft)[p]
  {
    var m, s := |Q|, |K|;
    KronPairSquare(Q, K);
    var w := BlockApply(K, x, nleft * m);
    var k, t, b := Block(p, m, s), Digit(p, m, s), Offset(p, s);
    BlockInBounds(p, nleft, m, s);
    Decompose(p, m, s);
    ModeApplyAt(w, Q, nleft, s, k, b, t);
    FiberOfBlockApply(K, x, nleft, m, k, b);
    MulAssociates(nleft, m, s);
    KronBlockEntry(Q, K, x, nleft, k, t, b);
  }

  lemma {:induction false} MixedProduct(K: Matrix, Q: Matrix, x: seq<int>, nleft: nat)
    requires IsSquare(K) && IsSquare(Q) && |x| == nleft * |Q| * |K|
    ensures IsSquare(KronPair(Q, K)) && |x| == nleft * (|Q| * |K|)
    ensures ModeApply(BlockApply(K, x, nleft * |Q|), Q, nleft, |K|) == BlockApply(KronPair(Q, K), x, nleft)
  {
    KronPairSquare(Q, K);
    MulAssociates(nleft, |Q|, |K|);
    forall p | 0 <= p < |x|
      ensures ModeApply(BlockApply(K, x, nleft * |Q|), Q, nleft, |K|)[p] == BlockApply(KronPair(Q, K), x, nleft)[p]
    {
      MixedProductAt(K, Q, x, nleft, p);
    }
  }

  /** One pass is the product with the explicit matrix `I_nleft ⊗ Q ⊗ I_nright`. */
  lemma {:induction false} ModeApplyIsKron(v: seq<int>, Q: Matrix, nleft: nat, nright: nat)
    requires IsSquare(Q) && 0 < nright && |v| == nleft * |Q| * nright
    ensures IsMatrix(Kron([Identity(nleft), Q, Identity(nright)]), |v|, |v|)
    ensures ModeApply(v, Q, nleft, nright) == MatVec(Kron([Identity(nleft), Q, Identity(nright)]), v)
  {
    var m := |Q|;
    BlockApplyIdentity(nright, v, nleft * m);
    MixedProduct(Identity(nright), Q, v, nleft);
    var inner := KronPair(Q, Identity(nright));
    BlockApplyIsKron(inner, v, nleft);
    KronSingle(Identity(nright));
    assert [Identity(nleft), Q, Identity(nright)][1..] == [Q, Identity(nright)];
    assert [Q, Identity(nright)][1..] == [Identity(nright)];
  }

  /**
   One pass of the kernel extends the processed suffix of factors by one:
   with `Qs[i..]` applied mode-wise, the pass with `Qs[i-1]` leaves `Qs[i-1..]` applied.
   */
  lemma {:induction false} SweepStep(Qs: seq<Matrix>, x: seq<int>, i: nat)
    requires AllSquare(Qs) && 0 < i <= |Qs| && |x| == Size(Qs)
    ensures Size(Qs[..i]) == Size(Qs[..i - 1]) * |Qs[i - 1]|
    ensures Size(Qs[i - 1..]) == |Qs[i - 1]| * Size(Qs[i..])
    ensures |x| == Size(Qs[..i - 1]) * |Qs[i - 1]| * Size(Qs[i..])
    ensures IsSquare(Kron(Qs[i..])) && IsSquare(Kron(Qs[i - 1..]))
    ensures ModeApply(BlockApply(Kron(Qs[i..]), x, Size(Qs[..i])), Qs[i - 1], Size(Qs[..i - 1]), Size(Qs[i..]))
         == BlockApply(Kron(Qs[i - 1..]), x, Size(Qs[..i - 1]))
  {
    var nleft, m, nright := Size(Qs[..i - 1]), |Qs[i - 1]|, Size(Qs[i..]);
    SizeSplit(Qs, i);
    SizeSplit(Qs[..i], i - 1);
    assert Qs[..i][..i - 1] == Qs[..i - 1] && Qs[..i][i - 1..] == [Qs[i - 1]];
    assert Qs[i - 1..][1..] == Qs[i..];
    assert AllSquare(Qs[i..]) && AllSquare(Qs[i - 1..]);
    assert Size([Qs[i - 1]]) == m;
    MixedProduct(Kron(Qs[i..]), Qs[i - 1], x, nleft);
  }
}
