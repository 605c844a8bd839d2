/**
 Dense matrices and vectors over exact integers, and the explicit Kronecker
 product that the kernel never forms but must agree with. A matrix is the
 sequence of its rows.
 */
module Linalg {
  import opened Arith

  type Matrix = seq<seq<int>>

  predicate IsMatrix(M: Matrix, rows: nat, cols: nat)
  {
    |M| == rows && forall i :: 0 <= i < rows ==> |M[i]| == cols
  }

  /** A non-empty square matrix: the only shape of factor the kernel can apply in place. */
  predicate IsSquare(M: Matrix)
  {
    0 < |M| && IsMatrix(M, |M|, |M|)
  }

  predicate AllSquare(Qs: seq<Matrix>)
  {
    forall i :: 0 <= i < |Qs| ==> IsSquare(Qs[i])
  }

  function Dot(u: seq<int>, w: seq<int>): int
    requires |u| == |w|
  {
    if |u| == 0 then 0 else Dot(u[..|u| - 1], w[..|w| - 1]) + u[|u| - 1] * w[|w| - 1]
  }

  /** The product of a matrix and a vector, as the source's dense matrix type computes it. */
  function MatVec(M: Matrix, x: seq<int>): (y: seq<int>)
    requires forall i :: 0 <= i < |M| ==> |M[i]| == |x|
  {
    seq(|M|, i requires 0 <= i < |M| => Dot(M[i], x))
  }

  function Scale(a: int, r: seq<int>): seq<int>
  {
    seq(|r|, i requires 0 <= i < |r| => a * r[i])
  }

  /** Row `j` of the `n` by `n` identity matrix (all zeros when `j >= n`). */
  function UnitVec(n: nat, j: nat): seq<int>
  {
    seq(n, i => if i == j then 1 else 0)
  }

  function Identity(n: nat): Matrix
  {
    seq(n, i requires 0 <= i < n => UnitVec(n, i))
  }

  /** The `len` entries of `y` that make up its `s`-th chunk. */
  function Chunk(y: seq<int>, s: nat, len: nat): (c: seq<int>)
    requires s * len + len <= |y|
    ensures |c| == len
  {
    y[s * len .. s * len + len]
  }

  /** The dot products of `r` with each of the `n` consecutive chunks of `y`. */
  function ChunkDots(r: seq<int>, y: seq<int>, n: nat): (d: seq<int>)
    requires |y| == n * |r|
    ensures |d| == n
  {
    seq(n, s requires 0 <= s < n => ChunkBound(s, n, |r|); Dot(r, Chunk(y, s, |r|)))
  }

  /** Row `a ⊗ b` of a Kronecker product: entry `c` is `a[c / |b|] * b[c % |b|]`. */
  function KronRow(a: seq<int>, b: seq<int>): (r: seq<int>)
    ensures |r| == |a| * |b|
  {
    seq(|a| * |b|, c requires 0 <= c < |a| * |b| => DivBound(c, |a|, |b|); a[c / |b|] * b[c % |b|])
  }

  /** The Kronecker product `A ⊗ B`: row `p` is `A[p / |B|] ⊗ B[p % |B|]`. */
  function KronPair(A: Matrix, B: Matrix): (K: Matrix)
    ensures |K| == |A| * |B|
  {
    seq(|A| * |B|, p requires 0 <= p < |A| * |B| => DivBound(p, |A|, |B|); KronRow(A[p / |B|], B[p % |B|]))
  }

  /** The product of the row counts of the factors. */
  function Size(Qs: seq<Matrix>): nat
  {
    if |Qs| == 0 then 1 else |Qs[0]| * Size(Qs[1..])
  }

  /**
   The explicit Kronecker product `Qs[0] ⊗ Qs[1] ⊗ ... ⊗ Qs[N-1]`, the first
   factor most significant. Square factors give a square product whose size
   is the product of theirs.
   */
  function Kron(Qs: seq<Matrix>): (K: Matrix)
    ensures |K| == Size(Qs)
    ensures AllSquare(Qs) ==> IsSquare(K)
  {
    if |Qs| == 0 then [[1]]
    else
      var rest := Kron(Qs[1..]);
      KronPairSquare(Qs[0], rest);
      KronPair(Qs[0], rest)
  }

  // Dot products

  lemma {:induction false} DotAppend(u1: seq<int>, u2: seq<int>, w1: seq<int>, w2: seq<int>)
    requires |u1| == |w1| && |u2| == |w2|
    ensures Dot(u1 + u2, w1 + w2) == Dot(u1, w1) + Dot(u2, w2)
    decreases |u2|
  {
    if |u2| == 0 {
      assert u1 + u2 == u1 && w1 + w2 == w1;
    } else {
      var n := |u2| - 1;
      assert (u1 + u2)[..|u1 + u2| - 1] == u1 + u2[..n];
      assert (w1 + w2)[..|w1 + w2| - 1] == w1 + w2[..n];
      DotAppend(u1, u2[..n], w1, w2[..n]);
    }
  }

  lemma {:induction false} DotScale(a: int, r: seq<int>, y: seq<int>)
    requires |r| == |y|
    ensures Dot(Scale(a, r), y) == a * Dot(r, y)
    decreases |r|
  {
    if |r| > 0 {
      var n := |r| - 1;
      assert Scale(a, r)[..n] == Scale(a, r[..n]);
      DotScale(a, r[..n], y[..n]);
    }
  }

  /** A row of the identity picks one entry out of the vector. */
  lemma {:induction false} DotUnit(n: nat, j: nat, y: seq<int>)
    requires |y| == n
    ensures Dot(UnitVec(n, j), y) == if j < n then y[j] else 0
    decreases n
  {
    if n > 0 {
      assert UnitVec(n, j)[..n - 1] == UnitVec(n - 1, j);
      DotUnit(n - 1, j, y[..n - 1]);
    }
  }

  lemma {:induction false} KronRowLow(q: seq<int>, r: seq<int>, c: nat)
    requires 0 < |q| && c < (|q| - 1) * |r|
    ensures c < |q| * |r|
    ensures KronRow(q, r)[c] == KronRow(q[..|q| - 1], r)[c]
  {
    MulMonotone(|q| - 1, |q|, |r|);
    DivBound(c, |q| - 1, |r|);
  }

  lemma {:induction false} KronRowHigh(q: seq<int>, r: seq<int>, c: nat)
    requires 0 < |q| && (|q| - 1) * |r| <= c < |q| * |r|
    ensures c - (|q| - 1) * |r| < |r|
    ensures KronRow(q, r)[c] == Scale(q[|q| - 1], r)[c - (|q| - 1) * |r|]
  {
    var n, len := |q|, |r|;
    var split := (n - 1) * len;
    assert n * len == split + len;
    DivModUnique(c, len, n - 1, c - split);
  }

  /** Peeling the last entry of `q` peels the last block off the row `q ⊗ r`. */
  lemma {:induction false} KronRowSplit(q: seq<int>, r: seq<int>)
    requires 0 < |q|
    ensures KronRow(q, r) == KronRow(q[..|q| - 1], r) + Scale(q[|q| - 1], r)
  {
    var n, len := |q|, |r|;
    var split := (n - 1) * len;
    var lhs, rhs := KronRow(q, r), KronRow(q[..n - 1], r) + Scale(q[n - 1], r);
    assert |lhs| == |rhs| by {
      assert n * len == split + len;
    }
    forall c | 0 <= c < |lhs|
      ensures lhs[c] == rhs[c]
    {
      if c < split {
        KronRowLow(q, r, c);
      } else {
        KronRowHigh(q, r, c);
      }
    }
  }

  lemma PrefixSlice(y: seq<int>, split: nat, a: nat, b: nat)
    requires a <= b <= split <= |y|
    ensures y[..split][a..b] == y[a..b]
  {
    forall i | 0 <= i < b - a
      ensures y[..split][a..b][i] == y[a..b][i]
    {
    }
  }

  lemma {:induction false} ChunkDotsPrefix(r: seq<int>, y: seq<int>, n: nat)
    requires 0 < n && |y| == n * |r|
    ensures (n - 1) * |r| <= |y|
    ensures ChunkDots(r, y, n)[..n - 1] == ChunkDots(r, y[..(n - 1) * |r|], n - 1)
  {
    var len := |r|;
    var split := (n - 1) * len;
    MulMonotone(n - 1, n, len);
    var y1 := y[..split];
    var lhs, rhs := ChunkDots(r, y, n)[..n - 1], ChunkDots(r, y1, n - 1);
    forall s | 0 <= s < n - 1
      ensures lhs[s] == rhs[s]
    {
      ChunkBound(s, n - 1, len);
      PrefixSlice(y, split, s * len, s * len + len);
    }
  }

  /**
   Mode-wise contraction of one row: the dot product of `q ⊗ r` with `y` is the
   dot product of `q` with the dot products of `r` with each chunk of `y`.
   */
  lemma {:induction false} KronRowDot(q: seq<int>, r: seq<int>, y: seq<int>)
    requires |y| == |q| * |r|
    ensures Dot(KronRow(q, r), y) == Dot(q, ChunkDots(r, y, |q|))
    decreases |q|
  {
    var n, len := |q|, |r|;
    if n > 0 {
      var q' := q[..n - 1];
      var split := (n - 1) * len;
      var y1, y2 := y[..split], y[split..];
      assert y == y1 + y2;
      KronRowSplit(q, r);
      DotAppend(KronRow(q', r), Scale(q[n - 1], r), y1, y2);
      DotScale(q[n - 1], r, y2);
      KronRowDot(q', r, y1);
      ChunkDotsPrefix(r, y, n);
      assert Chunk(y, n - 1, len) == y2;
    }
  }

  lemma {:induction false} MatVecIdentity(x: seq<int>)
    ensures MatVec(Identity(|x|), x) == x
  {
    forall i | 0 <= i < |x|
      ensures MatVec(Identity(|x|), x)[i] == x[i]
    {
      DotUnit(|x|, i, x);
    }
  }

  // Shapes and sizes

  lemma {:induction false} KronPairRowLength(A: Matrix, B: Matrix, a: nat, a': nat, b: nat, b': nat, p: nat)
    requires IsMatrix(A, a, a') && IsMatrix(B, b, b') && p < a * b
    ensures |KronPair(A, B)[p]| == a' * b'
  {
    DivBound(p, a, b);
    var i, k := p / b, p % b;
    assert KronPair(A, B)[p] == KronRow(A[i], B[k]);
    assert |A[i]| == a' && |B[k]| == b';
  }

  lemma {:induction false} KronPairShape(A: Matrix, B: Matrix, a: nat, a': nat, b: nat, b': nat)
    requires IsMatrix(A, a, a') && IsMatrix(B, b, b')
    ensures IsMatrix(KronPair(A, B), a * b, a' * b')
  {
    forall p | 0 <= p < a * b
      ensures |KronPair(A, B)[p]| == a' * b'
    {
      KronPairRowLength(A, B, a, a', b, b', p);
    }
  }

  /** The Kronecker product of two square matrices is square. */
  lemma {:induction false} KronPairSquare(A: Matrix, B: Matrix)
    ensures IsSquare(A) && IsSquare(B) ==> IsSquare(KronPair(A, B))
  {
    if IsSquare(A) && IsSquare(B) {
      KronPairShape(A, B, |A|, |A|, |B|, |B|);
      MulMonotone(1, |A|, |B|);
    }
  }

  lemma MulAssociates(a: int, b: int, c: int)
    ensures a * (b * c) == (a * b) * c
  {
  }

  lemma {:induction false} SizeSplit(Qs: seq<Matrix>, i: nat)
    requires i <= |Qs|
    ensures Size(Qs) == Size(Qs[..i]) * Size(Qs[i..])
    decreases i
  {
    if i > 0 {
      var rest := Qs[1..];
      SizeSplit(rest, i - 1);
      var a, b, c := |Qs[0]|, Size(rest[..i - 1]), Size(rest[i - 1..]);
      assert Size(Qs[..i]) == a * b by {
        assert Qs[..i][1..] == rest[..i - 1];
      }
      assert Size(Qs[i..]) == c by {
        assert Qs[i..] == rest[i - 1..];
      }
      assert Size(Qs) == a * (b * c);
      MulAssociates(a, b, c);
    } else {
      assert Qs[i..] == Qs;
    }
  }

  // Neutral elements

  /** `A ⊗ [[1]] == A`, so a single factor is its own Kronecker product. */
  lemma {:induction false} KronSingle(Q: Matrix)
    ensures Kron([Q]) == Q
  {
    assert [Q][1..] == [];
    forall p | 0 <= p < |Q|
      ensures KronPair(Q, [[1]])[p] == Q[p]
    {
      assert KronRow(Q[p], [1]) == Q[p];
    }
  }

  /** Two numbers are equal exactly when their quotients and remainders by `b` are. */
  lemma DivModEqual(p: nat, c: nat, b: nat)
    requires 0 < b
    ensures c == p <==> c / b == p / b && c % b == p % b
  {
    if c / b == p / b && c % b == p % b {
      assert c == (c / b) * b + c % b && p == (p / b) * b + p % b;
    }
  }

  lemma KronRowAt(u: seq<int>, w: seq<int>, c: nat)
    requires c < |u| * |w|
    ensures 0 < |w| && c / |w| < |u|
    ensures KronRow(u, w)[c] == u[c / |w|] * w[c % |w|]
  {
    DivBound(c, |u|, |w|);
  }

  lemma UnitProduct(a: nat, b: nat, i: nat, j: nat, i': nat, j': nat)
    requires i' < a && j' < b
    ensures UnitVec(a, i)[i'] * UnitVec(b, j)[j'] == if i' == i && j' == j then 1 else 0
  {
    if i' != i {
      assert UnitVec(a, i)[i'] == 0;
    } else if j' != j {
      assert UnitVec(b, j)[j'] == 0;
    }
  }

  lemma {:induction false} UnitKronEntry(a: nat, b: nat, p: nat, c: nat)
    requires p < a * b && c < a * b
    ensures 0 < b && p / b < a
    ensures KronRow(UnitVec(a, p / b), UnitVec(b, p % b))[c] == if c == p then 1 else 0
  {
    DivBound(p, a, b);
    var U, W := UnitVec(a, p / b), UnitVec(b, p % b);
    assert |U| == a && |W| == b;
    KronRowAt(U, W, c);
    var c1, c2 := c / b, c % b;
    assert KronRow(U, W)[c] == U[c1] * W[c2];
    DivModEqual(p, c, b);
    UnitProduct(a, b, p / b, p % b, c1, c2);
  }

  lemma {:induction false} KronIdentityRow(a: nat, b: nat, p: nat)
    requires p < a * b
    ensures |KronPair(Identity(a), Identity(b))| == a * b
    ensures KronPair(Identity(a), Identity(b))[p] == UnitVec(a * b, p)
  {
    DivBound(p, a, b);
    var u, w := UnitVec(a, p / b), UnitVec(b, p % b);
    assert KronPair(Identity(a), Identity(b))[p] == KronRow(u, w) by {
      assert Identity(a)[p / b] == u && Identity(b)[p % b] == w;
    }
    var row := KronRow(u, w);
    assert |row| == a * b;
    forall c | 0 <= c < a * b
      ensures row[c] == UnitVec(a * b, p)[c]
    {
      UnitKronEntry(a, b, p, c);
    }
  }

  lemma {:induction false} KronPairIdentity(a: nat, b: nat)
    ensures KronPair(Identity(a), Identity(b)) == Identity(a * b)
  {
    forall p | 0 <= p < a * b
      ensures KronPair(Identity(a), Identity(b))[p] == Identity(a * b)[p]
    {
      KronIdentityRow(a, b, p);
    }
  }

  /** The Kronecker product of identity factors is the identity of the total size. */
  lemma {:induction false} KronIdentities(Qs: seq<Matrix>)
    requires forall i :: 0 <= i < |Qs| ==> Qs[i] == Identity(|Qs[i]|)
    ensures Kron(Qs) == Identity(Size(Qs))
    decreases |Qs|
  {
    if |Qs| == 0 {
      assert Identity(1) == [[1]] by {
        assert UnitVec(1, 0) == [1];
      }
    } else {
      KronIdentities(Qs[1..]);
      KronPairIdentity(|Qs[0]|, Size(Qs[1..]));
    }
  }
}
