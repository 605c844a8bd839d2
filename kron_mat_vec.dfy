/**
 The two kernels of misc/eigen/kronMatVec.h over an integer buffer:
 `KronMatVec2` gathers each fiber into a temporary, multiplies it and
 scatters it back; `KronMatVec` multiplies a strided view of the output in
 place. Both copy the input into the output and then sweep the factors from
 the last to the first, each sweep visiting `nleft` outer blocks and, in each,
 `nright` fibers of stride `nright`.
 */
module KronMatVec {
  import opened Arith
  import opened Linalg
  import opened ModeProduct

  // ---------------------------------------------------------------------------
  // One fiber

  /**
   The buffer `v` with the fiber that starts at `start` (stride `nright`,
   `|f|` entries) overwritten by `f`; nothing else changes.
   */
  function WriteFiber(v: seq<int>, start: nat, nright: nat, f: seq<int>): (w: seq<int>)
    requires 0 < nright
    ensures |w| == |v|
  {
    seq(|v|, p requires 0 <= p < |v| =>
      if OnFiber(p, start, nright, |f|) then f[(p - start) / nright] else v[p])
  }

  /** Reading back a fiber just written gives what was written. */
  lemma {:induction false} FiberOfWriteFiber(v: seq<int>, start: nat, nright: nat, f: seq<int>)
    requires 0 < nright && (|f| == 0 || start + (|f| - 1) * nright < |v|)
    ensures Fiber(WriteFiber(v, start, nright, f), start, nright, |f|) == f
  {
    var w := WriteFiber(v, start, nright, f);
    forall t | 0 <= t < |f|
      ensures Fiber(w, start, nright, |f|)[t] == f[t]
    {
      MulMonotone(t, |f| - 1, nright);
      OnFiberAt(start, t, nright, |f|);
    }
  }

  /** Writing a fiber's own values back changes nothing. */
  lemma {:induction false} WriteOwnFiber(v: seq<int>, start: nat, nright: nat, n: nat)
    requires 0 < nright && (n == 0 || start + (n - 1) * nright < |v|)
    ensures WriteFiber(v, start, nright, Fiber(v, start, nright, n)) == v
  {
    var w := WriteFiber(v, start, nright, Fiber(v, start, nright, n));
    forall p | 0 <= p < |v|
      ensures w[p] == v[p]
    {
      if OnFiber(p, start, nright, n) {
        OnFiberStrided(p, start, nright, n);
      }
    }
  }

  /** Writing one more entry of a fiber is one more update of the buffer, at the next strided position. */
  lemma {:induction false} WriteFiberSnoc(v: seq<int>, start: nat, nright: nat, f: seq<int>, i: nat)
    requires 0 < nright && i < |f| && start + (|f| - 1) * nright < |v|
    ensures Strided(start, i, nright) < |v|
    ensures WriteFiber(v, start, nright, f[..i + 1])
         == WriteFiber(v, start, nright, f[..i])[Strided(start, i, nright) := f[i]]
  {
    MulMonotone(i, |f| - 1, nright);
    var w, w' := WriteFiber(v, start, nright, f[..i + 1]), WriteFiber(v, start, nright, f[..i])[Strided(start, i, nright) := f[i]];
    forall p | 0 <= p < |v|
      ensures w[p] == w'[p]
    {
      OnFiberGrow(p, start, nright, i);
    }
  }

  /**
   The buffer after the fiber that starts at `start` (stride `nright`, `|Q|`
   entries) is replaced by `Q` times its old values.
   */
  function MulFiber(v: seq<int>, Q: Matrix, start: nat, nright: nat): (w: seq<int>)
    requires IsSquare(Q) && 0 < nright && start + (|Q| - 1) * nright < |v|
    ensures |w| == |v|
  {
    WriteFiber(v, start, nright, MatVec(Q, Fiber(v, start, nright, |Q|)))
  }

  /** The fiber length the source recomputes from its two end indices is the factor's size. */
  lemma {:induction false} SizeInnerIsModeSize(index1: int, m: nat, nright: nat)
    requires 0 < m && 0 < nright
    ensures (index1 + nright * (m - 1) - index1) / nright + 1 == m
  {
    DivModUnique(nright * (m - 1), nright, m - 1, 0);
  }

  /** Within the loops over a fiber, `lll <= index2` holds exactly while `llk` indexes the fiber. */
  lemma {:induction false} StrideGuard(llk: int, m: nat, nright: nat)
    requires 0 < nright && 1 <= llk
    ensures (llk - 1) * nright <= nright * (m - 1) <==> llk <= m
  {
    if llk <= m {
      MulMonotone(llk - 1, m - 1, nright);
    } else {
      MulMonotone(m, llk - 1, nright);
    }
  }

  /**
   Lines 100-105 of the copying kernel: `innerInVec` receives the fiber
   `outVec[index1-1]`, `outVec[index1-1+nright]`, ..., `outVec[index2-1]`.
   */
  method Gather(outVec: array<int>, innerInVec: array<int>, index1: int, index2: int, nright: int)
    requires 0 < nright && 1 <= index1 && 0 < innerInVec.Length && innerInVec != outVec
    requires index2 == index1 + nright * (innerInVec.Length - 1) && index2 <= outVec.Length
    modifies innerInVec
    ensures index1 - 1 + (innerInVec.Length - 1) * nright < outVec.Length
    ensures innerInVec[..] == Fiber(outVec[..], index1 - 1, nright, innerInVec.Length)
  {
    ghost var start := index1 - 1;
    ghost var n := innerInVec.Length;
    var llk := 1;
    var lll := index1;
    while lll <= index2
      invariant 1 <= llk <= n + 1
      invariant lll == index1 + (llk - 1) * nright
      invariant forall t :: 0 <= t < llk - 1 ==> innerInVec[t] == Fiber(outVec[..], start, nright, n)[t]
      decreases index2 - lll
    {
      StrideGuard(llk, n, nright);
      innerInVec[llk - 1] := outVec[lll - 1];
      MulDistributes(llk - 1, 1, nright);
      llk := llk + 1;
      lll := lll + nright;
    }
    StrideGuard(llk, n, nright);
  }

  /**
   Lines 109-114 of the copying kernel: the fiber of `outVec` from
   `index1 - 1` with stride `nright` receives `innerOutVec`.
   */
  method Scatter(outVec: array<int>, innerOutVec: seq<int>, index1: int, index2: int, nright: int)
    requires 0 < nright && 1 <= index1 && 0 < |innerOutVec|
    requires index2 == index1 + nright * (|innerOutVec| - 1) && index2 <= outVec.Length
    modifies outVec
    ensures index1 - 1 + (|innerOutVec| - 1) * nright < outVec.Length
    ensures outVec[..] == WriteFiber(old(outVec[..]), index1 - 1, nright, innerOutVec)
  {
    ghost var v := outVec[..];
    ghost var start := index1 - 1;
    ghost var n := |innerOutVec|;
    var llk := 1;
    var lll := index1;
    assert innerOutVec[..0] == [] && WriteFiber(v, start, nright, []) == v;
    while lll <= index2
      invariant 1 <= llk <= n + 1
      invariant lll == index1 + (llk - 1) * nright
      invariant outVec[..] == WriteFiber(v, start, nright, innerOutVec[..llk - 1])
      decreases index2 - lll
    {
      StrideGuard(llk, n, nright);
      WriteFiberSnoc(v, start, nright, innerOutVec, llk - 1);
      outVec[lll - 1] := innerOutVec[llk - 1];
      MulDistributes(llk - 1, 1, nright);
      llk := llk + 1;
      lll := lll + nright;
    }
    StrideGuard(llk, n, nright);
    assert innerOutVec[..n] == innerOutVec;
  }

  /**
   Lines 93-114 of the copying kernel: the fiber is gathered into
   `innerInVec`, multiplied by `Q` into `innerOutVec` and scattered back.
   */
  method MulFiberCopying(Q: Matrix, outVec: array<int>, index1: int, index2: int, nright: int)
    requires IsSquare(Q) && 0 < nright && 1 <= index1
    requires index2 == index1 + nright * (|Q| - 1) && index2 <= outVec.Length
    modifies outVec
    ensures outVec[..] == MulFiber(old(outVec[..]), Q, index1 - 1, nright)
  {
    var sizeInner := (index2 - index1) / nright + 1;
    SizeInnerIsModeSize(index1, |Q|, nright);
    var innerInVec := new int[sizeInner];
    Gather(outVec, innerInVec, index1, index2, nright);
    var innerOutVec := MatVec(Q, innerInVec[..]);
    Scatter(outVec, innerOutVec, index1, index2, nright);
  }

  /**
   Lines 176-184 of the strided kernel: a view of `sizeInner` entries of
   `outVec` from `index1 - 1` with stride `nright` is overwritten with `Q`
   times that view. The product is evaluated before it is assigned, so it is
   taken from the fiber's old values.
   */
  method MulFiberStrided(Q: Matrix, outVec: array<int>, index1: int, index2: int, nright: int)
    requires IsSquare(Q) && 0 < nright && 1 <= index1
    requires index2 == index1 + nright * (|Q| - 1) && index2 <= outVec.Length
    modifies outVec
    ensures outVec[..] == MulFiber(old(outVec[..]), Q, index1 - 1, nright)
  {
    ghost var v := outVec[..];
    var start := index1 - 1;
    var sizeInner := (index2 - index1) / nright + 1;
    SizeInnerIsModeSize(index1, |Q|, nright);
    var product := MatVec(Q, Fiber(outVec[..], start, nright, sizeInner));
    forall t | 0 <= t < sizeInner
      ensures Strided(start, t, nright) < outVec.Length
      ensures OnFiber(Strided(start, t, nright), start, nright, sizeInner)
      ensures (Strided(start, t, nright) - start) / nright == t
    {
      MulMonotone(t, sizeInner - 1, nright);
      OnFiberAt(start, t, nright, sizeInner);
    }
    forall t | 0 <= t < sizeInner {
      outVec[Strided(start, t, nright)] := product[t];
    }
    forall p | 0 <= p < outVec.Length
      ensures outVec[p] == MulFiber(v, Q, start, nright)[p]
    {
      if OnFiber(p, start, nright, sizeInner) {
        OnFiberStrided(p, start, nright, sizeInner);
      }
    }
  }

  // ---------------------------------------------------------------------------
  // One pass: every fiber of one factor

  /**
   The buffer part-way through the pass of `Q`: the fibers of the blocks before
   `k`, and the first `j` fibers of block `k`, hold their entries of the
   mode product; every other entry still holds its value from before the pass.
   */
  function PartialSweep(v0: seq<int>, Q: Matrix, nleft: nat, nright: nat, k: nat, j: nat): (w: seq<int>)
    requires IsSquare(Q) && 0 < nright && |v0| == nleft * |Q| * nright
    ensures |w| == |v0|
  {
    var full := ModeApply(v0, Q, nleft, nright);
    seq(|v0|, p requires 0 <= p < |v0| =>
      var k', j' := Block(p, |Q|, nright), Offset(p, nright);
      if k' < k || (k' == k && j' < j) then full[p] else v0[p])
  }

  /** Before the pass nothing has changed. */
  lemma {:induction false} PartialSweepStart(v0: seq<int>, Q: Matrix, nleft: nat, nright: nat)
    requires IsSquare(Q) && 0 < nright && |v0| == nleft * |Q| * nright
    ensures PartialSweep(v0, Q, nleft, nright, 0, 0) == v0
  {
    var w := PartialSweep(v0, Q, nleft, nright, 0, 0);
    forall p | 0 <= p < |v0|
      ensures w[p] == v0[p]
    {
    }
  }

  /**
   Multiplying fiber `j` of block `k` takes the pass one fiber further: the
   fiber has not been touched yet, so it is multiplied from its values before
   the pass, and no other entry moves.
   */
  lemma {:induction false} PartialSweepFiber(v0: seq<int>, Q: Matrix, nleft: nat, nright: nat, k: nat, j: nat)
    requires IsSquare(Q) && 0 < nright && |v0| == nleft * |Q| * nright
    requires k < nleft && j < nright
    ensures FiberPos(k, j, 0, |Q|, nright) == k * (|Q| * nright) + j
    ensures k * (|Q| * nright) + j + 1 + nright * (|Q| - 1) <= |v0|
    ensures MulFiber(PartialSweep(v0, Q, nleft, nright, k, j), Q, FiberPos(k, j, 0, |Q|, nright), nright)
         == PartialSweep(v0, Q, nleft, nright, k, j + 1)
  {
    var m := |Q|;
    var start := FiberPos(k, j, 0, m, nright);
    FiberPosInBounds(k, j, m - 1, nleft, m, nright);
    var w := PartialSweep(v0, Q, nleft, nright, k, j);
    forall t | 0 <= t < m
      ensures Strided(start, t, nright) == FiberPos(k, j, t, m, nright) < |v0|
      ensures w[Strided(start, t, nright)] == v0[Strided(start, t, nright)]
    {
      FiberPosInBounds(k, j, t, nleft, m, nright);
      Recompose(k, j, t, m, nright);
    }
    assert Fiber(w, start, nright, m) == Fiber(v0, start, nright, m);
    var u := MulFiber(w, Q, start, nright);
    var w' := PartialSweep(v0, Q, nleft, nright, k, j + 1);
    forall p | 0 <= p < |v0|
      ensures u[p] == w'[p]
    {
      OnFiberIff(p, k, j, m, nright);
      if OnFiber(p, start, nright, m) {
        Decompose(p, m, nright);
        ModeApplyAt(v0, Q, nleft, nright, k, j, Digit(p, m, nright));
      }
    }
  }

  /** Having done every fiber of block `k` is having done the blocks before `k + 1`. */
  lemma {:induction false} PartialSweepRow(v0: seq<int>, Q: Matrix, nleft: nat, nright: nat, k: nat)
    requires IsSquare(Q) && 0 < nright && |v0| == nleft * |Q| * nright
    ensures PartialSweep(v0, Q, nleft, nright, k, nright) == PartialSweep(v0, Q, nleft, nright, k + 1, 0)
  {
    var w, w' := PartialSweep(v0, Q, nleft, nright, k, nright), PartialSweep(v0, Q, nleft, nright, k + 1, 0);
    forall p | 0 <= p < |v0|
      ensures w[p] == w'[p]
    {
      Decompose(p, |Q|, nright);
    }
  }

  /** After all `nleft` blocks the buffer holds the whole mode product. */
  lemma {:induction false} PartialSweepDone(v0: seq<int>, Q: Matrix, nleft: nat, nright: nat)
    requires IsSquare(Q) && 0 < nright && |v0| == nleft * |Q| * nright
    ensures PartialSweep(v0, Q, nleft, nright, nleft, 0) == ModeApply(v0, Q, nleft, nright)
  {
    var w := PartialSweep(v0, Q, nleft, nright, nleft, 0);
    forall p | 0 <= p < |v0|
      ensures w[p] == ModeApply(v0, Q, nleft, nright)[p]
    {
      BlockInBounds(p, nleft, |Q|, nright);
    }
  }

  /**
   In one pass the fibers of the blocks `k < nleft` and offsets `j < nright`
   cover the buffer once: every position lies on the fiber of its own block
   and offset, and on no other.
   */
  lemma {:induction false} FibersPartition(p: nat, nleft: nat, m: nat, nright: nat)
    requires 0 < m && 0 < nright && p < nleft * m * nright
    ensures Block(p, m, nright) < nleft && Offset(p, nright) < nright
    ensures OnFiber(p, FiberPos(Block(p, m, nright), Offset(p, nright), 0, m, nright), nright, m)
    ensures forall k: nat, j: nat :: j < nright && OnFiber(p, FiberPos(k, j, 0, m, nright), nright, m) ==>
      k == Block(p, m, nright) && j == Offset(p, nright)
  {
    BlockInBounds(p, nleft, m, nright);
    OnFiberIff(p, Block(p, m, nright), Offset(p, nright), m, nright);
    forall k: nat, j: nat | j < nright && OnFiber(p, FiberPos(k, j, 0, m, nright), nright, m)
      ensures k == Block(p, m, nright) && j == Offset(p, nright)
    {
      OnFiberIff(p, k, j, m, nright);
    }
  }

  /**
   Lines 86-119 of the copying kernel: the pass of factor `Q` over `nleft`
   blocks of `jump = |Q| * nright` entries, each holding `nright` fibers.
   */
  method SweepCopying(Q: Matrix, outVec: array<int>, nleft: int, nright: int)
    requires IsSquare(Q) && 0 < nright && 0 <= nleft && outVec.Length == nleft * |Q| * nright
    modifies outVec
    ensures outVec[..] == ModeApply(old(outVec[..]), Q, nleft, nright)
  {
    ghost var v0 := outVec[..];
    PartialSweepStart(v0, Q, nleft, nright);
    var base := 0;
    var jump := |Q| * nright;
    var kkk := 1;
    while kkk <= nleft
      invariant 1 <= kkk <= nleft + 1
      invariant base == (kkk - 1) * (|Q| * nright)
      invariant outVec[..] == PartialSweep(v0, Q, nleft, nright, kkk - 1, 0)
    {
      var jjj := 1;
      while jjj <= nright
        invariant 1 <= jjj <= nright + 1
        invariant outVec[..] == PartialSweep(v0, Q, nleft, nright, kkk - 1, jjj - 1)
      {
        var index1 := base + jjj;
        var index2 := base + jjj + nright * (|Q| - 1);
        PartialSweepFiber(v0, Q, nleft, nright, kkk - 1, jjj - 1);
        assert index1 - 1 == FiberPos(kkk - 1, jjj - 1, 0, |Q|, nright);
        MulFiberCopying(Q, outVec, index1, index2, nright);
        assert outVec[..] == PartialSweep(v0, Q, nleft, nright, kkk - 1, jjj);
        jjj := jjj + 1;
      }
      PartialSweepRow(v0, Q, nleft, nright, kkk - 1);
      base := base + jump;
      kkk := kkk + 1;
    }
    PartialSweepDone(v0, Q, nleft, nright);
  }

  /** Lines 170-192 of the strided kernel: the same pass, each fiber multiplied through a strided view. */
  method SweepStrided(Q: Matrix, outVec: array<int>, nleft: int, nright: int)
    requires IsSquare(Q) && 0 < nright && 0 <= nleft && outVec.Length == nleft * |Q| * nright
    modifies outVec
    ensures outVec[..] == ModeApply(old(outVec[..]), Q, nleft, nright)
  {
    ghost var v0 := outVec[..];
    PartialSweepStart(v0, Q, nleft, nright);
    var base := 0;
    var jump := |Q| * nright;
    var kkk := 1;
    while kkk <= nleft
      invariant 1 <= kkk <= nleft + 1
      invariant base == (kkk - 1) * (|Q| * nright)
      invariant outVec[..] == PartialSweep(v0, Q, nleft, nright, kkk - 1, 0)
    {
      var jjj := 1;
      while jjj <= nright
        invariant 1 <= jjj <= nright + 1
        invariant outVec[..] == PartialSweep(v0, Q, nleft, nright, kkk - 1, jjj - 1)
      {
        var index1 := base + jjj;
        var index2 := base + jjj + nright * (|Q| - 1);
        PartialSweepFiber(v0, Q, nleft, nright, kkk - 1, jjj - 1);
        assert index1 - 1 == FiberPos(kkk - 1, jjj - 1, 0, |Q|, nright);
        MulFiberStrided(Q, outVec, index1, index2, nright);
        assert outVec[..] == PartialSweep(v0, Q, nleft, nright, kkk - 1, jjj);
        jjj := jjj + 1;
      }
      PartialSweepRow(v0, Q, nleft, nright, kkk - 1);
      base := base + jump;
      kkk := kkk + 1;
    }
    PartialSweepDone(v0, Q, nleft, nright);
  }

  /** One pass of either kernel: `copying` chooses `kronMatVec2`'s fiber multiplication or `kronMatVec`'s. */
  method Sweep(Q: Matrix, outVec: array<int>, nleft: int, nright: int, copying: bool)
    requires IsSquare(Q) && 0 < nright && 0 <= nleft && outVec.Length == nleft * |Q| * nright
    modifies outVec
    ensures outVec[..] == ModeApply(old(outVec[..]), Q, nleft, nright)
  {
    if copying {
      SweepCopying(Q, outVec, nleft, nright);
    } else {
      SweepStrided(Q, outVec, nleft, nright);
    }
  }

  // ---------------------------------------------------------------------------
  // Bookkeeping of the number of outer blocks

  /** `std::max` on the source's integers. */
  function Max(a: int, b: int): int
  {
    if a < b then b else a
  }

  /** Which update of `nleft` closes a pass. */
  datatype NleftUpdate =
    | AsInKronMatVec2   // `nleft / n[std::max(iii-2,1)]`, line 121
    | AsInKronMatVec    // `nleft / n[std::max(iii-2,1)-1]`, line 194
    | Corrected         // `nleft / n[std::max(iii-2,0)]`

  /** The entry of `n` that pass `iii` (counted from 1) divides `nleft` by. */
  function DivisorIndex(update: NleftUpdate, iii: int): int
  {
    match update
    case AsInKronMatVec2 => Max(iii - 2, 1)
    case AsInKronMatVec => Max(iii - 2, 1) - 1
    case Corrected => Max(iii - 2, 0)
  }

  /**
   Which size each update reads. From pass 3 on, the copying kernel and the
   corrected update read the size of factor `iii - 2`, the strided kernel that
   of factor `iii - 3`; passes 1 and 2 read `n[1]` in the copying kernel and
   `n[0]` otherwise.
   */
  lemma DivisorIndexCases(update: NleftUpdate, iii: int)
    ensures 3 <= iii ==> DivisorIndex(update, iii) == if update == AsInKronMatVec then iii - 3 else iii - 2
    ensures iii <= 2 ==> DivisorIndex(update, iii) == if update == AsInKronMatVec2 then 1 else 0
  {
  }

  /**
   The update reads inside `n` after every pass, and whenever another pass
   follows it turns the number of blocks of pass `iii`, the product of the
   sizes of the factors before `iii`, into that of pass `iii - 1`.
   */
  predicate KeepsNleft(Qs: seq<Matrix>, update: NleftUpdate)
    requires AllSquare(Qs)
  {
    forall iii :: 1 <= iii <= |Qs| ==>
      0 <= DivisorIndex(update, iii) < |Qs| &&
      (2 <= iii ==> Size(Qs[..iii - 1]) / |Qs[DivisorIndex(update, iii)]| == Size(Qs[..iii - 2]))
  }

  /**
   `KeepsNleft` at pass `iii`: the update reads inside `n` and, when a pass
   follows, gives that pass's `nleft`. The copying kernel's update after the
   last pass reads `n[1]`, so there it needs at least two factors.
   */
  lemma KeepsNleftAt(Qs: seq<Matrix>, update: NleftUpdate, iii: int)
    requires AllSquare(Qs) && KeepsNleft(Qs, update) && 1 <= iii <= |Qs|
    ensures 0 <= DivisorIndex(update, iii) < |Qs|
    ensures 2 <= iii ==> Size(Qs[..iii - 1]) / |Qs[DivisorIndex(update, iii)]| == Size(Qs[..iii - 2])
    ensures update == AsInKronMatVec2 ==> 2 <= |Qs|
  {
    assert 0 <= DivisorIndex(update, 1) < |Qs|;
  }

  lemma {:induction false} SizeSnoc(Qs: seq<Matrix>, i: nat)
    requires i < |Qs|
    ensures Size(Qs[..i + 1]) == Size(Qs[..i]) * |Qs[i]|
  {
    SizeSplit(Qs[..i + 1], i);
    assert Qs[..i + 1][..i] == Qs[..i] && Qs[..i + 1][i..] == [Qs[i]];
    assert [Qs[i]][1..] == [];
  }

  lemma {:induction false} SizePositive(Qs: seq<Matrix>)
    requires AllSquare(Qs)
    ensures 0 < Size(Qs)
  {
    if |Qs| > 0 {
      assert AllSquare(Qs[1..]) by {
        forall i | 0 <= i < |Qs| - 1 ensures IsSquare(Qs[1..][i]) {
          assert Qs[1..][i] == Qs[i + 1];
        }
      }
      SizePositive(Qs[1..]);
      MulMonotone(1, |Qs[0]|, Size(Qs[1..]));
    }
  }

  /** Dividing the size of the factors before pass `iii` by the size of the last of them. */
  lemma {:induction false} DropLastFactor(Qs: seq<Matrix>, iii: int)
    requires AllSquare(Qs) && 2 <= iii <= |Qs|
    ensures Size(Qs[..iii - 1]) / |Qs[iii - 2]| == Size(Qs[..iii - 2])
  {
    SizeSnoc(Qs, iii - 2);
    DivModUnique(Size(Qs[..iii - 1]), |Qs[iii - 2]|, Size(Qs[..iii - 2]), 0);
  }

  /** The corrected update keeps `nleft` right for every list of square factors. */
  lemma {:induction false} CorrectedKeepsNleft(Qs: seq<Matrix>)
    requires AllSquare(Qs) && 1 <= |Qs|
    ensures KeepsNleft(Qs, Corrected)
  {
    forall iii | 2 <= iii <= |Qs|
      ensures Size(Qs[..iii - 1]) / |Qs[DivisorIndex(Corrected, iii)]| == Size(Qs[..iii - 2])
    {
      DropLastFactor(Qs, iii);
    }
  }

  /**
   The update of `kronMatVec2` keeps `nleft` right exactly when there are at
   least two factors and the first is at least as large as the second but
   less than twice as large: pass 2 divides by the second size instead of the
   first, and pass 1 reads the second entry of `n`.
   */
  lemma {:induction false} KronMatVec2KeepsNleftIff(Qs: seq<Matrix>)
    requires AllSquare(Qs) && 1 <= |Qs|
    ensures KeepsNleft(Qs, AsInKronMatVec2) <==> 2 <= |Qs| && |Qs[0]| / |Qs[1]| == 1
  {
    if 2 <= |Qs| && |Qs[0]| / |Qs[1]| == 1 {
      forall iii | 2 <= iii <= |Qs|
        ensures Size(Qs[..iii - 1]) / |Qs[DivisorIndex(AsInKronMatVec2, iii)]| == Size(Qs[..iii - 2])
      {
        if iii == 2 {
          SizeSnoc(Qs, 0);
        } else {
          DropLastFactor(Qs, iii);
        }
      }
    }
    if KeepsNleft(Qs, AsInKronMatVec2) {
      assert 0 <= DivisorIndex(AsInKronMatVec2, 1) < |Qs|;
      assert 2 <= |Qs|;
      SizeSnoc(Qs, 0);
      assert 1 <= 2 <= |Qs| && DivisorIndex(AsInKronMatVec2, 2) == 1;
    }
  }

  /** `(s * a * b) / a == s * a` holds exactly when `a == b`, for positive sizes. */
  lemma {:induction false} DivideByEarlierFactor(s: int, a: int, b: int)
    requires 0 < s && 0 < a && 0 < b
    ensures (s * a * b) / a == s * a <==> a == b
  {
    DivModUnique(s * a * b, a, s * b, 0);
    if a < b {
      MulStrictMono(a, b, s);
    } else if b < a {
      MulStrictMono(b, a, s);
    }
  }

  lemma MulStrictMono(a: int, b: int, s: int)
    requires a < b && 0 < s
    ensures s * a < s * b
  {
    MulMonotone(a + 1, b, s);
  }

  lemma {:induction false} PrefixAllSquare(Qs: seq<Matrix>, i: nat)
    requires AllSquare(Qs) && i <= |Qs|
    ensures AllSquare(Qs[..i])
  {
    forall t | 0 <= t < i ensures IsSquare(Qs[..i][t]) {
      assert Qs[..i][t] == Qs[t];
    }
  }

  /** Pass `iii >= 3` of `kronMatVec` divides by the size of factor `iii - 3` where factor `iii - 2` was meant. */
  lemma {:induction false} StridedPassIff(Qs: seq<Matrix>, iii: int)
    requires AllSquare(Qs) && 3 <= iii <= |Qs|
    ensures Size(Qs[..iii - 1]) / |Qs[iii - 3]| == Size(Qs[..iii - 2]) <==> |Qs[iii - 3]| == |Qs[iii - 2]|
  {
    SizeSnoc(Qs, iii - 2);
    SizeSnoc(Qs, iii - 3);
    PrefixAllSquare(Qs, iii - 3);
    SizePositive(Qs[..iii - 3]);
    DivideByEarlierFactor(Size(Qs[..iii - 3]), |Qs[iii - 3]|, |Qs[iii - 2]|);
  }

  /**
   The update of `kronMatVec` keeps `nleft` right exactly when all factors
   but the last have one size, that is, when each of them has the size of the
   next one before the last.
   */
  lemma {:induction false} KronMatVecKeepsNleftIff(Qs: seq<Matrix>)
    requires AllSquare(Qs) && 1 <= |Qs|
    ensures KeepsNleft(Qs, AsInKronMatVec) <==> forall i :: 0 <= i < |Qs| - 2 ==> |Qs[i]| == |Qs[i + 1]|
  {
    if forall i :: 0 <= i < |Qs| - 2 ==> |Qs[i]| == |Qs[i + 1]| {
      forall iii | 2 <= iii <= |Qs|
        ensures Size(Qs[..iii - 1]) / |Qs[DivisorIndex(AsInKronMatVec, iii)]| == Size(Qs[..iii - 2])
      {
        if iii == 2 {
          DropLastFactor(Qs, 2);
        } else {
          StridedPassIff(Qs, iii);
        }
      }
    }
    if KeepsNleft(Qs, AsInKronMatVec) {
      forall i | 0 <= i < |Qs| - 2
        ensures |Qs[i]| == |Qs[i + 1]|
      {
        assert DivisorIndex(AsInKronMatVec, i + 3) == i;
        StridedPassIff(Qs, i + 3);
      }
    }
  }

  // ---------------------------------------------------------------------------
  // The kernels

  /**
   The body shared by both kernels (lines 48-123 and 137-197): size the
   problem, copy the input to the output, then run one pass per factor from
   the last to the first, multiplying fibers by copying them out
   (`copying`) or through a strided view, and closing each pass with the
   given update of `nleft`. Whenever that update keeps `nleft` right, the
   output is the Kronecker product of the factors times the input.
   */
  method Kernel(Qs: seq<Matrix>, inVec: array<int>, outVec: array<int>, update: NleftUpdate, copying: bool)
    requires AllSquare(Qs) && 1 <= |Qs| && KeepsNleft(Qs, update)
    requires inVec.Length == Size(Qs) && outVec.Length == inVec.Length
    modifies outVec
    ensures outVec[..] == MatVec(Kron(Qs), old(inVec[..]))
  {
    ghost var x := inVec[..];
    var N := |Qs|;

    var totDim := 1;
    for iii := 0 to N
      invariant totDim == Size(Qs[..iii])
      invariant inVec[..] == x
    {
      SizeSnoc(Qs, iii);
      totDim := totDim * |Qs[iii][0]|;
    }
    assert Qs[..N] == Qs;
    assert inVec.Length == totDim;

    var n := new int[N](_ => 0);
    var nleft := 1;
    for iii := 1 to N
      invariant nleft == Size(Qs[..iii - 1])
      invariant forall i :: 0 <= i < iii - 1 ==> n[i] == |Qs[i]|
      invariant inVec[..] == x
    {
      n[iii - 1] := |Qs[iii - 1]|;
      SizeSnoc(Qs, iii - 1);
      nleft := nleft * n[iii - 1];
    }

    assert inVec[..] == x;
    forall i | 0 <= i < outVec.Length {
      outVec[i] := inVec[i];
    }
    assert outVec[..] == x;
    n[N - 1] := |Qs[N - 1]|;

    Passes(Qs, n, outVec, nleft, update, copying);
  }

  /**
   The passes of both kernels (lines 85-123 and 168-197): from the last
   factor to the first, each pass applies its factor to every fiber and then
   updates `nleft` and `nright` for the next one.
   */
  method Passes(Qs: seq<Matrix>, n: array<int>, outVec: array<int>, nleft0: int, update: NleftUpdate, copying: bool)
    requires AllSquare(Qs) && 1 <= |Qs| && KeepsNleft(Qs, update)
    requires n.Length == |Qs| && forall i :: 0 <= i < |Qs| ==> n[i] == |Qs[i]|
    requires nleft0 == Size(Qs[..|Qs| - 1]) && outVec.Length == Size(Qs) && n != outVec
    modifies outVec
    ensures outVec[..] == MatVec(Kron(Qs), old(outVec[..]))
  {
    ghost var x := outVec[..];
    var N := |Qs|;
    var nright := 1;
    var nleft := nleft0;
    assert UnitVec(1, 0) == [1] && Identity(1) == [[1]];
    assert Qs[N..] == [] && Kron(Qs[N..]) == Identity(1);
    assert Qs[..N] == Qs;
    BlockApplyIdentity(1, x, Size(Qs));
    var iii := N;
    while iii >= 1
      invariant 0 <= iii <= N
      invariant forall i :: 0 <= i < N ==> n[i] == |Qs[i]|
      invariant nright == Size(Qs[iii..])
      invariant 1 <= iii ==> nleft == Size(Qs[..iii - 1])
      invariant |x| == Size(Qs[..iii]) * Size(Qs[iii..])
      invariant IsSquare(Kron(Qs[iii..]))
      invariant outVec[..] == BlockApply(Kron(Qs[iii..]), x, Size(Qs[..iii]))
    {
      SweepStep(Qs, x, iii);
      SizeSplit(Qs, iii - 1);
      ghost var m := |Qs[iii - 1]|;
      assert n[iii - 1] == m;
      assert Size(Qs[iii - 1..]) == m * nright == nright * m;
      Sweep(Qs[iii - 1], outVec, nleft, nright, copying);
      nleft := nleft / n[DivisorIndex(update, iii)];
      nright := nright * n[iii - 1];
      iii := iii - 1;
    }
    BlockApplySingle(Kron(Qs), x);
  }

  /**
   `kronMatVec2` (lines 41-126) as written: correct whenever there are at
   least two factors and the first one's size divided by the second one's is
   1. This is exactly the condition under which its `nleft` update is right.
   */
  method KronMatVec2(Qs: seq<Matrix>, inVec: array<int>, outVec: array<int>)
    requires AllSquare(Qs) && 2 <= |Qs| && |Qs[0]| / |Qs[1]| == 1
    requires inVec.Length == Size(Qs) && outVec.Length == inVec.Length
    modifies outVec
    ensures outVec[..] == MatVec(Kron(Qs), old(inVec[..]))
  {
    KronMatVec2KeepsNleftIff(Qs);
    Kernel(Qs, inVec, outVec, AsInKronMatVec2, true);
  }

  /**
   `kronMatVec` (lines 130-199) as written: correct whenever all factors but
   the last have one size. This is exactly the condition under which its
   `nleft` update is right.
   */
  method KronMatVec(Qs: seq<Matrix>, inVec: array<int>, outVec: array<int>)
    requires AllSquare(Qs) && 1 <= |Qs| && forall i :: 0 <= i < |Qs| - 2 ==> |Qs[i]| == |Qs[i + 1]|
    requires inVec.Length == Size(Qs) && outVec.Length == inVec.Length
    modifies outVec
    ensures outVec[..] == MatVec(Kron(Qs), old(inVec[..]))
  {
    KronMatVecKeepsNleftIff(Qs);
    Kernel(Qs, inVec, outVec, AsInKronMatVec, false);
  }

  /** `kronMatVec2` with `nleft` divided by `n[std::max(iii-2,0)]`: correct for any square factors. */
  method KronMatVec2Corrected(Qs: seq<Matrix>, inVec: array<int>, outVec: array<int>)
    requires AllSquare(Qs) && 1 <= |Qs|
    requires inVec.Length == Size(Qs) && outVec.Length == inVec.Length
    modifies outVec
    ensures outVec[..] == MatVec(Kron(Qs), old(inVec[..]))
  {
    CorrectedKeepsNleft(Qs);
    Kernel(Qs, inVec, outVec, Corrected, true);
  }

  /** `kronMatVec` with `nleft` divided by `n[std::max(iii-2,0)]`: correct for any square factors. */
  method KronMatVecCorrected(Qs: seq<Matrix>, inVec: array<int>, outVec: array<int>)
    requires AllSquare(Qs) && 1 <= |Qs|
    requires inVec.Length == Size(Qs) && outVec.Length == inVec.Length
    modifies outVec
    ensures outVec[..] == MatVec(Kron(Qs), old(inVec[..]))
  {
    CorrectedKeepsNleft(Qs);
    Kernel(Qs, inVec, outVec, Corrected, false);
  }

  // ---------------------------------------------------------------------------
  // What the result means

  /** With one factor the kernel computes the plain product `Q * inVec`. */
  lemma {:induction false} SingleFactorIsMatVec(Q: Matrix, x: seq<int>)
    requires IsSquare(Q) && |x| == |Q|
    ensures |x| == Size([Q])
    ensures MatVec(Kron([Q]), x) == MatVec(Q, x)
  {
    KronSingle(Q);
    assert [Q][1..] == [];
  }

  /** With identity factors the kernel leaves the input as it is. */
  lemma {:induction false} IdentityFactorsKeepInput(Qs: seq<Matrix>, x: seq<int>)
    requires AllSquare(Qs) && forall i :: 0 <= i < |Qs| ==> Qs[i] == Identity(|Qs[i]|)
    requires |x| == Size(Qs)
    ensures MatVec(Kron(Qs), x) == x
  {
    KronIdentities(Qs);
    MatVecIdentity(x);
  }

  // ---------------------------------------------------------------------------
  // The literal updates on small inputs

  lemma IdentitySquare(n: nat)
    requires 0 < n
    ensures IsSquare(Identity(n)) && |Identity(n)| == n
  {
  }

  /**
   `kronMatVec2` with factors of sizes 2 and 3: the update after pass 2 sets
   `nleft` to `2 / 3 == 0`, so pass 1 visits no block and the first factor is
   never applied, although the buffer holds one block of it.
   */
  lemma KronMatVec2SkipsFirstFactor()
    ensures var Qs := [Identity(2), Identity(3)];
      AllSquare(Qs) && Size(Qs) == 6 &&
      Size(Qs[..1]) / |Qs[DivisorIndex(AsInKronMatVec2, 2)]| == 0 && Size(Qs[..0]) == 1 &&
      !KeepsNleft(Qs, AsInKronMatVec2)
  {
    var Qs := [Identity(2), Identity(3)];
    IdentitySquare(2);
    IdentitySquare(3);
    assert Qs[..0] == [];
    SizeSnoc(Qs, 0);
    SizeSnoc(Qs, 1);
    assert Qs[..2] == Qs;
    assert 1 <= 2 <= |Qs| && DivisorIndex(AsInKronMatVec2, 2) == 1;
  }

  /** `kronMatVec2` with one factor reads `n[1]` of a vector `n` of one entry after its only pass. */
  lemma KronMatVec2ReadsPastSizes(Qs: seq<Matrix>)
    requires AllSquare(Qs) && |Qs| == 1
    ensures DivisorIndex(AsInKronMatVec2, 1) == |Qs|
    ensures !KeepsNleft(Qs, AsInKronMatVec2)
  {
  }

  /**
   `kronMatVec` with factors of sizes 2, 3 and 4: the update after pass 3 sets
   `nleft` to `6 / 2 == 3` instead of 2, and the last fiber of pass 2 (block
   2, offset 3) ends at position 35 of a buffer of 24 entries.
   */
  lemma KronMatVecOverrunsBuffer()
    ensures var Qs := [Identity(2), Identity(3), Identity(4)];
      AllSquare(Qs) && Size(Qs) == 24 &&
      Size(Qs[..2]) / |Qs[DivisorIndex(AsInKronMatVec, 3)]| == 3 && Size(Qs[..1]) == 2 &&
      FiberPos(3 - 1, 4 - 1, 3 - 1, 3, 4) == 35 &&
      !KeepsNleft(Qs, AsInKronMatVec)
  {
    var Qs := [Identity(2), Identity(3), Identity(4)];
    IdentitySquare(2);
    IdentitySquare(3);
    IdentitySquare(4);
    assert Qs[..0] == [];
    SizeSnoc(Qs, 0);
    SizeSnoc(Qs, 1);
    SizeSnoc(Qs, 2);
    assert Qs[..3] == Qs;
    assert 1 <= 3 <= |Qs| && DivisorIndex(AsInKronMatVec, 3) == 0;
  }

  /**
   `kronMatVec` with factors of sizes 3, 2 and 4: the update after pass 3 sets
   `nleft` to `6 / 3 == 2` instead of 3, so pass 2 covers only 16 of the 24
   entries; the update after pass 2 then sets it to `2 / 3 == 0`, so pass 1
   visits no block at all.
   */
  lemma KronMatVecSkipsBlocks()
    ensures var Qs := [Identity(3), Identity(2), Identity(4)];
      AllSquare(Qs) && Size(Qs) == 24 &&
      Size(Qs[..2]) / |Qs[DivisorIndex(AsInKronMatVec, 3)]| == 2 && Size(Qs[..1]) == 3 &&
      2 * 2 * 4 == 16 &&
      2 / |Qs[DivisorIndex(AsInKronMatVec, 2)]| == 0 && Size(Qs[..0]) == 1 &&
      !KeepsNleft(Qs, AsInKronMatVec)
  {
    var Qs := [Identity(3), Identity(2), Identity(4)];
    IdentitySquare(2);
    IdentitySquare(3);
    IdentitySquare(4);
    assert Qs[..0] == [];
    SizeSnoc(Qs, 0);
    SizeSnoc(Qs, 1);
    SizeSnoc(Qs, 2);
    assert Qs[..3] == Qs;
    assert 1 <= 3 <= |Qs| && DivisorIndex(AsInKronMatVec, 3) == 0;
  }
}
