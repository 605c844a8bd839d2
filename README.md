# Kronecker matrix times vector, in Dafny

This project models the two kernels of `misc/eigen/kronMatVec.h`, which
multiply a vector by the Kronecker product `Q_1 ⊗ Q_2 ⊗ … ⊗ Q_N` of square
factors without ever forming that product. The first factor is the most
significant index.

Both kernels work the same way:

- they copy `inVec` into `outVec`;
- they make one pass per factor, from the last factor to the first;
- pass `iii` walks `nleft` outer blocks of `jump = n[iii-1] * nright` entries;
- in each block it walks `nright` inner offsets;
- at each offset it replaces the fiber of `n[iii-1]` entries, taken with stride `nright`, by `Q_iii` times that fiber.

The two kernels differ only in how they multiply a fiber:

- `kronMatVec2` gathers the fiber into a temporary, multiplies it and scatters the result back;
- `kronMatVec` multiplies a strided view of the output buffer.

Scalars are exact integers, factors are sequences of rows, and the buffers
are `array<int>`. The modules are:

- `Arith` (`arith.dfy`): the index arithmetic. Position `p` of a pass splits into its block `p / (m*nright)`, its digit `(p / nright) % m` and its offset `p % nright`.
- `Linalg` (`linalg.dfy`): dot products, matrix–vector products, identities and the explicit Kronecker product `Kron`. `Kron` is the reference the kernels are proved against.
- `ModeProduct` (`mode_product.dfy`): the value of one pass, `ModeApply`, which is `I_nleft ⊗ Q ⊗ I_nright` applied entrywise over fibers. It also holds `BlockApply`, which is `I_nleft ⊗ K`, and the mixed-product step (`MixedProduct`, `SweepStep`). That step shows that a pass with `Q_i` turns `I ⊗ (Q_{i+1} ⊗ … ⊗ Q_N)` into `I ⊗ (Q_i ⊗ … ⊗ Q_N)`.
- `KronMatVec` (`kron_mat_vec.dfy`): the imperative kernels, in four layers:
  - the fiber loops (`MulFiberCopying`, `MulFiberStrided`);
  - the block and offset loops of one pass (`SweepCopying`, `SweepStrided`), proved against `ModeApply` through the partial-pass state `PartialSweep`;
  - the set-up and the loop over factors (`Kernel`, `Passes`);
  - the two source functions, once as written and once with the corrected `nleft` update.

The two source functions share one loop nest. `Kernel` carries it, and its
parameters choose the fiber multiplication and the `nleft` update.

`KeepsNleft` states the condition under which the literal `nleft` updates
are right. The lemmas `KronMatVec2KeepsNleftIff` and `KronMatVecKeepsNleftIff`
characterise it exactly, and the as-written kernels require it in that form.

## Model

| member | source | states |
|---|---|---|
| Arith.Decompose | misc/eigen/kronMatVec.h:89-94 | every buffer position is the position of its block, offset and digit along the active factor, each in range |
| Arith.Recompose | misc/eigen/kronMatVec.h:89-94 | a block, offset and digit in range are recovered from the position they name |
| Arith.FiberPosInBounds | misc/eigen/kronMatVec.h:89-114 | every position of the fiber of block `k < nleft`, offset `j < nright` lies inside the buffer of `nleft * m * nright` entries |
| Arith.BlockInBounds | misc/eigen/kronMatVec.h:89-91 | every position of the buffer belongs to a block below `nleft` |
| Arith.OnFiberIff | misc/eigen/kronMatVec.h:93-114 | a position lies on the fiber of block `k` and offset `j` if and only if those are its block and offset; then its index on the fiber is its digit |
| Arith.OnFiberOf | misc/eigen/kronMatVec.h:93-94 | a position on the fiber that starts at `base + jjj - 1` has block `kkk - 1` and offset `jjj - 1`, and its index on the fiber is its digit |
| Arith.OnOwnFiber | misc/eigen/kronMatVec.h:93-94 | every position lies on the fiber named by its own block and offset, at the index given by its digit |
| Arith.OnFiberGrow | misc/eigen/kronMatVec.h:110-114 | one more step of the scatter loop adds exactly the next strided position to the written part of the fiber |
| KronMatVec.FibersPartition | misc/eigen/kronMatVec.h:87-117 | in one pass the fibers of all `(kkk, jjj)` cover every position, each exactly once |
| KronMatVec.SizeInnerIsModeSize | misc/eigen/kronMatVec.h:93-96 | `(index2 - index1) / nright + 1` equals the size `n[iii-1]` of the factor |
| KronMatVec.StrideGuard | misc/eigen/kronMatVec.h:101 | the guard `lll <= index2` holds exactly while `llk` indexes the fiber |
| KronMatVec.Gather | misc/eigen/kronMatVec.h:100-105 | the gather loop stays inside `outVec` and leaves in `innerInVec` exactly the fiber from `index1 - 1` with stride `nright` |
| KronMatVec.Scatter | misc/eigen/kronMatVec.h:109-114 | the scatter loop stays inside `outVec`, writes `innerOutVec` onto the fiber and changes no other entry |
| KronMatVec.WriteFiberSnoc | misc/eigen/kronMatVec.h:110-113 | one more step of the scatter loop is one more single-entry update, at the next strided position |
| KronMatVec.FiberOfWriteFiber | misc/eigen/kronMatVec.h:100-114 | gathering a fiber just scattered gives back what was scattered |
| KronMatVec.WriteOwnFiber | misc/eigen/kronMatVec.h:100-114 | scattering back the values just gathered changes nothing |
| KronMatVec.MulFiberCopying | misc/eigen/kronMatVec.h:93-114 | the gather, multiply and scatter stay in bounds and replace the fiber by `Q` times its old values; nothing else changes |
| KronMatVec.MulFiberStrided | misc/eigen/kronMatVec.h:176-184 | the strided view is replaced by `Q` times its old values, the same new buffer as the copying variant |
| KronMatVec.PartialSweepStart | misc/eigen/kronMatVec.h:87-88 | before the block loop nothing of the pass is done |
| KronMatVec.PartialSweepFiber | misc/eigen/kronMatVec.h:100-114 | multiplying fiber `(k, j)` takes the pass exactly one fiber further: it reads only untouched entries and writes the mode product there |
| KronMatVec.PartialSweepRow | misc/eigen/kronMatVec.h:91-117 | finishing all `nright` offsets of block `k` is finishing the blocks before `k + 1` |
| KronMatVec.PartialSweepDone | misc/eigen/kronMatVec.h:89-119 | after `nleft` blocks the buffer holds the whole mode product |
| KronMatVec.SweepCopying | misc/eigen/kronMatVec.h:86-119 | one copying pass turns the buffer into `(I_nleft ⊗ Q ⊗ I_nright)` times its old value |
| KronMatVec.SweepStrided | misc/eigen/kronMatVec.h:170-192 | one strided pass computes the same as the copying pass |
| KronMatVec.Sweep | misc/eigen/kronMatVec.h:86-119 | a pass of either kernel, copying or strided, turns the buffer into `(I_nleft ⊗ Q ⊗ I_nright)` times its old value |
| ModeProduct.ModeApplyAt | misc/eigen/kronMatVec.h:107 | digit `t` of the fiber `(k, j)` after a pass is row `t` of `Q` times the fiber before it |
| ModeProduct.ModeApplyIsKron | misc/eigen/kronMatVec.h:85-122 | one pass is the product with `Kron([I_nleft, Q, I_nright])` |
| ModeProduct.BlockApplyIsKron | misc/eigen/kronMatVec.h:85-122 | the block-wise product is the product with `Kron([I_nleft, K])` |
| ModeProduct.BlockApplyIdentity | misc/eigen/kronMatVec.h:67 | before any pass, the copied input is the result of applying the empty suffix of factors |
| ModeProduct.BlockApplySingle | misc/eigen/kronMatVec.h:123 | when `nleft` covers no factor, the block-wise product is the plain product |
| ModeProduct.MixedProduct | misc/eigen/kronMatVec.h:85-122 | a pass with `Q` after `I ⊗ K` gives `I ⊗ (Q ⊗ K)` (mixed-product rule) |
| ModeProduct.SweepStep | misc/eigen/kronMatVec.h:85-122 | with factors `iii+1..N` applied, pass `iii` leaves factors `iii..N` applied, and `nleft * n[iii-1] * nright` is the buffer length |
| Linalg.Kron | misc/eigen/kronMatVec.h:50-54 | the Kronecker product of square factors is square, of the size `totDim` the source computes |
| Linalg.SizeSplit | misc/eigen/kronMatVec.h:59-65 | the total size is `nleft` (sizes before a factor) times the sizes from it on |
| Linalg.KronSingle | misc/eigen/kronMatVec.h:85-123 | the Kronecker product of one factor is that factor |
| Linalg.KronIdentities | misc/eigen/kronMatVec.h:85-123 | the Kronecker product of identities is the identity |
| Linalg.MatVecIdentity | misc/eigen/kronMatVec.h:107 | the identity times a vector is that vector |
| KronMatVec.SizeSnoc | misc/eigen/kronMatVec.h:61-65 | each step of the size loops multiplies by the next factor's size |
| KronMatVec.DropLastFactor | misc/eigen/kronMatVec.h:121 | dividing by the size of factor `iii-1` turns the `nleft` of pass `iii` into that of pass `iii-1` |
| KronMatVec.DivisorIndexCases | misc/eigen/kronMatVec.h:121 | the entry of `n` each update reads: `n[std::max(iii-2,1)]` is `n[iii-2]` from pass 3 on and `n[1]` for passes 1 and 2 (line 121); `n[std::max(iii-2,1)-1]` is `n[iii-3]` from pass 3 on and `n[0]` before (line 194); the corrected update reads `n[iii-2]` from pass 3 on and `n[0]` before
| KronMatVec.KeepsNleftAt | misc/eigen/kronMatVec.h:85-122 | under `KeepsNleft`, the update after pass `iii` reads inside `n` and turns `nleft` (sizes of the factors before `iii`) into that of pass `iii - 1`; the copying kernel's last update, which reads `n[1]`, then needs two factors |
| KronMatVec.CorrectedKeepsNleft | misc/eigen/kronMatVec.h:121-122 | dividing by `n[max(iii-2,0)]` keeps `nleft` right for every list of square factors |
| KronMatVec.KronMatVec2KeepsNleftIff | misc/eigen/kronMatVec.h:121 | the update of `kronMatVec2` keeps `nleft` right if and only if `N >= 2` and `n[0] / n[1] == 1` |
| KronMatVec.StridedPassIff | misc/eigen/kronMatVec.h:194 | pass `iii >= 3` of `kronMatVec` gets `nleft` right if and only if factors `iii-2` and `iii-1` have one size |
| KronMatVec.KronMatVecKeepsNleftIff | misc/eigen/kronMatVec.h:194 | the update of `kronMatVec` keeps `nleft` right if and only if all factors but the last have one size |
| KronMatVec.Kernel | misc/eigen/kronMatVec.h:48-123 | size check, copy and passes (also lines 137-197): with a sound `nleft` update the output is `Kron(Qs)` times the input, whichever fiber multiplication is used |
| KronMatVec.Passes | misc/eigen/kronMatVec.h:85-123 | the loop over factors keeps `nright` the size of the applied suffix, `nleft` that of the prefix, and the buffer the suffix's product |
| KronMatVec.KronMatVec2 | misc/eigen/kronMatVec.h:41-126 | `kronMatVec2` as written computes `Kron(Qs) * inVec` whenever `N >= 2` and `n[0] / n[1] == 1` |
| KronMatVec.KronMatVec | misc/eigen/kronMatVec.h:130-199 | `kronMatVec` as written computes `Kron(Qs) * inVec` whenever all factors but the last have one size |
| KronMatVec.KronMatVec2Corrected | misc/eigen/kronMatVec.h:121 | with the corrected update, `kronMatVec2` computes `Kron(Qs) * inVec` for any square factors |
| KronMatVec.KronMatVecCorrected | misc/eigen/kronMatVec.h:194 | with the corrected update, `kronMatVec` computes `Kron(Qs) * inVec` for any square factors |
| KronMatVec.SingleFactorIsMatVec | misc/eigen/kronMatVec.h:85-123 | with one factor the result is `Q * inVec` |
| KronMatVec.IdentityFactorsKeepInput | misc/eigen/kronMatVec.h:85-123 | with identity factors the result is the input |
| KronMatVec.KronMatVec2SkipsFirstFactor | misc/eigen/kronMatVec.h:121 | with sizes 2 and 3, `nleft` becomes 0 before pass 1, so that pass skips the one block it must cover |
| KronMatVec.KronMatVec2ReadsPastSizes | misc/eigen/kronMatVec.h:121 | with one factor the update reads `n[1]` of a one-entry `n` |
| KronMatVec.KronMatVecSkipsBlocks | misc/eigen/kronMatVec.h:194 | with sizes 3, 2 and 4, `nleft` becomes 2 instead of 3 before pass 2, which then covers 16 of the 24 entries, and 0 before pass 1, which visits no block |
| KronMatVec.KronMatVecOverrunsBuffer | misc/eigen/kronMatVec.h:194 | with sizes 2, 3 and 4, `nleft` becomes 3 instead of 2 before pass 2, whose last fiber ends at position 35 of a 24-entry buffer |

## Left out

- Floating point: scalars are exact integers, so rounding and Eigen's numeric behaviour are not modelled.
- The 32-bit width of `totDim`, `nleft`, `nright` and the indices: the model uses unbounded integers and does not capture overflow for very large problems.
- Rectangular factors: the fiber length is the row count, and the fiber is multiplied in place, so every factor is required to be square.
- The resize of `outVec` by `outVec = inVec`: `outVec` is required to have the input's length. The two arrays may be the same array.
- The runtime `assert` on the input length (lines 56 and 145): it becomes a precondition.
- `N == 0`: the set-up writes `n[N-1]`, so at least one factor is required.
- Eigen machinery: `Map`, `InnerStride`, `noalias`, `VectorXi`, the aligned allocator and the `const_cast` on the output. These become explicit strided indexing over arrays. The matrix–vector product `Qs[iii-1] * innerInVec` is the exact product `MatVec`, not a loop. The temporary `innerInVec` is a fresh array per fiber rather than a resized vector, and `innerOutVec` is the value of the product, a sequence.
- Commented-out debug printing.
- KronMatVec2: the precondition `N >= 2 && n[0] / n[1] == 1` is exactly the condition under which the literal update at line 121 keeps `nleft` right. Outside it the model claims nothing (see Findings).
- KronMatVec: the precondition that all factors but the last have one size is exactly the condition under which the literal update at line 194 keeps `nleft` right. Outside it the source overruns the buffer when the factor it should divide by is larger than the one it uses, and leaves blocks or whole passes out when it is smaller (see Findings).

## Findings

| source | as written | input that shows it | evidently intended | confidence | as-written member | corrected member |
|---|---|---|---|---|---|---|
| misc/eigen/kronMatVec.h:121 | after pass 2, `nleft` is divided by `n[1]` instead of `n[0]` | factors of sizes 2 and 3: `nleft` becomes `2 / 3 == 0`, so the first factor is never applied | `nleft / n[iii-2]`, that is `n[std::max(iii-2,0)]` | not executed; follows from the proved lemma | KronMatVec.KronMatVec2SkipsFirstFactor | KronMatVec.KronMatVec2Corrected |
| misc/eigen/kronMatVec.h:121 | after the last pass the update reads `n[std::max(-1,1)] == n[1]` | one factor: `n` has one entry | an index inside `n`, such as `n[std::max(iii-2,0)]` | not executed; follows from the proved lemma | KronMatVec.KronMatVec2ReadsPastSizes | KronMatVec.KronMatVec2Corrected |
| misc/eigen/kronMatVec.h:194 | for `iii >= 3`, `nleft` is divided by `n[iii-3]` instead of `n[iii-2]` | factors of sizes 2, 3 and 4: `nleft` becomes `6 / 2 == 3` before pass 2, whose last fiber ends at position 35 of a 24-entry buffer | `nleft / n[iii-2]` | not executed; follows from the proved lemma | KronMatVec.KronMatVecOverrunsBuffer | KronMatVec.KronMatVecCorrected |
| misc/eigen/kronMatVec.h:194 | for `iii >= 3`, `nleft` is divided by `n[iii-3]` instead of `n[iii-2]` | factors of sizes 3, 2 and 4: `nleft` becomes `6 / 3 == 2` before pass 2, which covers 16 of the 24 entries, and `2 / 3 == 0` before pass 1, which is skipped | `nleft / n[iii-2]` | not executed; follows from the proved lemma | KronMatVec.KronMatVecSkipsBlocks | KronMatVec.KronMatVecCorrected |
