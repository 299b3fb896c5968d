# Elemental: codecs, `[VR,STAR]` assignment routing, FillDiagonal and the generic matrix copy

A Dafny model of four small, sequential pieces of Elemental, a library for distributed dense linear algebra:

- **Enumeration codecs** (`types.dfy`, module `Types`). The five enumerations `Diagonal`, `Distribution`, `Orientation`, `Shape` and `Side` have total encoders to a character (or, for `Distribution`, a two-character string) and partial decoders that raise a logic error on anything else. The decoders return `Results.Result`, whose `LogicError(msg)` carries the message the library throws.
- **Assignment into a block-cyclic `[VR,STAR]` matrix** (`vr_star.dfy`, module `VRStar`). `Assign` is the table of typed overloads. Each source distribution pair calls a redistribution primitive (`Translate`, `ColFilter`, `PartialColFilter`, `ColAllToAllDemote`), or detours through temporary matrices and assigns again from the last one, or raises "This routine is not yet written". `Resolve` follows the detours to the end. `FirstMatch`/`AssignAbstract` model the dispatcher for a source whose distribution is known only by its tags. The stride, size and communicator queries are functions of a process `Grid` of `height` x `width` processes. The primitives appear only as tags.
- **FillDiagonal** (`fill_diagonal.dfy`, module `BlasLevel1`). It writes `alpha` on the `offset`-th diagonal in place. For a local `Matrix` (an `array2`), the method is proved to leave `Filled(old contents)`. For the local part of a distributed matrix (`DistMatrix`), it leaves `DistFilled(old local contents)`. `DistMatrix` stands for both `AbstractDistMatrix` and `AbstractBlockDistMatrix`: the two overloads have the same body and use only queries both provide.
- **Generic `omatcopy`** (`mkl.dfy`, module `Mkl`). It copies `op(A)` into a column-major buffer `B` with leading dimensions, and in the second variant also row strides. `op` is the identity, the transpose or the adjoint; conjugation is a function parameter `conj`, and for the library's `Int` instantiation it is the identity. Each loop nest is proved to produce a closed-form result (`Omatcopied`, `OmatcopiedStrided`): slot `k` of `B` is column `k / BLDim` and row `k % BLDim` (strided: row `(k % BLDim) / strideb`, for slots where that division is exact). Lemmas then give the pointwise facts, the frame, the unit-stride coincidence and a transpose-twice round trip. Also modelled here: the generic in-place `imatcopy`, which always fails, and the orientation character that `csrmv` hands on.

The generic `omatcopy` overloads accept `alpha` and never use it. The model does the same: the copy is unscaled whatever `alpha` is.

The assignment table follows the code. The detours for `[MC,MR]`, `[MC,STAR]`, `[STAR,MR]` and `[STAR,VR]` all end at the `[VC,STAR]` case, which raises "not yet written". So those four assignments fail, and `ResolveTable` says so.

`types.hpp` belongs to the older `elemental` namespace, whose `Distribution` has six values. `VR_STAR.cpp` uses El's `Dist`, which adds `CIRC`. The model therefore keeps two datatypes: `Types.Distribution` and `VRStar.Dist`.

## Model

| member | source | states |
|---|---|---|
| `Types.DiagonalToChar` | include/elemental/types.hpp:55-64 | the code is `'N'` or `'U'` |
| `Types.CharToDiagonal` | include/elemental/types.hpp:66-77 | succeeds exactly for `'N'` and `'U'` and then re-encodes to the same char; otherwise raises the `{N,U}` logic error |
| `Types.DiagonalRoundTrip` | include/elemental/types.hpp:55-77 | decoding the code of `d` gives back `d` |
| `Types.DiagonalToCharInjective` | include/elemental/types.hpp:55-64 | distinct diagonals have distinct codes |
| `Types.DistToString` | include/elemental/types.hpp:89-102 | every code is two characters long (`Star` is `"* "`) |
| `Types.StringToDist` | include/elemental/types.hpp:104-125 | succeeds exactly for `"MC"`, `"MD"`, `"MR"`, `"VC"`, `"VR"`, `"* "`, `" *"`, `"*"`; the three star spellings and only they give `Star`; every other success re-encodes to the input |
| `Types.DistRoundTrip` | include/elemental/types.hpp:89-125 | decoding the string of each of the six distributions gives it back |
| `Types.DistToStringInjective` | include/elemental/types.hpp:89-102 | distinct distributions have distinct strings |
| `Types.OrientationToChar` | include/elemental/types.hpp:134-144 | the code is `'N'`, `'T'` or `'C'` |
| `Types.CharToOrientation` | include/elemental/types.hpp:146-159 | succeeds exactly for `N`, `T`, `C` and re-encodes to the same char; otherwise raises the `{N,T,C}` logic error |
| `Types.OrientationRoundTrip` | include/elemental/types.hpp:134-159 | decode after encode is the identity on the three orientations |
| `Types.OrientationToCharInjective` | include/elemental/types.hpp:134-144 | distinct orientations have distinct codes |
| `Types.ShapeToChar` | include/elemental/types.hpp:167-176 | the code is `'L'` or `'U'` |
| `Types.CharToShape` | include/elemental/types.hpp:178-189 | succeeds exactly for `L`, `U` and re-encodes; otherwise raises the `{L,U}` logic error |
| `Types.ShapeRoundTrip` | include/elemental/types.hpp:167-189 | decode after encode is the identity |
| `Types.ShapeToCharInjective` | include/elemental/types.hpp:167-176 | distinct shapes have distinct codes |
| `Types.SideToChar` | include/elemental/types.hpp:197-206 | the code is `'L'` or `'R'` |
| `Types.CharToSide` | include/elemental/types.hpp:208-219 | succeeds exactly for `L`, `R` and re-encodes; otherwise raises the `{L,R}` logic error |
| `Types.SideRoundTrip` | include/elemental/types.hpp:197-219 | decode after encode is the identity |
| `Types.SideToCharInjective` | include/elemental/types.hpp:197-206 | distinct sides have distinct codes |
| `VRStar.Assign` | src/core/DistMatrix/BlockCyclic/VR_STAR.cpp:24-148 | a primitive is called directly exactly for `[VR,STAR]`, `[STAR,STAR]`, `[MR,STAR]`, `[MR,MC]`; "not yet written" exactly for `[VC,STAR]` and `[CIRC,CIRC]`; every detour re-dispatches from `[STAR,STAR]`, `[MR,MC]` or `[VC,STAR]` after at most one extra temporary |
| `VRStar.Resolve` | src/core/DistMatrix/BlockCyclic/VR_STAR.cpp:24-148 | following the re-dispatches starts at the source, visits at most one further overload and never reaches another detour (no cycles), with at most two temporaries |
| `VRStar.ResolveTable` | src/core/DistMatrix/BlockCyclic/VR_STAR.cpp:24-148 | the end of every assignment: Translate iff `[VR,STAR]`; ColFilter iff `[STAR,STAR]`, `[MD,STAR]`, `[STAR,MD]`; PartialColFilter iff `[MR,STAR]`; ColAllToAllDemote iff `[MR,MC]`, `[STAR,MC]`, `[STAR,VC]`; a logic error iff `[VC,STAR]`, `[CIRC,CIRC]`, `[MC,MR]`, `[MC,STAR]`, `[STAR,MR]`, `[STAR,VR]` |
| `VRStar.DetourTargets` | src/core/DistMatrix/BlockCyclic/VR_STAR.cpp:24-132 | `[MD,STAR]`, `[STAR,MD]` detour via `[STAR,STAR]`; `[STAR,MC]`, `[STAR,VC]` via `[MR,MC]`; `[MC,MR]`, `[MC,STAR]`, `[STAR,MR]`, `[STAR,VR]` via `[VC,STAR]`, the last two through a `[MC,MR]` temporary |
| `VRStar.FirstMatch` | src/core/DistMatrix/BlockCyclic/VR_STAR.cpp:150-162 | the guard chain finds a guard iff the tags are among the guards, and the one found equals the tags |
| `VRStar.AssignAbstract` | src/core/DistMatrix/BlockCyclic/VR_STAR.cpp:150-162 | a source known only by its tags is handled by exactly the typed overload for those tags |
| `VRStar.DistComm` | src/core/DistMatrix/BlockCyclic/VR_STAR.cpp:167-169 | the distribution communicator spans the whole grid (`height * width` processes) |
| `VRStar.CrossComm` | src/core/DistMatrix/BlockCyclic/VR_STAR.cpp:170-172 | the cross communicator has one process |
| `VRStar.RedundantComm` | src/core/DistMatrix/BlockCyclic/VR_STAR.cpp:173-175 | the redundant communicator has one process: no entry is replicated |
| `VRStar.ColComm` | src/core/DistMatrix/BlockCyclic/VR_STAR.cpp:176-178 | the column communicator is the distribution communicator, of `height * width` processes |
| `VRStar.RowComm` | src/core/DistMatrix/BlockCyclic/VR_STAR.cpp:179-181 | the row communicator has one process |
| `VRStar.PartialColComm` | src/core/DistMatrix/BlockCyclic/VR_STAR.cpp:182-184 | the partial column communicator has `width` processes (`MRComm`) |
| `VRStar.PartialUnionColComm` | src/core/DistMatrix/BlockCyclic/VR_STAR.cpp:185-187 | the partial-union column communicator has `height` processes (`MCComm`) |
| `VRStar.ColStride` | src/core/DistMatrix/BlockCyclic/VR_STAR.cpp:189-191 | the column stride is the size of the column communicator |
| `VRStar.RowStride` | src/core/DistMatrix/BlockCyclic/VR_STAR.cpp:192-194 | the row stride is the size of the row communicator |
| `VRStar.PartialColStride` | src/core/DistMatrix/BlockCyclic/VR_STAR.cpp:195-197 | the partial column stride is the size of the partial column communicator |
| `VRStar.PartialUnionColStride` | src/core/DistMatrix/BlockCyclic/VR_STAR.cpp:198-200 | the partial-union column stride is the size of the partial-union column communicator |
| `VRStar.DistSize` | src/core/DistMatrix/BlockCyclic/VR_STAR.cpp:201-203 | the distribution size is the size of the distribution communicator |
| `VRStar.CrossSize` | src/core/DistMatrix/BlockCyclic/VR_STAR.cpp:204-206 | the cross size is the size of the cross communicator |
| `VRStar.RedundantSize` | src/core/DistMatrix/BlockCyclic/VR_STAR.cpp:207-209 | the redundant size is the size of the redundant communicator |
| `VRStar.StrideFactorisation` | src/core/DistMatrix/BlockCyclic/VR_STAR.cpp:189-209 | `ColStride == DistSize == VRSize`, `RowStride == CrossSize == RedundantSize == 1`, `PartialColStride == MRSize`, `PartialUnionColStride == MCSize`, and the column stride is their product |
| `BlasLevel1.Filled` | src/blas_like/level1/FillDiagonal.cpp:13-24 | the filled matrix has the shape of the original |
| `BlasLevel1.FilledEntries` | src/blas_like/level1/FillDiagonal.cpp:13-24 | every in-range diagonal entry `(j - offset, j)` is `alpha`, every other entry is unchanged, the shape is kept |
| `BlasLevel1.FilledOutOfRange` | src/blas_like/level1/FillDiagonal.cpp:13-24 | with `offset >= width` or `offset <= -height` nothing changes |
| `BlasLevel1.FilledIdempotent` | src/blas_like/level1/FillDiagonal.cpp:13-24 | filling twice with the same arguments equals filling once |
| `BlasLevel1.Matrix.Set` | src/blas_like/level1/FillDiagonal.cpp:23 | writes entry `(i, j)` and no other |
| `BlasLevel1.FillDiagonal` | src/blas_like/level1/FillDiagonal.cpp:13-24 | the matrix afterwards is `Filled(old matrix, alpha, offset)`; height and width are those of the unchanged buffer |
| `BlasLevel1.DistMatrix.SetLocal` | src/blas_like/level1/FillDiagonal.cpp:40 | writes local entry `(iLoc, jLoc)` and no other |
| `BlasLevel1.FillDiagonalDist` | src/blas_like/level1/FillDiagonal.cpp:26-60 | the local entries afterwards are `DistFilled(old local entries)`: `(iLoc, jLoc)` holds `alpha` iff `i = GlobalCol(jLoc) - offset` is a row, `IsLocalRow(i)` and `iLoc == LocalRow(i)`, all others are unchanged; the same rule for the element- and the block-distributed overload |
| `BlasLevel1.DistFilledIdempotent` | src/blas_like/level1/FillDiagonal.cpp:26-60 | the distributed fill is idempotent on every process |
| `BlasLevel1.DistFilledOutOfRange` | src/blas_like/level1/FillDiagonal.cpp:26-42 | a diagonal outside the global matrix changes no local entry |
| `BlasLevel1.DistFilledOnOneProcess` | src/blas_like/level1/FillDiagonal.cpp:13-42 | with the identity index mapping (one process owning everything) the distributed fill is the local fill |
| `BlasLevel1.DistWritesAreDiagonal` | src/blas_like/level1/FillDiagonal.cpp:34-40 | a written local entry is the local image of a global diagonal entry; with `LocalRow` injective, two local columns that write the same local row stand for the same global column |
| `Mkl.WindowSlots` | src/core/imports/mkl.cpp:299-316 | the slots the closed form changes are exactly the slots `i + j * ld` the loops write |
| `Mkl.StridedWindowSlots` | src/core/imports/mkl.cpp:430-447 | the same for the strided slots `i * stride + j * ld` |
| `Mkl.ReadsInBoundsEverywhere` | src/core/imports/mkl.cpp:299-316 | the bounds condition on `A` holds exactly when every slot `i * stride + j * ld` the loops read lies in the buffer, for leading dimensions and strides of any sign |
| `Mkl.Omatcopied` | src/core/imports/mkl.cpp:292-317 | the buffer after the copy has the length of `B` |
| `Mkl.OmatcopiedAt` | src/core/imports/mkl.cpp:299-316 | NORMAL: `B[i + j*BLDim] == A[i + j*ALDim]`; TRANSPOSE: `B[j + i*BLDim] == A[i + j*ALDim]`; ADJOINT: `B[j + i*BLDim] == Conj(A[i + j*ALDim])`, for all `0 <= i < m`, `0 <= j < n`, all slots in range |
| `Mkl.OmatcopiedElsewhere` | src/core/imports/mkl.cpp:292-317 | every slot of `B` outside the addressed window keeps its value |
| `Mkl.Omatcopy` | src/core/imports/mkl.cpp:292-317 | `B` afterwards is `Omatcopied(old B)`; `A` is not written |
| `Mkl.CopyNormal` | src/core/imports/mkl.cpp:299-304 | the NORMAL loop nest produces `Omatcopied` |
| `Mkl.CopyNormalColumn` | src/core/imports/mkl.cpp:301-303 | one pass of the inner loop adds column `j` to the part of `B` that equals `Omatcopied`; every slot outside the window keeps its value |
| `Mkl.CopyTransposed` | src/core/imports/mkl.cpp:305-316 | the TRANSPOSE and ADJOINT loop nests produce `Omatcopied` |
| `Mkl.CopyTransposedRow` | src/core/imports/mkl.cpp:307-315 | one pass of the inner loop turns row `i` of `A` into column `i` of `B`, as `Omatcopied` says; nothing outside the window changes |
| `Mkl.TransposeTwice` | src/core/imports/mkl.cpp:305-316 | transposing, or conjugate-transposing with an involutive `Conj`, twice gives back every entry of the source window |
| `Mkl.OmatcopiedStrided` | src/core/imports/mkl.cpp:423-448 | the buffer after the strided copy has the length of `B` |
| `Mkl.OmatcopiedStridedAt` | src/core/imports/mkl.cpp:430-447 | `B[i*strideb + j*BLDim] == A[i*stridea + j*ALDim]`, or the transposed / conjugated form, for every entry of the window |
| `Mkl.OmatcopiedStridedElsewhere` | src/core/imports/mkl.cpp:423-448 | every slot of `B` outside the strided window keeps its value |
| `Mkl.UnitStridesCoincide` | src/core/imports/mkl.cpp:430-447 | with `stridea = strideb = 1` the strided copy equals the unstrided one |
| `Mkl.OmatcopyStrided` | src/core/imports/mkl.cpp:423-448 | `B` afterwards is `OmatcopiedStrided(old B)`; `A` is not written |
| `Mkl.CopyNormalStrided` | src/core/imports/mkl.cpp:430-435 | the strided NORMAL loop nest produces `OmatcopiedStrided` |
| `Mkl.CopyNormalStridedColumn` | src/core/imports/mkl.cpp:432-434 | one pass of the strided inner loop adds column `j` to the part of `B` that equals `OmatcopiedStrided` |
| `Mkl.CopyTransposedStrided` | src/core/imports/mkl.cpp:436-447 | the strided TRANSPOSE and ADJOINT loop nests produce `OmatcopiedStrided` |
| `Mkl.CopyTransposedStridedRow` | src/core/imports/mkl.cpp:438-446 | one pass of the strided inner loop turns row `i` of `A` into column `i` of `B`, as `OmatcopiedStrided` says |
| `Mkl.Imatcopy` | src/core/imports/mkl.cpp:543-549 | the generic in-place copy always raises "This routine not yet written" |
| `Mkl.CsrmvTransA` | src/core/imports/mkl.cpp:168-238 | for a real matrix the character decodes to the orientation with the adjoint replaced by the transpose, and is never `'C'`; for a complex matrix it decodes to the orientation unchanged |

## Left out

- Omatcopy: requires `A != B`; with `A == B` the reads would see earlier writes. Requires that `B` follow the BLAS layout: `BLDim >= max(1, rows)`, with the window inside the buffer. The code checks none of this. The closed form `Omatcopied` decodes slot `k` of `B` as one window entry, so it describes only calls where no two entries share a slot. A call with a smaller `BLDim`, where later writes overwrite earlier ones, is not modelled. `A` is only read, so it needs only every slot the loops read to be in bounds (`ReadsInBounds`), with `ALDim` of any sign.
- OmatcopyStrided: the same, with `strideb >= 1` and `(rows - 1) * strideb < BLDim` for `B`, because the closed form decodes the row as `(k % BLDim) / strideb`. `A` again needs only in-bounds reads, with `stridea` and `ALDim` of any sign.
- Omatcopy, OmatcopyStrided: `BlasInt` is a 32-bit integer. The index expressions `i + j*BLDim` and `i*stride + j*BLDim` are modelled as unbounded integers, so overflow is not modelled.
- CopyTransposed, CopyTransposedStrided: the TRANSPOSE and ADJOINT loop nests are written as one loop nest that chooses per entry between the value and `conj` of it. The order of the writes is the same.
- `Conj` is a parameter of the copy. For complex element types it is complex conjugation, which is not modelled; `TransposeTwice` assumes only that it is an involution.
- CsrmvTransA: the orientation and its character are those of `Types` (the `elemental` namespace's `Orientation`, `OrientationToChar` and `CharToOrientation`). `mkl.cpp` uses El's `Orientation` (`NORMAL`, `TRANSPOSE`, `ADJOINT`) and El's `OrientationToChar`, whose definitions are not part of this model. The model takes them to agree with the `elemental` ones: `'N'`, `'T'`, `'C'`.
- The float, double and complex `omatcopy`/`imatcopy` overloads, `mkl_?csrmv`, `Trrk` and `?gemmt` call the vendor library. Only the orientation character handed to `csrmv` is modelled.
- The data movement of `Translate`, `ColFilter`, `PartialColFilter`, `ColAllToAllDemote` and the construction of the temporaries are collectives defined in other files. They appear only as tags.
- The `operator=` bodies overwrite `*this` and free temporaries (`reset()`). This in-place effect is not modelled; only the choice of routine is.
- `El/macros/GuardAndPayload.h` is not part of this model. The dispatcher is modelled as a first-match chain over the fourteen block-cyclic distribution pairs; tags that match no guard give `None`.
- The communicators are modelled only by their sizes on a `height` x `width` grid.
- FillDiagonalDist: the bodies of `GlobalCol`, `IsLocalRow` and `LocalRow` belong to the distribution classes and are not part of this model. They are parameters of `DistMatrix`, and the fill relies only on the properties in `DistMatrix.Valid()`: local columns map to global columns of the matrix, and a local row lies within the local height.
- FillDiagonal, FillDiagonalDist: `alpha` has the element type. The conversion from the scalar type `S` to the element type `T` is not modelled.
- The instantiation macros, the debug call-stack entries, and the context files (the bidiagonalisation kernel, the triangular multiply, the declaration-only headers, the log-barrier wrapper and the display window) are outside this model.
