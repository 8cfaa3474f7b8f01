# Verified models of the ExecuTorch runtime port

Dafny models of the parts of the runtime where arithmetic, shared state or scheduling is subtle,
with proofs of what they promise. `dafny verify dfyconfig.toml` checks everything.

- **Tensors** (`TensorLayout`, `LayoutRecovery`, `DenseAddressing`, `TensorAccessor`,
  `TensorClone`). `make_tensor_ptr` may be given strides without a dim order; it then sorts the
  dimensions by stride, recomputes the strides in 32-bit arithmetic, compares, and stores its own.
  The proofs show that this recovers every dense layout for every outcome of the unstable sort,
  state exactly which strides are recovered and when addressing through accepted strides is
  one-to-one, and show that replacing the strides moves no element. Over dense strides indexing is
  a bijection onto the buffer, chained accessors follow it, and clones agree with their source at every index.
- **Kernels with data parallelism** (`ChunkedParallel`, `Istft`, `IstftReconstruction`,
  `LayerNorm`, `LayerNormLaws`). Workers are a state machine over contiguous chunks, stepping in
  any interleaving. The imperative kernels are proved against closed forms; from those follow
  perfect reconstruction of an analysed signal and the moments of normalised rows, under every
  schedule. Floats are modelled as reals, with a separate value for infinities and NaNs where a
  quotient may not exist, the inverse FFT as any function that returns `n_fft` samples or fails,
  the square root by its contract.
- **Data loaders** (`DataLoader`, `FileDataLoader`, `MmapDataLoader`). All loaders yield the requested
  slice or an error. The file loader does so under every sequence of short reads, interruptions and
  errors; the mmap loader maps and unmaps the same pages over whole runs.
- **Module state** (`ModulePlanning`, `BackendOptions`, `BackendOptionsMap`, `KernelRegistry`, over
  `OrderedTable`). Shared arenas for every load order, bounded tables in fixed arrays as
  insertion-ordered maps, transactional installation of options, the optimised-over-portable merge.
- **Small exact arithmetic** (`RandomEngine`, `MallocMemoryAllocator`, `EtView`, over `Bits`).
  The minstd generator with rejection sampling, over-allocation for alignment, view sizes, with
  resizing in place (`TensorImpl`, `ElementCount`).

`Arith`, `Folds`, `Bits`, `FlatRows`, `MachineInts` and `Wrappers` hold shared definitions and
arithmetic lemmas.

Conventions. The operating system is an oracle: what `pread`, `mmap`, `mlock` or `malloc` answers
is a parameter, constrained only by what the system promises. Fatal checks return `Abort` or
`Aborted`. Machine integers are written out with their wrap-around where the code can reach it, as
in a release build. Objects whose methods update their fields are classes; everything else is a
value.

Where code and comments disagree the models follow the code:

- `set_option_str` is documented to store only the pointer; it copies at most 255 characters.
- `set_options` is documented to fail for null, empty or surplus ids; it also refuses new ids of 64
  characters or more.
- `allocate` is documented to round the size up to the alignment; it adds the alignment less one,
  and only for alignments above that of malloc.
- `TensorAccessor::index` is documented to carry the decremented rank; every step after the first
  stores the same number again.

## Model

| member | source | states |
|---|---|---|
| `TensorLayout.ValidateDimOrder` | crates/executorch/src/runtime/core/exec_aten/util/dim_order_util.rs:32-51 | the 16-bit mask scan returns true exactly for permutations of at most 16 dimensions |
| `TensorLayout.DimOrderToStrideNocheck` | crates/executorch/src/runtime/core/exec_aten/util/dim_order_util.rs:113-146 | the in-place loop stores, for every dimension, the wrapped product of the sizes listed inside it, an empty dimension counting once |
| `TensorLayout.DimOrderToStride` | crates/executorch/src/runtime/core/exec_aten/util/dim_order_util.rs:154-173 | fails exactly on an invalid order, and then writes nothing |
| `TensorLayout.StrideStep` | crates/executorch/src/runtime/core/exec_aten/util/dim_order_util.rs:131-145 | one step outwards in wrapping i32 arithmetic yields the wrapped exact product, so wrapping once at the end and at every step agree |
| `TensorLayout.StridesRecurrence` | crates/executorch/src/runtime/core/exec_aten/util/dim_order_util.rs:131-145 | the strides without products: 1 innermost, and outwards the next stride times the next size unless that is 0 |
| `TensorLayout.ComputeNumel` | crates/executorch/src/runtime/core/portable_type/tensor_impl.rs:62-79 | aborts exactly on a negative size; otherwise the wrapped product of the sizes |
| `TensorLayout.MakeTensorPtr` | crates/executorch/src/extension/tensor/tensor_ptr.rs:256-347 | for any result of the unstable sort: when construction goes through, and the whole tensor it builds, which always stores the computed strides |
| `LayoutRecovery.SortIsPermutation` | crates/executorch/src/extension/tensor/tensor_ptr.rs:279-294 | whatever an unstable sort returns is a valid dim order |
| `LayoutRecovery.InsideIsSmaller` | crates/executorch/src/extension/tensor/tensor_ptr.rs:284-292 | in a dense layout the dimensions of size 2 or more inside a given one are exactly those of smaller stride |
| `LayoutRecovery.RecoveredSuffix` | crates/executorch/src/extension/tensor/tensor_ptr.rs:284-305 | an order sorted by stride computes for every dimension that matters the stride it was sorted by, whatever the ties |
| `LayoutRecovery.LayoutRecovery` | crates/executorch/src/extension/tensor/tensor_ptr.rs:279-320 | layout recovery: strides that describe any order p are accepted under every sort result, and the stored strides equal them on every dimension of size other than 1; also for empty dimensions absent a bad tie |
| `LayoutRecovery.AcceptedExactlyDense` | crates/executorch/src/extension/tensor/tensor_ptr.rs:279-318 | for a given sort result: strides are accepted with exact strides stored if and only if they describe some order and the sort put no empty dimension before a larger one of the same stride; no bound on the element count |
| `LayoutRecovery.RecoveredWhateverTheSort` | crates/executorch/src/extension/tensor/tensor_ptr.rs:279-318 | order-free: every sort result recovers the strides if and only if they describe some order and no empty dimension has the stride of a larger one |
| `LayoutRecovery.AcceptedWhateverTheSort` | crates/executorch/src/extension/tensor/tensor_ptr.rs:279-318 | the same for acceptance alone, given a bound on sizes and strides under which nothing can wrap around whatever the sort does; each condition is checkable before the call |
| `LayoutRecovery.EmptyDimensionMayBeRejected` | crates/executorch/src/extension/tensor/tensor_ptr.rs:288-318 | the concrete exception: sizes [5, 0] with strides [1, 1] and a tie returned as [1, 0] |
| `LayoutRecovery.StrideIsExact` | crates/executorch/src/runtime/core/exec_aten/util/dim_order_util.rs:131-145 | a stored stride is exact if and only if the exact one fits 32 bits |
| `LayoutRecovery.StoredStridesAreExact` | crates/executorch/src/runtime/core/exec_aten/util/dim_order_util.rs:131-145 | all stored strides are exact if and only if the outermost one fits 32 bits |
| `LayoutRecovery.MakeFromStrides` | crates/executorch/src/extension/tensor/tensor_ptr.rs:256-347 | construction from strides alone never aborts on strides that describe an order; the tensor keeps them on every dimension of size other than 1 and lists its dimensions by descending stride |
| `LayoutRecovery.MakeFromOrder` | crates/executorch/src/extension/tensor/tensor_ptr.rs:256-347 | construction from a dim order keeps that order, also without strides, where it succeeds exactly for permutations of at most 16 dimensions |
| `LayoutRecovery.MakeFromSizes` | crates/executorch/src/extension/tensor/tensor_ptr.rs:256-347 | construction from sizes alone succeeds exactly for at most 16 non-negative sizes, in the order 0, 1, 2, ... |
| `DenseAddressing.OffsetAlongOrder` | crates/executorch/src/extension/tensor/tensor_ptr.rs:297-320 | summing index times stride by dimension or along the dim order gives the same offset |
| `DenseAddressing.OffsetInRange` | crates/executorch/src/extension/tensor/tensor_ptr.rs:297-320 | every valid index stays inside the element count |
| `DenseAddressing.OffsetInjective` | crates/executorch/src/extension/tensor/tensor_ptr.rs:297-320 | two valid indices with one offset are equal |
| `DenseAddressing.DenseBijection` | crates/executorch/src/extension/tensor/tensor_ptr.rs:297-320 | the index box maps one-to-one onto 0 .. numel - 1 for every order |
| `DenseAddressing.AcceptedIsDense` | crates/executorch/src/extension/tensor/tensor_ptr.rs:297-320 | what make_tensor_ptr accepts has exact strides, stored and given, if and only if they fit 32 bits on the dimensions of size other than 1 |
| `DenseAddressing.StoredAddressingIsOneToOne` | crates/executorch/src/extension/tensor/tensor_ptr.rs:297-320 | the exact condition: stored strides send the index box one-to-one into the buffer if and only if the exact strides fit 32 bits on the dimensions of size other than 1 |
| `DenseAddressing.AcceptedAddressingIsOneToOne` | crates/executorch/src/extension/tensor/tensor_ptr.rs:297-320 | the same for the strides that a user gave and make_tensor_ptr accepted |
| `DenseAddressing.WrappedStridesAreAccepted` | crates/executorch/src/extension/tensor/tensor_ptr.rs:297-318 | wrapped strides are accepted because the stored ones wrap around in the same way |
| `DenseAddressing.WrappedStridesAlias` | crates/executorch/src/extension/tensor/tensor_ptr.rs:297-320 | a stored outer stride that wrapped around to the inner one gives two elements one address |
| `DenseAddressing.NotDescribedExample` | crates/executorch/src/extension/tensor/tensor_ptr.rs:284-318 | why a bound is needed for acceptance alone: sizes [2, 4, 1500000000] have strides that every sort result accepts although they describe no order |
| `DenseAddressing.WrappedExample` | crates/executorch/src/extension/tensor/tensor_ptr.rs:284-320 | the concrete input where one-to-one addressing fails: sizes [2, 65537, 65536] with strides [65536, 65536, 1] |
| `DenseAddressing.AcceptedStridesKeepMeaning` | crates/executorch/src/extension/tensor/tensor_ptr.rs:307-320 | user strides and stored strides give the same offset at every valid index |
| `TensorAccessor.MakeTensorAccessor` | crates/executorch/src/extension/tensor/tensor_accessor.rs:182-228 | which error is returned when, and what the accessor points at |
| `TensorAccessor.ChainAddsOffset` | crates/executorch/src/extension/tensor/tensor_accessor.rs:109-140 | chained index and a final scalar address data plus the strided offset |
| `TensorAccessor.ChainedIndexing` | crates/executorch/src/extension/tensor/tensor_accessor.rs:109-140 | for an accepted dense tensor that address is the tensor offset and the row-major rank of the tuple |
| `TensorAccessor.DimIsRemainingRank` | crates/executorch/src/extension/tensor/tensor_accessor.rs:114-120 | the stored dim is the remaining rank exactly for chains of at most one index step |
| `ElementCount.SafeNumel` | crates/executorch/src/runtime/core/portable_type/tensor_impl.rs:83-109 | Ok exactly when sizes are non-negative and no partial product overflows |
| `ElementCount.EmptyDimension` | crates/executorch/src/runtime/core/portable_type/tensor_impl.rs:62-79 | one empty dimension makes the element count and the cached count 0, whatever wraps around |
| `ElementCount.CachedCountIsExact` | crates/executorch/src/runtime/core/portable_type/tensor_impl.rs:62-79 | the cached count is the element count if and only if that is below 2^63 |
| `TensorClone.FitsMemoryMeans` | crates/executorch/src/extension/tensor/tensor_ptr.rs:764-807 | memory is enough exactly when no partial element count reaches 2^63 and the byte count stays below 2^64 |
| `TensorClone.MakeTensorPtrFromBytes` | crates/executorch/src/extension/tensor/tensor_ptr.rs:764-807 | when an owned buffer is accepted, counted in bytes, and that the tensor holds it unchanged |
| `TensorClone.CastElements` | crates/executorch/src/extension/tensor/tensor_ptr.rs:868-892 | every element of the new buffer is the conversion of the element at the same place |
| `TensorClone.CloneTensorPtr` | crates/executorch/src/extension/tensor/tensor_ptr.rs:811-894 | every error path, for any tensor with a well-sized buffer; otherwise the whole clone: computed strides, equal bytes or converted elements |
| `TensorClone.CloneKeepsOffsets` | crates/executorch/src/extension/tensor/tensor_ptr.rs:811-894 | source and clone address every index alike although their strides may differ |
| `TensorClone.CloneAgreesAtEveryIndex` | crates/executorch/src/extension/tensor/tensor_ptr.rs:811-894 | clone[idx] == cast(src[idx]) at every index whose offset lies in the buffer, with no bound on the element count; in a dense layout that is every index |
| `TensorClone.CloneDense` | crates/executorch/src/extension/tensor/tensor_ptr.rs:811-894 | cloning a fully backed dense CPU tensor cannot fail, and at every index the bytes of the clone are the converted bytes of the source |
| `ChunkedParallel.PlanIsPartition` | crates/executorch/src/custom_ops/parallel.rs:22-45 | every plan covers 0 .. range - 1 exactly once; over the pool with at most one chunk per worker, each within an even share rounded up; otherwise in one piece |
| `ChunkedParallel.TilesPartition` | crates/executorch/src/backends/xnnpack/runtime/sys.rs:846-866 | ceil(range / workers) tiles are a partition |
| `ChunkedParallel.StepKeepsInv` | crates/executorch/src/custom_ops/parallel.rs:15-22 | no step of any worker disturbs a completed row or the meaning of the flag |
| `ChunkedParallel.FinishedOutcome` | crates/executorch/src/custom_ops/op_istft.rs:164-197 | in every finished run the flag is the conjunction over all items, and if set the buffer holds every row |
| `ChunkedParallel.ScheduleIndependence` | crates/executorch/src/custom_ops/parallel.rs:15-22 | any two partitions, initial buffers and finished schedules end with the same flag and, if set, the same buffer |
| `ChunkedParallel.StepMakesProgress` | crates/executorch/src/backends/xnnpack/runtime/sys.rs:840-866 | a step of an unfinished worker always reduces the remaining work |
| `ChunkedParallel.SomeRunFinishes` | crates/executorch/src/backends/xnnpack/runtime/sys.rs:840-866 | every partition has a finished run from every buffer |
| `Istft.FillSpectrum` | crates/executorch/src/custom_ops/op_istft.rs:266-278 | one column of the flat, row-major spectrum: the real parts as they are, the imaginary parts 0 in the self-conjugate bins |
| `Istft.WriteFrame` | crates/executorch/src/custom_ops/op_istft.rs:289-294 | replaces exactly one row of the flat buffer by the scaled, windowed frame |
| `Istft.IstftFrames` | crates/executorch/src/custom_ops/op_istft.rs:246-298 | true exactly when every frame of the range is accepted; then its rows are complete; other rows are untouched |
| `Istft.SuccessMeansAccepted` | crates/executorch/src/custom_ops/op_istft.rs:279-287 | the flag is set exactly when the inverse FFT accepts every column |
| `Istft.Stage1` | crates/executorch/src/custom_ops/op_istft.rs:146-197 | over any partition: the flag is the conjunction over all frames, and if set all rows are complete |
| `Istft.AddFrame` | crates/executorch/src/custom_ops/op_istft.rs:202-212 | adds one frame and its squared window at its own place only |
| `Istft.OverlapAdd` | crates/executorch/src/custom_ops/op_istft.rs:202-212 | both accumulators equal their closed sums over covering frames |
| `Istft.Normalise` | crates/executorch/src/custom_ops/op_istft.rs:215-219 | divides exactly the samples with a window sum above the threshold |
| `Istft.Trim` | crates/executorch/src/custom_ops/op_istft.rs:224-231 | clears exactly the first and the last n_fft / 2 samples, also when that is more than the audio |
| `Istft.Stage2` | crates/executorch/src/custom_ops/op_istft.rs:199-231 | every output sample: overlap sum, divided where the window sum exceeds 1e-8, zero in the padding, for any hop |
| `Istft.NegativeHop` | crates/executorch/src/custom_ops/op_istft.rs:115-212 | with a negative hop the later frames wrap out of range and every sample comes from frame 0 |
| `Istft.ThresholdCountsValues` | crates/executorch/src/custom_ops/op_istft.rs:50-57 | the frame threshold is met exactly when the spectrum holds at least 32k values |
| `Istft.IstftBatch` | crates/executorch/src/custom_ops/op_istft.rs:137-232 | one batch from spectrum to audio; it fails exactly when the inverse FFT rejects a column |
| `Istft.IstftOut` | crates/executorch/src/custom_ops/op_istft.rs:64-235 | all checks and all batches: InvalidArgument exactly on bad input, Ok only with every batch reconstructed, Internal only if some frame is rejected |
| `IstftReconstruction.SumFactorsOut` | crates/executorch/src/custom_ops/op_istft.rs:202-212 | over frames of a twice-windowed signal the overlap sum is the sample times the squared-window sum |
| `IstftReconstruction.FramesFit` | crates/executorch/src/custom_ops/op_istft.rs:101-212 | the length guard of the overlap-add never cuts a frame short |
| `IstftReconstruction.KeptSampleIsCovered` | crates/executorch/src/custom_ops/op_istft.rs:101-231 | for hop below n_fft every kept sample lies under a frame at an index other than 0 |
| `IstftReconstruction.KeptSampleIsNearACentre` | crates/executorch/src/custom_ops/op_istft.rs:101-231 | for hop up to half a frame it lies in the hop after some frame centre |
| `IstftReconstruction.TwoCoversContribute` | crates/executorch/src/custom_ops/op_istft.rs:202-212 | adjacent frames both add their squared window |
| `IstftReconstruction.KeptSampleIsNormalised` | crates/executorch/src/custom_ops/op_istft.rs:214-219 | every kept sample has a window sum above 1e-8 under any of three conditions on the window |
| `IstftReconstruction.PerfectReconstruction` | crates/executorch/src/custom_ops/op_istft.rs:199-231 | from the spectra of x the output is 0 in the first and last n_fft / 2 samples; a kept sample is x where its window sum exceeds 1e-8 and x times that sum elsewhere, so it equals x only if x is 0 there |
| `IstftReconstruction.EveryKeptSampleIsReconstructed` | crates/executorch/src/custom_ops/op_istft.rs:101-231 | a signal comes back at every kept sample if, and when it is nowhere silent only if, window, hop and frame count cover them all |
| `IstftReconstruction.OpenWindowsCover` | crates/executorch/src/custom_ops/op_istft.rs:101-231 | they do for windows open from index 1, in the hop after the centre, or in pairs under overlapping frames, for every frame count |
| `IstftReconstruction.ReconstructionIsScheduleIndependent` | crates/executorch/src/custom_ops/op_istft.rs:157-204 | stage 2 sees the same frames under every partition and schedule |
| `IstftReconstruction.PlannedRunFinishes` | crates/executorch/src/custom_ops/op_istft.rs:164-192 | the dispatcher's own plan has a finished run |
| `IstftReconstruction.SpectrumIsColumn` | crates/executorch/src/custom_ops/op_istft.rs:144-278 | bin f of frame t of batch k is read at (k * bins + f) * frames + t |
| `IstftReconstruction.ReconstructSignals` | crates/executorch/src/custom_ops/op_istft.rs:64-235 | the whole operator on tensors whose columns analyse signals: Ok, and every batch of the flat output is its signal with the padding cleared |
| `LayerNorm.RowStatistics` | crates/executorch/src/custom_ops/op_layer_norm.rs:129-142 | the accumulator loops compute mean and reciprocal deviation |
| `LayerNorm.NormSizeIsProduct` | crates/executorch/src/custom_ops/op_layer_norm.rs:48-52 | the wrapping loop over the extents yields their product, wrapped once |
| `LayerNorm.ScaleShift` | crates/executorch/src/custom_ops/op_layer_norm.rs:144-166 | all four gamma/beta branches equal one formula with defaults 1 and 0, also for infinities and NaNs |
| `LayerNorm.LayerNormRows` | crates/executorch/src/custom_ops/op_layer_norm.rs:116-168 | a chunk normalises exactly its own rows |
| `LayerNorm.LayerNormOut` | crates/executorch/src/custom_ops/op_layer_norm.rs:32-109 | status for every input; the row width is the wrapped product of the extents; on Ok every whole row is normalised and the remainder past the last whole row is untouched |
| `LayerNormLaws.RealResults` | crates/executorch/src/custom_ops/op_layer_norm.rs:136-166 | a row has real results if and only if its variance plus eps is positive |
| `LayerNormLaws.TotalFromFront` | crates/executorch/src/custom_ops/op_layer_norm.rs:129-139 | the accumulator is the sum, taken from either end |
| `LayerNormLaws.RowSumIsZero` | crates/executorch/src/custom_ops/op_layer_norm.rs:129-165 | a normalised row sums to 0 |
| `LayerNormLaws.RowMeanSquare` | crates/executorch/src/custom_ops/op_layer_norm.rs:136-165 | its mean square is var / (var + eps) |
| `LayerNormLaws.AffineOfPlain` | crates/executorch/src/custom_ops/op_layer_norm.rs:144-166 | element j is gamma[j] times the plain value plus beta[j], with 1 and 0 when absent |
| `LayerNormLaws.ShiftInvariance` | crates/executorch/src/custom_ops/op_layer_norm.rs:129-166 | adding a constant to a row does not change its result |
| `LayerNormLaws.NormalisationIsScheduleIndependent` | crates/executorch/src/custom_ops/op_layer_norm.rs:81-106 | every finished run over any partition normalises every row |
| `LayerNormLaws.NormaliseElements` | crates/executorch/src/custom_ops/op_layer_norm.rs:32-109 | the whole operator on whole rows: Ok, and every element of the flat output has its value from the w input elements of its row |
| `DataLoader.BufferDataLoader.Load` | crates/executorch/src/extension/data_loader/buffer_data_loader.rs:31-62 | a view of the slice, or InvalidArgument when the range overflows or does not exist |
| `DataLoader.BufferDataLoader.LoadInto` | crates/executorch/src/extension/data_loader/buffer_data_loader.rs:68-93 | copies exactly the slice and writes nothing beyond it |
| `FileDataLoader.IsPowerOfTwo` | crates/executorch/src/extension/data_loader/file_data_loader.rs:101-103 | the bit trick holds exactly for powers of two |
| `Bits.LowestBitTest` | crates/executorch/src/extension/data_loader/file_data_loader.rs:101-103 | v & !(v - 1) == v exactly for powers of two, in any word width |
| `FileDataLoader.FileDataLoader.LoadInto` | crates/executorch/src/extension/data_loader/file_data_loader.rs:336-438 | every range within the file is read and every other one refused; under every sequence of short reads, interruptions, EOFs and errors the buffer holds a prefix of the range; Ok exactly when it is complete; terminates |
| `FileDataLoader.Open` | crates/executorch/src/extension/data_loader/file_data_loader.rs:123-191 | every error of opening, in order; only power-of-two alignments pass |
| `FileDataLoader.FileDataLoader.Load` | crates/executorch/src/extension/data_loader/file_data_loader.rs:250-320 | every range within the file, up to its last byte, is loaded when memory and reads allow; every other one is refused; a block survives exactly on success with a non-empty range, aligned and holding that range; every failing path releases it |
| `FileDataLoader.FreeSegment` | crates/executorch/src/extension/data_loader/file_data_loader.rs:90-96 | the callback frees with the size and alignment of the allocation |
| `Bits.MaskIsRoundDown` | crates/executorch/src/extension/data_loader/mmap_data_loader.rs:78-82 | masking with the page mask rounds down to a page |
| `Bits.MaskIsRoundUp` | crates/executorch/src/extension/data_loader/mmap_data_loader.rs:83-84 | wrapping addition and mask round up to a page |
| `MmapDataLoader.GetOverlappingPages` | crates/executorch/src/extension/data_loader/mmap_data_loader.rs:78-89 | the smallest whole-page range that covers the region |
| `MmapDataLoader.BufferPagesAreTouched` | crates/executorch/src/extension/data_loader/mmap_data_loader.rs:78-89 | the pages of a buffer are exactly those that hold one of its bytes |
| `MmapDataLoader.PagesFromAreTouched` | crates/executorch/src/extension/data_loader/mmap_data_loader.rs:78-89 | likewise for a region that starts on a page |
| `MmapDataLoader.MappedIsUnmapped` | crates/executorch/src/extension/data_loader/mmap_data_loader.rs:281-339 | the pages recomputed from address and size are exactly the mapped ones, even when the length was clamped at end of file |
| `MmapDataLoader.MmapDataLoader.MapRange` | crates/executorch/src/extension/data_loader/mmap_data_loader.rs:329-355 | maps fresh pages that show the requested range |
| `MmapDataLoader.MmapDataLoader.Load` | crates/executorch/src/extension/data_loader/mmap_data_loader.rs:307-412 | every error path; page conservation; and the exact case in which a failing lock leaks pages |
| `MmapDataLoader.MmapDataLoader.Free` | crates/executorch/src/extension/data_loader/mmap_data_loader.rs:281-302 | unmaps exactly the buffer's pages; the mapped pages stay the disjoint union of the live buffers |
| `MmapDataLoader.MmapDataLoader.LiveBufferShowsSlice` | crates/executorch/src/extension/data_loader/mmap_data_loader.rs:399-411 | at any later time a live buffer reads as the slice of the file it was loaded for |
| `MmapDataLoader.MmapDataLoader.LoadThenFree` | crates/executorch/src/extension/data_loader/mmap_data_loader.rs:281-412 | freeing what was loaded restores the address space |
| `MmapDataLoader.MmapDataLoader.LoadInto` | crates/executorch/src/extension/data_loader/mmap_data_loader.rs:428-496 | copies exactly the slice and leaves the mappings as they were |
| `MmapDataLoader.PartialUnmapLeaks` | crates/executorch/src/extension/data_loader/mmap_data_loader.rs:384-387 | unmapping part of a fresh mapping leaks unless it covers all its pages |
| `MmapDataLoader.FailingLockLeaks` | crates/executorch/src/extension/data_loader/mmap_data_loader.rs:357-389 | a failing lock leaks whenever the range lies on more pages than its size needs |
| `MmapDataLoader.LeakExample` | crates/executorch/src/extension/data_loader/mmap_data_loader.rs:357-389 | the concrete run: pages of 4096 bytes and two bytes at offset 4095 |
| `Bits.ClearLowestBitTest` | crates/executorch/src/runtime/core/memory_allocator.rs:228-230 | v & (v - 1) == 0 exactly for powers of two |
| `MallocMemoryAllocator.IsPowerOfTwo` | crates/executorch/src/runtime/core/memory_allocator.rs:228-230 | the allocator's alignment test |
| `MallocMemoryAllocator.AlignPointer` | crates/executorch/src/runtime/core/memory_allocator.rs:235-240 | the next multiple of the alignment |
| `MallocMemoryAllocator.RequestedSize` | crates/executorch/src/extension/memory_allocator/malloc_memory_allocator.rs:26-46 | when the over-allocation is refused and what is requested otherwise |
| `MallocMemoryAllocator.AlignedInBlock` | crates/executorch/src/extension/memory_allocator/malloc_memory_allocator.rs:26-46 | the aligned region lies inside the over-allocated block |
| `MallocMemoryAllocator.MallocMemoryAllocator.Allocate` | crates/executorch/src/extension/memory_allocator/malloc_memory_allocator.rs:83-103 | null exactly on bad alignment, overflow or exhaustion; otherwise aligned, in its own block, earlier regions kept |
| `MallocMemoryAllocator.MallocMemoryAllocator.RegionsAreApart` | crates/executorch/src/extension/memory_allocator/malloc_memory_allocator.rs:83-103 | live regions never overlap |
| `MallocMemoryAllocator.MallocMemoryAllocator.Reset` | crates/executorch/src/extension/memory_allocator/malloc_memory_allocator.rs:106-111 | frees each own block once and no other |
| `RandomEngine.StepIsBijection` | crates/executorch/src/extension/tensor/tensor_ptr_maker.rs:166-169 | the step is a bijection on 1 .. 2^31 - 2 with inverse multiplier 1407677000 |
| `RandomEngine.Minstd0.constructor` | crates/executorch/src/extension/tensor/tensor_ptr_maker.rs:159-165 | every seed starts in the cycle |
| `RandomEngine.Minstd0.NextU32` | crates/executorch/src/extension/tensor/tensor_ptr_maker.rs:166-171 | the new state is 16807 times the old modulo 2^31 - 1; it stays in the cycle, the product fits, and subtracting MIN never underflows |
| `RandomEngine.HalfCycleNegates` | crates/executorch/src/extension/tensor/tensor_ptr_maker.rs:166-169 | 2^30 - 1 steps take s to 2^31 - 1 - s |
| `RandomEngine.AcceptanceIsPossible` | crates/executorch/src/extension/tensor/tensor_ptr_maker.rs:241-250 | some output is accepted if and only if the range is at most 2^31 - 2 |
| `RandomEngine.AcceptanceIsNear` | crates/executorch/src/extension/tensor/tensor_ptr_maker.rs:247-254 | from every state one of two fixed later outputs is accepted |
| `RandomEngine.UniformIntDistribution.Sample` | crates/executorch/src/extension/tensor/tensor_ptr_maker.rs:240-255 | the rejection loop ends within 2^30 draws for every seed, with the first accepted output reduced into the range and converted to f64, exactly up to 2^53 |
| `RandomEngine.EachValueIsEquallyLikely` | crates/executorch/src/extension/tensor/tensor_ptr_maker.rs:241-252 | each value is produced by exactly limit / range engine states |
| `RandomEngine.EveryIntegerIsEquallyLikely` | crates/executorch/src/extension/tensor/tensor_ptr_maker.rs:240-255 | the law over an interval: every integer of low .. high is drawn from exactly (2^31 - 2) / (high - low + 1) engine states, rounded down, and no other integer is drawn |
| `RandomEngine.DrawInteger` | crates/executorch/src/extension/tensor/tensor_ptr_maker.rs:240-255 | the same for the operation: the result is v exactly when the accepted state is one of that many |
| `EtView.ViewTargetSize` | crates/executorch/src/kernels/registry.rs:156-188 | the loop with its early returns: rejection and result for every request, other slots untouched |
| `EtView.RejectedRequests` | crates/executorch/src/kernels/registry.rs:156-188 | a request is rejected exactly for a size below -1, two sizes to infer, or one that nothing determines |
| `TensorImpl.TensorImpl.constructor` | crates/executorch/src/runtime/core/portable_type/tensor_impl.rs:210-240 | a new tensor caches its element count, possibly wrapped, which also bounds later resizing |
| `TensorImpl.TensorImpl.InternalResizeContiguous` | crates/executorch/src/runtime/core/portable_type/tensor_impl.rs:425-507 | which shapes a static and a dynamic tensor take, and the error otherwise; count and strides are those of the new shape; a static shape keeps its cached count; a refused shape changes nothing |
| `EtView.EtView` | crates/executorch/src/kernels/registry.rs:192-226 | the status for every request and output tensor, static or dynamic, and the shape, count and data the output has afterwards |
| `EtView.ViewResolution` | crates/executorch/src/kernels/registry.rs:156-222 | for given sizes that fit 32 bits: resolved with the right element count if and only if satisfiable and the inferred size fits; products may overflow |
| `EtView.ViewResolutionIsExact` | crates/executorch/src/kernels/registry.rs:156-222 | for all requests: the resolved shape completes the request with the right count if and only if it is satisfiable and every size fits |
| `EtView.CutOffSizeIsAccepted` | crates/executorch/src/kernels/registry.rs:177-185 | a concrete request that nothing completes but that is accepted: 2^32 + 3 for 3 elements |
| `EtView.LargeInferredSizeIsRejected` | crates/executorch/src/kernels/registry.rs:181-187 | a concrete satisfiable request that is rejected: [-1] for 2^31 elements |
| `EtView.WrappedProductIsRejected` | crates/executorch/src/kernels/registry.rs:177-185 | a concrete satisfiable request that is rejected because the product of the given sizes wraps around to 0 |
| `EtView.CompletionIsUnique` | crates/executorch/src/kernels/registry.rs:181-187 | no other shape completes the request |
| `EtView.SatisfiableMeansOneCompletion` | crates/executorch/src/kernels/registry.rs:156-188 | a well-formed request is satisfiable if and only if exactly one shape completes it with the right element count |
| `EtView.ViewOf` | crates/executorch/src/kernels/registry.rs:192-226 | a request that determines a fitting shape on a tensor with room gives that shape, count and data |
| `OrderedTable.PutLaws` | crates/executorch/src/runtime/backend/backend_options_map.rs:114-148 | bounded insertion-ordered tables behave as maps, and refuse exactly a new key when full |
| `OrderedTable.CStrOfCopy` | crates/executorch/src/runtime/backend/backend_options_map.rs:132-143 | a string copied over stale bytes reads back as itself |
| `BackendOptions.BackendOptions.SetOption` | crates/executorch/src/runtime/backend/options.rs:257-283 | refines the table update, refused exactly when new and full, stale slots unobservable |
| `BackendOptions.BackendOptions.StoredStringReadsBack` | crates/executorch/src/runtime/backend/options.rs:164-171 | string values keep their first 255 characters |
| `BackendOptions.BackendOptions.GetBool` | crates/executorch/src/runtime/backend/options.rs:189-206 | value, wrong type or absent, by lookup in the table |
| `BackendOptions.BackendOptions.GetInt` | crates/executorch/src/runtime/backend/options.rs:210-226 | the same for integers |
| `BackendOptions.BackendOptions.GetStr` | crates/executorch/src/runtime/backend/options.rs:230-247 | the same for strings |
| `BackendOptions.BackendOptions.Clone` | crates/executorch/src/runtime/backend/options.rs:70-79 | a copy shows the same table |
| `BackendOptions.BackendOptions.CloneFrom` | crates/executorch/src/runtime/backend/options.rs:84-91 | assignment shows the same table whatever the target held, also onto itself |
| `BackendOptionsMap.LoadBackendOptionsMap.SetOptions` | crates/executorch/src/runtime/backend/backend_options_map.rs:94-104 | accepted exactly for ids of 1 to 63 characters that are known or among the first eight; refines the table update |
| `BackendOptionsMap.LoadBackendOptionsMap.SetOptionsImpl` | crates/executorch/src/runtime/backend/backend_options_map.rs:114-148 | the same below the null and empty checks |
| `BackendOptionsMap.LoadBackendOptionsMap.GetOptions` | crates/executorch/src/runtime/backend/backend_options_map.rs:157-172 | lookup, empty for null or unknown ids |
| `BackendOptionsMap.LoadBackendOptionsMap.HasOptions` | crates/executorch/src/runtime/backend/backend_options_map.rs:180-192 | true exactly for ids in the table |
| `BackendOptionsMap.LoadBackendOptionsMap.EntryAt` | crates/executorch/src/runtime/backend/backend_options_map.rs:211-228 | enumeration in insertion order |
| `BackendOptionsMap.NewId` | crates/executorch/src/extension/module/module.rs:501-516 | an id of the input is new to a copy of the entries before it, so the inner update appends |
| `BackendOptionsMap.CopyEntries` | crates/executorch/src/extension/module/module.rs:498-517 | the copy loop never fails and yields fresh owned arrays with equal values |
| `BackendOptionsMap.Module.LoadWithBackendOptions` | crates/executorch/src/extension/module/module.rs:488-524 | unchanged on a failed load; otherwise the installed list equals the input, option by option, over fresh arrays the module owns |
| `KernelRegistry.Registry.RegisterKernel` | crates/executorch/src/runtime/kernel/operator_registry.rs:468-546 | appends, or aborts exactly on a full table or a repeated name and key |
| `KernelRegistry.Registry.RegistryHasFallbackKernel` | crates/executorch/src/kernels/optimized/mod.rs:70-86 | the scan finds exactly fallbacks of that name |
| `KernelRegistry.Registry.RegisterIfAbsent` | crates/executorch/src/kernels/optimized/mod.rs:63-68 | skips bound names, so no duplicate is ever submitted |
| `KernelRegistry.Registry.RegisterAll` | crates/executorch/src/kernels/optimized/mod.rs:36-49 | goes through exactly when the merged registry fits; the table is always a prefix of the merge |
| `KernelRegistry.Registry.Register` | crates/executorch/src/kernels/optimized/mod.rs:34-52 | optimised first, then portable: the merged registry |
| `KernelRegistry.MergeExtends` | crates/executorch/src/kernels/optimized/mod.rs:26-33 | earlier entries stay as a prefix |
| `KernelRegistry.MergeBinds` | crates/executorch/src/kernels/optimized/mod.rs:26-33 | every listed name is bound afterwards |
| `KernelRegistry.Registry.FallbacksAreUnique` | crates/executorch/src/runtime/kernel/operator_registry.rs:501-538 | in every reachable registry, whatever was registered directly or by merges, a name has at most one fallback |
| `KernelRegistry.MergeKeepsUnique` | crates/executorch/src/kernels/optimized/mod.rs:54-68 | a merge keeps at most one fallback per name |
| `KernelRegistry.RegisterTwice` | crates/executorch/src/kernels/optimized/mod.rs:26-33 | a second call changes nothing |
| `KernelRegistry.RegisterDispatch` | crates/executorch/src/runtime/kernel/operator_registry.rs:627-660 | dispatch after registration: what was there before, else optimised, else portable |
| `KernelRegistry.GetOpFunction` | crates/executorch/src/runtime/kernel/operator_registry.rs:627-660 | the scan returns the first kernel for the key, else the last fallback of the name, else nothing |
| `ModulePlanning.GetMaxSizes` | crates/executorch/src/extension/module/module.rs:771-804 | the pointwise maximum over all methods, for any iteration order |
| `ModulePlanning.MaximumIsUnique` | crates/executorch/src/extension/module/module.rs:771-804 | there is only one such maximum |
| `ModulePlanning.MakePlannedMemory` | crates/executorch/src/extension/module/module.rs:616-653 | leading spans alias the arenas, the others are fresh, distinct and exact |
| `ModulePlanning.CreateArenas` | crates/executorch/src/extension/module/module.rs:899-907 | at most two arenas, sized by the maximum |
| `ModulePlanning.Module.EnsureArenas` | crates/executorch/src/extension/module/module.rs:895-908 | arenas are created once and then never change |
| `ModulePlanning.Module.Prepare` | crates/executorch/src/extension/module/module.rs:837-929 | memory for a method without its own: error cases in order, shared arenas, device flags, spans that fit and are its own |
| `ModulePlanning.Module.LoadMethod` | crates/executorch/src/extension/module/module.rs:811-988 | every error path in order, with or without memory from the caller; the sharing invariant holds after every load in every order |
| `ModulePlanning.Module.UnloadMethod` | crates/executorch/src/extension/module/module.rs:1023-1025 | removes one method, leaves arenas and the others alone |
| `ModulePlanning.Module.LoadedMethodsShareOnlyArenas` | crates/executorch/src/extension/module/module.rs:630-646 | two loaded methods share span i exactly for the first two indices, and every span is large enough |
| `ModulePlanning.Module.UnsharedSpansArePrivate` | crates/executorch/src/extension/module/module.rs:616-653 | without sharing all spans are different and exactly as large as planned |

## Left out

- LayoutRecovery.LayoutRecovery with a bad empty-dimension tie: recovery is false there, as `EmptyDimensionMayBeRejected` shows; `RecoveredWhateverTheSort` gives the exact condition.
- DenseAddressing.DenseBijection for strides that do not fit 32 bits: one-to-one addressing is false there, as `WrappedExample` shows; `StoredAddressingIsOneToOne` and `AcceptedAddressingIsOneToOne` give the exact condition.
- MakeTensorPtr: the moment at which the deleter runs, which is the drop of the last reference.
- CloneTensorPtr: the numeric cast matrix with Half and BFloat16 is one abstract conversion of elements; types without a conversion are part of `canCast`.
- MakeTensorAccessor: bounds checks in `size` and `stride` after a second index step, since the stored rank is wrong there, which `DimIsRemainingRank` states exactly.
- clone_tensor_ptr_to: needs the device allocator; its metadata handling is that of the CPU clone.
- Step: memory-model effects. Items write disjoint rows and the flag is only ever cleared, so any interleaving of whole steps is covered.
- IstftOut: audio lengths that do not fit the 32-bit size of `out`; the imaginary tensor is taken to have the sizes of the real one, which the code does not check.
- Frame: the FFT itself, rounding of f32, and the cosine values of the Hann window, which enters as any window of n_fft values.
- LayerNormOut: inputs that already hold infinities or NaNs; gamma and beta are taken to have the normalised size, as the code takes them.
- FileDataLoader.FileDataLoader.LoadInto: the file name copy and its release, and the seek-and-read fallback on systems without pread.
- MmapDataLoader.MmapDataLoader.Load: a page size of 0, which the constructor lets through, and madvise hints, which change nothing observable.
- FileDescriptorDataLoader and SharedPtrDataLoader: the same read loop and the same bounds checks again.
- Allocate: the alignment guarantee of malloc is fixed at 16 bytes; profiling hooks.
- Sample: how doubles beyond 2^53 are rounded, and the cast to the element type; ranges beyond the engine, for which the loop never ends (`AcceptanceIsPossible`).
- UniformRealDistribution and NormalDistribution: floating-point formulas over the same engine.
- ViewResolution for sizes of 2^31 and more: acceptance is unsound there, as `CutOffSizeIsAccepted` shows; `ViewResolutionIsExact` gives the exact condition.
- EtView: unpacking the argument stack; the source tensor is read only through its count, type and data address.
- SetOption: options changed behind the table's back through the mutable span of `view`.
- RegisterKernel: kernels with null names, spans of several kernels at once, and the key matching of tensor metadata, which is an equality of strings here.
- LoadMethod: device memory is a buffer of the planned size like host memory; tracers, data maps and the release order of a method's parts.
- Running a loaded method, bundled programs, the flat tensor data map, the operator macro and the remaining backends.
