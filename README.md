# Force Field X core, modelled in Dafny

This project models the core of Force Field X, a Java molecular modelling package. It covers four parts.

- **Transition-tempered orthogonal space random walk (OSRW).** `TransitionTemperedOSRW` and the parts of `AbstractOSRW` it relies on are modelled. These are:
  - the two-dimensional recursion-kernel histogram over lambda and dU/dL, with its bin geometry;
  - the Gaussian bias energy, with the mirror conditions at the lambda ends;
  - the free-energy profile F(lambda) and the tempering weight;
  - growing the histogram when dU/dL leaves it;
  - merging counts from other processes, both synchronously and through the receive thread;
  - the histogram and lambda restart files.
  The histogram is a class whose fields the methods update in place, as in the source. The methods are proved against value-level functions (`OsrwKernel`, `OsrwMerge`, `OsrwRestart`), and the properties are lemmas about those functions.
- **GaussVol.** This is the Gaussian-overlap tree used for molecular volumes and surface areas. The model covers:
  - the initial tree of atom Gaussians;
  - the child overlaps of each node, with the volume switch and the sibling test;
  - the recursive volume pass and its tree-wide sums;
  - the rescans that replace volumes or gammas;
  - the driver that sets radii, volumes and gammas.
- **Parallel Java helpers.** `SharedIntegerArrayBuf` packs and unpacks slices of a shared integer array. `DynamicLongSchedule` hands out chunks of a long loop range.
- **Constant-pH and class loading.** The model covers:
  - the titration lookup tables of `TitrationUtils`;
  - the Monte Carlo protonation driver `Protonate`;
  - the lambda switch and discretisation bias of `ExtendedVariable`;
  - the package routing, extension-jar discovery and script listing of `FFXClassLoader`.

Java `double` arithmetic is modelled by `real`, and Java `int`/`long` by unbounded integers. Where the source's wrap-around matters, it is written out with the `JavaLang` helpers (`IntWrap`, `IsInt`, `IsLong`). `exp`, the overlap of two Gaussians and the random numbers of the Metropolis test are function parameters of the model.

## Model

| member | source | states |
|---|---|---|
| DynamicLongSchedules.Chunk | modules/pj/src/main/java/edu/rit/pj/DynamicLongSchedule.java:167-168 | the chunk starting at iteration theStart keeps the range's stride and holds at most theLength iterations. It is empty exactly when the start is past the range or the length is 0. A short chunk reaches the end of the range |
| DynamicLongSchedules.ChunkIndex | modules/pj/src/main/java/edu/rit/pj/DynamicLongSchedule.java:167 | index k of a chunk is index theStart+k of the loop range, so each chunk lies inside the range |
| DynamicLongSchedules.GetChunkSize | modules/pj/src/main/java/edu/rit/pj/DynamicLongSchedule.java:107-119 | succeeds exactly when there is one argument and it parses as a long, and then yields that long |
| DynamicLongSchedules.ChunkSizeRoundTrip | modules/pj/src/main/java/edu/rit/pj/DynamicLongSchedule.java:107-119 | the decimal text of any long parses back to that chunk size |
| DynamicLongSchedules.HandedOutGrows | modules/pj/src/main/java/edu/rit/pj/DynamicLongSchedule.java:164-177 | appending the next non-empty chunk keeps the handed-out chunks consecutive |
| DynamicLongSchedules.HandedOutWithin | modules/pj/src/main/java/edu/rit/pj/DynamicLongSchedule.java:164-177 | the iterations handed out never exceed the range length |
| DynamicLongSchedules.Contiguous | modules/pj/src/main/java/edu/rit/pj/DynamicLongSchedule.java:164-177 | each handed-out chunk starts where the previous one ended, with the range's stride |
| DynamicLongSchedules.OnlyLastShort | modules/pj/src/main/java/edu/rit/pj/DynamicLongSchedule.java:164-177 | every chunk but the last holds exactly N2 iterations |
| DynamicLongSchedules.CountMonotone | modules/pj/src/main/java/edu/rit/pj/DynamicLongSchedule.java:164-177 | later chunks start after earlier chunks end |
| DynamicLongSchedules.Disjoint | modules/pj/src/main/java/edu/rit/pj/DynamicLongSchedule.java:164-177 | no iteration is handed out twice |
| DynamicLongSchedules.Covered | modules/pj/src/main/java/edu/rit/pj/DynamicLongSchedule.java:164-177 | every iteration below N1 was handed out in some chunk |
| DynamicLongSchedules.DynamicLongSchedule.constructor | modules/pj/src/main/java/edu/rit/pj/DynamicLongSchedule.java:84-91 | a schedule with chunk size theChunkSize >= 1 and no loop range yet |
| DynamicLongSchedules.DynamicLongSchedule.Create | modules/pj/src/main/java/edu/rit/pj/DynamicLongSchedule.java:84-91 | yields a schedule exactly when the chunk size is at least 1. Otherwise it yields an error, for the source's IllegalArgumentException |
| DynamicLongSchedules.DynamicLongSchedule.CreateDefault | modules/pj/src/main/java/edu/rit/pj/DynamicLongSchedule.java:73-75 | a schedule with chunk size 1 |
| DynamicLongSchedules.DynamicLongSchedule.FromArgs | modules/pj/src/main/java/edu/rit/pj/DynamicLongSchedule.java:103-105 | yields a schedule exactly when GetChunkSize succeeds with a value >= 1, and then that value is its chunk size |
| DynamicLongSchedules.DynamicLongSchedule.Start | modules/pj/src/main/java/edu/rit/pj/DynamicLongSchedule.java:143-147 | records the loop range, resets N1 to 0 and clears the handed-out chunks |
| DynamicLongSchedules.DynamicLongSchedule.Next | modules/pj/src/main/java/edu/rit/pj/DynamicLongSchedule.java:164-177 | returns the chunk at N1 of at most N2 iterations and advances N1 by its length. It returns None, changing nothing, once the range is used up. Valid, which keeps the handed-out chunks consecutive and covering, is preserved |
| SharedIntegerArrayBufs.SendCountMaximal | modules/pj/src/main/java/edu/rit/mp/buf/SharedIntegerArrayBuf.java:130-140 | the number of items sent stays within the buffer's items and the byte buffer's room, at 4 bytes an item. It stops only at the last item or when fewer than 4 bytes remain |
| SharedIntegerArrayBufs.ReceiveCountMaximal | modules/pj/src/main/java/edu/rit/mp/buf/SharedIntegerArrayBuf.java:156-168 | the number of items received is at most num, stays within the buffer's items and the byte buffer's room, and stops only for one of these reasons: num items were received, the last item was reached, fewer than 4 bytes remain, num is negative, or i+num overflowed a Java int |
| SharedIntegerArrayBufs.ReceiveCountWraps | modules/pj/src/main/java/edu/rit/mp/buf/SharedIntegerArrayBuf.java:161 | with num = Integer.MAX_VALUE and i > 0, i+num wraps negative and nothing is received |
| SharedIntegerArrayBufs.StridedIsProduct | modules/pj/src/main/java/edu/rit/mp/buf/SharedIntegerArrayBuf.java:133 | stepping the offset by the stride i times gives i*stride (also line 137 of SharedIntegerArrayBuf.java) |
| SharedIntegerArrayBufs.StridedGrows | modules/pj/src/main/java/edu/rit/mp/buf/SharedIntegerArrayBuf.java:133 | a positive stride makes later items land at strictly later offsets (also line 137 of SharedIntegerArrayBuf.java) |
| SharedIntegerArrayBufs.SharedIntegerArrayBuf.constructor | modules/pj/src/main/java/edu/rit/mp/buf/SharedIntegerArrayBuf.java:65-72 | a buffer over theRange of theArray: its length, offset and stride are the range's |
| SharedIntegerArrayBufs.SharedIntegerArrayBuf.PosInRange | modules/pj/src/main/java/edu/rit/mp/buf/SharedIntegerArrayBuf.java:85-87 | item i of the buffer lies inside the shared array |
| SharedIntegerArrayBufs.SharedIntegerArrayBuf.PosInjective | modules/pj/src/main/java/edu/rit/mp/buf/SharedIntegerArrayBuf.java:85-87 | distinct items lie at distinct array positions |
| SharedIntegerArrayBufs.SharedIntegerArrayBuf.Put | modules/pj/src/main/java/edu/rit/mp/buf/SharedIntegerArrayBuf.java:98-101 | afterwards item i reads back as item. Every other item and every other array element is unchanged |
| SharedIntegerArrayBufs.SharedIntegerArrayBuf.SendItems | modules/pj/src/main/java/edu/rit/mp/buf/SharedIntegerArrayBuf.java:130-140 | writes SendCount items, starting at item i, into consecutive byte-buffer slots. It advances the position by that count and the remaining bytes by 4 per item. No other slot changes and the array is unchanged |
| SharedIntegerArrayBufs.SharedIntegerArrayBuf.ReceiveItems | modules/pj/src/main/java/edu/rit/mp/buf/SharedIntegerArrayBuf.java:156-168 | reads ReceiveCount items from consecutive byte-buffer slots into items i onward and advances the buffer the same way. Items outside that window are unchanged, and so is every element of the shared array that is not one of the received items' positions (the stride gaps and other buffers' slices) |
| OsrwGeometry.LambdaAxisFor | modules/algorithms/src/main/java/ffx/algorithms/osrw/AbstractOSRW.java:520-552 | the lambda axis has an odd number of at least 11 bins. Its bin width is at most 0.1 and divides [0,1] exactly, so the first and last bin centres are 0 and 1. The half width is dL/2, the axis starts at -dL/2, and the bin count is within one of 1/width |
| OsrwGeometry.LambdaAxisFacts | modules/algorithms/src/main/java/ffx/algorithms/osrw/AbstractOSRW.java:520-552 | the facts LambdaAxisFor promises, derived from the truncated bin count and its odd correction |
| OsrwGeometry.InitialFLambdaAxis | modules/algorithms/src/main/java/ffx/algorithms/osrw/AbstractOSRW.java:545-554 | the initial dU/dL axis has 401 bins, is symmetric about 0 with its upper edge at min+bins*dFL, and has the centre of its middle bin at 0 |
| OsrwGeometry.UpperEdgeLowered | modules/algorithms/src/main/java/ffx/algorithms/osrw/TransitionTemperedOSRW.java:924-935 | adding offset bins below the axis and lowering the minimum by offset*dFL keeps the upper edge where it was |
| OsrwGeometry.FrequencyFor | modules/algorithms/src/main/java/ffx/algorithms/osrw/AbstractOSRW.java:498-514 | an interval shorter than one time step gives the default. Otherwise the result is the truncated number of steps in the interval, which is at least 1 and fits an int |
| OsrwGeometry.PrintFrequency | modules/algorithms/src/main/java/ffx/algorithms/osrw/AbstractOSRW.java:503-506 | is at least 1. It is 100 when the print interval is shorter than one step and the truncated step count otherwise |
| OsrwGeometry.SaveFrequency | modules/algorithms/src/main/java/ffx/algorithms/osrw/AbstractOSRW.java:511-514 | is at least 1. It is 1000 when the save interval is shorter than one step and the truncated step count otherwise |
| OsrwGeometry.BinForLambda | modules/algorithms/src/main/java/ffx/algorithms/osrw/AbstractOSRW.java:634-643 | any lambda is clamped into a valid lambda bin |
| OsrwGeometry.BinForLambdaEdges | modules/algorithms/src/main/java/ffx/algorithms/osrw/AbstractOSRW.java:634-643 | an unclamped lambda bin holds lambda between its lower and upper edges |
| OsrwGeometry.BinForFLambda | modules/algorithms/src/main/java/ffx/algorithms/osrw/AbstractOSRW.java:651-659 | a dU/dL inside the axis, upper edge included, lands in a valid bin |
| OsrwGeometry.BinForFLambdaEdges | modules/algorithms/src/main/java/ffx/algorithms/osrw/AbstractOSRW.java:651-659 | a dU/dL inside the axis lies between its bin's edges. The upper edge itself goes to the last bin |
| OsrwKernel.ZeroKernel | modules/algorithms/src/main/java/ffx/algorithms/osrw/TransitionTemperedOSRW.java:1199-1200 | a cleared histogram of the given shape holds 0 in every cell |
| OsrwKernel.AddWeight | modules/algorithms/src/main/java/ffx/algorithms/osrw/TransitionTemperedOSRW.java:1205 | adding a walker's weight changes only cell (l, f), which grows by w. The shape is kept (also line 1359 of TransitionTemperedOSRW.java) |
| OsrwKernel.TotalAddWeight | modules/algorithms/src/main/java/ffx/algorithms/osrw/TransitionTemperedOSRW.java:1205 | the total weight in the histogram grows by exactly w (also line 1359 of TransitionTemperedOSRW.java) |
| OsrwKernel.Embed | modules/algorithms/src/main/java/ffx/algorithms/osrw/TransitionTemperedOSRW.java:903-905 | growing the histogram puts off zero columns before every row and extra zero columns after it, and keeps the old counts in between (also lines 930-932 of TransitionTemperedOSRW.java) |
| OsrwKernel.EmbedFits | modules/algorithms/src/main/java/ffx/algorithms/osrw/TransitionTemperedOSRW.java:903-907 | the grown histogram fits the grown geometry (also lines 930-935 of TransitionTemperedOSRW.java) |
| OsrwKernel.TotalEmbed | modules/algorithms/src/main/java/ffx/algorithms/osrw/TransitionTemperedOSRW.java:903-905 | growing the histogram keeps its total weight (also lines 930-932 of TransitionTemperedOSRW.java) |
| OsrwKernel.FoldLambda | modules/algorithms/src/main/java/ffx/algorithms/osrw/TransitionTemperedOSRW.java:839-855 | the mirror rule. The end bins count twice, a bin below 0 reads its mirror -lcenter, and a bin past the last reads its mirror about the last bin. Any centre within one axis length of the axis maps into it |
| OsrwKernel.KernelSumNonNegative | modules/algorithms/src/main/java/ffx/algorithms/osrw/TransitionTemperedOSRW.java:812-865 | with a non-negative exponential and bias magnitude, each partial kernel sum over the lambda window is non-negative |
| OsrwKernel.KernelRowSumNonNegative | modules/algorithms/src/main/java/ffx/algorithms/osrw/TransitionTemperedOSRW.java:845-862 | the same for each partial sum over the dU/dL window |
| OsrwKernel.KernelTermNonNegative | modules/algorithms/src/main/java/ffx/algorithms/osrw/TransitionTemperedOSRW.java:857-861 | a single Gaussian term is non-negative, because only positive weights contribute |
| OsrwKernel.EvaluateKernelNonNegative | modules/algorithms/src/main/java/ffx/algorithms/osrw/TransitionTemperedOSRW.java:812-865 | the kernel value at any bin is non-negative |
| OsrwKernel.DeltaFLEmbed | modules/algorithms/src/main/java/ffx/algorithms/osrw/TransitionTemperedOSRW.java:855 | after growing the axis below by off bins, the shifted bin centres are unchanged (also line 934 of TransitionTemperedOSRW.java) |
| OsrwKernel.MirroredWeightEmbed | modules/algorithms/src/main/java/ffx/algorithms/osrw/TransitionTemperedOSRW.java:850-856 | in the grown histogram, the mirrored weight at a shifted column is the old weight, or 0 in a new column |
| OsrwKernel.KernelTermEmbed | modules/algorithms/src/main/java/ffx/algorithms/osrw/TransitionTemperedOSRW.java:845-862 | one Gaussian term of the kernel is unchanged by growing the histogram |
| OsrwKernel.KernelRowSumEmbed | modules/algorithms/src/main/java/ffx/algorithms/osrw/TransitionTemperedOSRW.java:845-862 | each dU/dL window sum is unchanged by growing the histogram |
| OsrwKernel.KernelSumEmbed | modules/algorithms/src/main/java/ffx/algorithms/osrw/TransitionTemperedOSRW.java:823-865 | each lambda window sum is unchanged by growing the histogram |
| OsrwKernel.EvaluateKernelEmbed | modules/algorithms/src/main/java/ffx/algorithms/osrw/TransitionTemperedOSRW.java:812-865 | the kernel at a shifted bin of the grown histogram equals the kernel at the old bin. This is the invariance that checkRecursionKernelSize asserts |
| OsrwKernel.GaussDenominatorPositive | modules/algorithms/src/main/java/ffx/algorithms/osrw/TransitionTemperedOSRW.java:696-697 | the Gaussian variances are positive, so the exponents are defined |
| OsrwKernel.FloorUnique | modules/algorithms/src/main/java/ffx/algorithms/osrw/AbstractOSRW.java:651-659 | a value lies in only one bin |
| OsrwKernel.ShiftedFloor | modules/algorithms/src/main/java/ffx/algorithms/osrw/AbstractOSRW.java:651-659 | lowering the axis by off bins raises every bin index by off |
| OsrwKernel.BinForFLambdaEmbed | modules/algorithms/src/main/java/ffx/algorithms/osrw/AbstractOSRW.java:651-659 | a dU/dL inside the old axis lands off bins later in the grown axis |
| OsrwKernel.BiasTermEmbed | modules/algorithms/src/main/java/ffx/algorithms/osrw/TransitionTemperedOSRW.java:716-733 | one term of computeBiasEnergy is unchanged by growing the histogram |
| OsrwKernel.BiasRowSumEmbed | modules/algorithms/src/main/java/ffx/algorithms/osrw/TransitionTemperedOSRW.java:716-733 | each dU/dL window sum of computeBiasEnergy is unchanged by growing the histogram |
| OsrwKernel.BiasSumEmbed | modules/algorithms/src/main/java/ffx/algorithms/osrw/TransitionTemperedOSRW.java:698-734 | each lambda window sum of computeBiasEnergy is unchanged by growing the histogram |
| OsrwKernel.KernelBiasEnergyEmbed | modules/algorithms/src/main/java/ffx/algorithms/osrw/TransitionTemperedOSRW.java:689-738 | the 2-D bias energy at a sample inside the old axis is unchanged by growing the histogram |
| OsrwKernel.FirstPositiveFrom | modules/algorithms/src/main/java/ffx/algorithms/osrw/TransitionTemperedOSRW.java:963-970 | returns the first column at or after j with a positive count, or -1 when there is none |
| OsrwKernel.LastPositiveBelow | modules/algorithms/src/main/java/ffx/algorithms/osrw/TransitionTemperedOSRW.java:972-979 | returns the last column below n with a positive count, or -1 when there is none |
| OsrwKernel.KernelRow | modules/algorithms/src/main/java/ffx/algorithms/osrw/TransitionTemperedOSRW.java:995 | the kernel values of lambda row iL, one per dU/dL bin |
| OsrwKernel.MaxBiasFrom | modules/algorithms/src/main/java/ffx/algorithms/osrw/TransitionTemperedOSRW.java:996-998 | the running maximum bias bounds the starting value and every kernel value in the window |
| OsrwKernel.BinStatAt | modules/algorithms/src/main/java/ffx/algorithms/osrw/TransitionTemperedOSRW.java:957-1021 | the statistics of lambda bin iL. Its maximum bias is non-negative, and it is populated exactly when the row has a positive count |
| OsrwKernel.BinStats | modules/algorithms/src/main/java/ffx/algorithms/osrw/TransitionTemperedOSRW.java:957-1046 | one BinStatAt per lambda bin |
| OsrwKernel.FreeEnergyUpToStep | modules/algorithms/src/main/java/ffx/algorithms/osrw/TransitionTemperedOSRW.java:1024-1031 | the free-energy sum gains F(lambda) times the bin width at each bin. The end bins are half width |
| OsrwKernel.TemperEnergyNonPositive | modules/algorithms/src/main/java/ffx/algorithms/osrw/TransitionTemperedOSRW.java:1048-1051 | the tempering energy is never positive, and it is negative exactly when the minimum bias exceeds temperOffset |
| OsrwKernel.MinBiasFromBounds | modules/algorithms/src/main/java/ffx/algorithms/osrw/TransitionTemperedOSRW.java:987-990 | the running minimum lies between 0 and its start. It is below every populated bin's maximum bias, and it is 0 once any bin is empty (also lines 1016-1018 of TransitionTemperedOSRW.java) |
| OsrwKernel.TemperingNeedsCoverage | modules/algorithms/src/main/java/ffx/algorithms/osrw/TransitionTemperedOSRW.java:1048-1051 | tempering lowers the weight only when every lambda bin is populated and has a maximum bias above temperOffset |
| OsrwKernel.MinBiasNonNegative | modules/algorithms/src/main/java/ffx/algorithms/osrw/TransitionTemperedOSRW.java:950-1021 | the minimum bias is never negative |
| OsrwKernel.FirstPositiveEmbed | modules/algorithms/src/main/java/ffx/algorithms/osrw/TransitionTemperedOSRW.java:963-970 | zero padding shifts the first populated column by off |
| OsrwKernel.LastPositiveEmbed | modules/algorithms/src/main/java/ffx/algorithms/osrw/TransitionTemperedOSRW.java:972-979 | zero padding shifts the last populated column by off |
| OsrwKernel.CenterEmbed | modules/algorithms/src/main/java/ffx/algorithms/osrw/TransitionTemperedOSRW.java:993 | the centre of a shifted bin is unchanged by growing the axis |
| OsrwKernel.KernelRowEmbed | modules/algorithms/src/main/java/ffx/algorithms/osrw/TransitionTemperedOSRW.java:995 | a kernel row of the grown histogram holds the old row at offset off |
| OsrwKernel.SumsEmbed | modules/algorithms/src/main/java/ffx/algorithms/osrw/TransitionTemperedOSRW.java:993-1015 | the ensemble-average and partition sums over a shifted window are unchanged |
| OsrwKernel.MaxBiasEmbed | modules/algorithms/src/main/java/ffx/algorithms/osrw/TransitionTemperedOSRW.java:996-998 | the maximum bias over a shifted window is unchanged |
| OsrwKernel.BinStatEmbed | modules/algorithms/src/main/java/ffx/algorithms/osrw/TransitionTemperedOSRW.java:957-1021 | each lambda bin's statistics are unchanged by growing the histogram |
| OsrwKernel.RowSumsEmbed | modules/algorithms/src/main/java/ffx/algorithms/osrw/TransitionTemperedOSRW.java:988-1015 | the window sums of one row are unchanged by growing the histogram |
| OsrwKernel.UpdateFLambdaEmbed | modules/algorithms/src/main/java/ffx/algorithms/osrw/TransitionTemperedOSRW.java:889-911 | growing the histogram leaves F(lambda), the free energy and the minimum bias unchanged. These are the asserts origDeltaG == updateFLambda(false) (also lines 916-939 of TransitionTemperedOSRW.java) |
| OsrwMerge.UpperBins | modules/algorithms/src/main/java/ffx/algorithms/osrw/TransitionTemperedOSRW.java:893-896 | the grown bin count is never below the current count |
| OsrwMerge.UpperBinsFacts | modules/algorithms/src/main/java/ffx/algorithms/osrw/TransitionTemperedOSRW.java:893-896 | the grown bin count exceeds the old one by a multiple of 100 and reaches dU/dL. Without the last 100 bins it would not reach dU/dL |
| OsrwMerge.LowerOffset | modules/algorithms/src/main/java/ffx/algorithms/osrw/TransitionTemperedOSRW.java:920-923 | the offset never drops below its start |
| OsrwMerge.LowerOffsetFacts | modules/algorithms/src/main/java/ffx/algorithms/osrw/TransitionTemperedOSRW.java:920-923 | the offset grows from 100 in steps of 100 until min-offset*dFL reaches dU/dL. It is the smallest such step |
| OsrwMerge.Resize | modules/algorithms/src/main/java/ffx/algorithms/osrw/TransitionTemperedOSRW.java:886-940 | after checkRecursionKernelSize the histogram fits its geometry and covers the sample |
| OsrwMerge.GrowthForFacts | modules/algorithms/src/main/java/ffx/algorithms/osrw/TransitionTemperedOSRW.java:886-940 | no growth happens exactly when the axis already covers the sample. Growth is in whole hundreds of bins: above, keeping the minimum, for a large sample; below, keeping the maximum, for a small one. In each case no more than needed is added |
| OsrwMerge.GrowthAboveFacts | modules/algorithms/src/main/java/ffx/algorithms/osrw/TransitionTemperedOSRW.java:886-912 | growth above adds at least 100 bins, in hundreds, at the top only, and stops within 100 bins of the sample |
| OsrwMerge.GrowthBelowFacts | modules/algorithms/src/main/java/ffx/algorithms/osrw/TransitionTemperedOSRW.java:914-940 | growth below adds at least 100 bins, in hundreds, at the bottom only, and stops within 100 bins of the sample |
| OsrwMerge.GrowthCovers | modules/algorithms/src/main/java/ffx/algorithms/osrw/TransitionTemperedOSRW.java:886-940 | the grown axis covers the sample |
| OsrwMerge.ResizeExtends | modules/algorithms/src/main/java/ffx/algorithms/osrw/TransitionTemperedOSRW.java:886-940 | growing for one sample keeps every value the axis covered before |
| OsrwMerge.GrowthAbove | modules/algorithms/src/main/java/ffx/algorithms/osrw/TransitionTemperedOSRW.java:888-896 | for a sample above the axis, growth is the upper-bin search minus the current bin count, with nothing below |
| OsrwMerge.GrowthBelow | modules/algorithms/src/main/java/ffx/algorithms/osrw/TransitionTemperedOSRW.java:915-924 | for a sample below the axis, growth is the lower-offset search starting at 100, with nothing above |
| OsrwMerge.ResizeCovered | modules/algorithms/src/main/java/ffx/algorithms/osrw/TransitionTemperedOSRW.java:886-940 | a sample inside the axis changes nothing |
| OsrwMerge.ResizeKeepsStats | modules/algorithms/src/main/java/ffx/algorithms/osrw/TransitionTemperedOSRW.java:889-911 | resizing keeps F(lambda), the free energy and the minimum bias, which is what the source asserts (also lines 916-939 of TransitionTemperedOSRW.java) |
| OsrwMerge.AddCountIs | modules/algorithms/src/main/java/ffx/algorithms/osrw/TransitionTemperedOSRW.java:1330-1359 | states how one received count changes the walker. Tempering turns on for a weight below 1. The histogram is cleared once when lambda passes the reset value. The weight is added at the count's bins |
| OsrwMerge.MergeStep | modules/algorithms/src/main/java/ffx/algorithms/osrw/TransitionTemperedOSRW.java:1330-1359 | after one received count is merged, the histogram fits its geometry and covers the count |
| OsrwMerge.ReceiveAll | modules/algorithms/src/main/java/ffx/algorithms/osrw/TransitionTemperedOSRW.java:1306-1370 | the receive loop keeps the histogram consistent with its geometry |
| OsrwMerge.ReceiveCount | modules/algorithms/src/main/java/ffx/algorithms/osrw/TransitionTemperedOSRW.java:1330-1359 | one iteration of the receive loop keeps the histogram consistent |
| OsrwMerge.Handled | modules/algorithms/src/main/java/ffx/algorithms/osrw/TransitionTemperedOSRW.java:1306-1326 | the messages handled are all counts, and the first unhandled one is the termination signal |
| OsrwMerge.ResizeTotal | modules/algorithms/src/main/java/ffx/algorithms/osrw/TransitionTemperedOSRW.java:886-940 | resizing covers the sample and keeps the total weight |
| OsrwMerge.AddCountTotal | modules/algorithms/src/main/java/ffx/algorithms/osrw/TransitionTemperedOSRW.java:1348-1359 | a count adds its weight to the total, after the total drops to 0 when the histogram is cleared |
| OsrwMerge.MergeStepTotal | modules/algorithms/src/main/java/ffx/algorithms/osrw/TransitionTemperedOSRW.java:1330-1359 | merging one count adds its weight to the total, after a possible clear. Tempering is on afterwards iff it was on or the weight is below 1. The reset flag stays set iff it was set and lambda did not pass the reset value |
| OsrwMerge.TotalZero | modules/algorithms/src/main/java/ffx/algorithms/osrw/TransitionTemperedOSRW.java:1199-1200 | a cleared histogram has total weight 0 |
| OsrwMerge.ReceiveAllTempering | modules/algorithms/src/main/java/ffx/algorithms/osrw/TransitionTemperedOSRW.java:1341-1346 | after the loop, tempering is on iff it was on before or some handled count had weight below 1 |
| OsrwMerge.LightHandledShift | modules/algorithms/src/main/java/ffx/algorithms/osrw/TransitionTemperedOSRW.java:1341-1346 | the first handled light count is either the head message or a handled light count of the tail |
| OsrwMerge.ReceiveAllTotal | modules/algorithms/src/main/java/ffx/algorithms/osrw/TransitionTemperedOSRW.java:1306-1370 | with no reset pending, the loop adds exactly the weights of the handled messages to the total |
| OsrwMerge.HandledShift | modules/algorithms/src/main/java/ffx/algorithms/osrw/TransitionTemperedOSRW.java:1306-1326 | a leading count is handled and its weight heads the handled sum |
| OsrwMerge.ReceiveAllStops | modules/algorithms/src/main/java/ffx/algorithms/osrw/TransitionTemperedOSRW.java:1319-1324 | the loop stops at a termination signal and changes nothing |
| OsrwMerge.ReceiveAllStep | modules/algorithms/src/main/java/ffx/algorithms/osrw/TransitionTemperedOSRW.java:1306-1370 | the loop from message i is one merge step followed by the loop from message i+1 |
| OsrwMerge.ReceiveFirst | modules/algorithms/src/main/java/ffx/algorithms/osrw/TransitionTemperedOSRW.java:1330-1359 | the first count can be merged on its own, adding its weight and leaving no reset pending |
| OsrwMerge.WeightSumShift | modules/algorithms/src/main/java/ffx/algorithms/osrw/TransitionTemperedOSRW.java:1330-1359 | the handled weight sum splits into the first weight and the rest |
| OsrwMerge.MinFrom | modules/algorithms/src/main/java/ffx/algorithms/osrw/TransitionTemperedOSRW.java:1168-1173 | the running minimum is at most its start and every gathered dU/dL, and it equals one of them |
| OsrwMerge.MaxFrom | modules/algorithms/src/main/java/ffx/algorithms/osrw/TransitionTemperedOSRW.java:1168-1173 | the running maximum is at least its start and every gathered dU/dL, and it equals one of them |
| OsrwMerge.RequiredRangeIsExact | modules/algorithms/src/main/java/ffx/algorithms/osrw/TransitionTemperedOSRW.java:1168-1173 | for gathered dU/dL values in double range, the corrected scan's bounds are the smallest and largest of them |
| OsrwMerge.RequiredRangeBounds | modules/algorithms/src/main/java/ffx/algorithms/osrw/TransitionTemperedOSRW.java:1168-1173 | the corrected bounds enclose every gathered dU/dL |
| OsrwMerge.SyncMerge | modules/algorithms/src/main/java/ffx/algorithms/osrw/TransitionTemperedOSRW.java:1175-1206 | merging the gathered counts keeps the histogram consistent |
| OsrwMerge.SyncCovers | modules/algorithms/src/main/java/ffx/algorithms/osrw/TransitionTemperedOSRW.java:1175-1206 | after the two resizes every gathered count lies inside the axis, and the merge adds the counts one by one to that histogram |
| OsrwMerge.AddAll | modules/algorithms/src/main/java/ffx/algorithms/osrw/TransitionTemperedOSRW.java:1182-1206 | adding covered counts keeps the geometry and the fit |
| OsrwMerge.AsWrittenRequiredRangeOvergrows | modules/algorithms/src/main/java/ffx/algorithms/osrw/TransitionTemperedOSRW.java:1169 | with one count at dU/dL -1 inside an axis ending at 0, the scan as written still grows the histogram by 100 bins above, while the corrected scan does not grow it |
| OsrwRestart.AsUnsignedInt | modules/algorithms/src/main/java/ffx/algorithms/osrw/TransitionTemperedOSRW.java:1496 | Integer.parseUnsignedInt accepts exactly the decimal values from 0 to 2^32-1. Values above Integer.MAX_VALUE come back wrapped negative |
| OsrwRestart.RowLine | modules/algorithms/src/main/java/ffx/algorithms/osrw/TransitionTemperedOSRW.java:1395-1400 | a histogram row is written as one value per column, in order |
| OsrwRestart.HeaderValues | modules/algorithms/src/main/java/ffx/algorithms/osrw/TransitionTemperedOSRW.java:1380-1394 | the header has the eleven values in the order written |
| OsrwRestart.WriteHistogram | modules/algorithms/src/main/java/ffx/algorithms/osrw/TransitionTemperedOSRW.java:1379-1401 | the file has the eleven keyed header lines and then one line per lambda bin holding that row of the histogram |
| OsrwRestart.ParseRow | modules/algorithms/src/main/java/ffx/algorithms/osrw/TransitionTemperedOSRW.java:1457-1460 | a row parses exactly when its first cols fields are all doubles, and then yields those values |
| OsrwRestart.ParseRows | modules/algorithms/src/main/java/ffx/algorithms/osrw/TransitionTemperedOSRW.java:1455-1461 | a parsed block has count rows of cols values and lies within the file |
| OsrwRestart.ReadHistogram | modules/algorithms/src/main/java/ffx/algorithms/osrw/TransitionTemperedOSRW.java:1431-1464 | a read yields the file's temperature, bin counts, dU/dL minimum and width, and its parsed rows, shaped lambdaBins by FLambdaBins. Tempering is on exactly when the flag is non-zero. A negative lambda bin count is an error |
| OsrwRestart.ParseRowLine | modules/algorithms/src/main/java/ffx/algorithms/osrw/TransitionTemperedOSRW.java:1395-1400 | a written row parses back to itself (also lines 1457-1460 of TransitionTemperedOSRW.java) |
| OsrwRestart.ParseRowsWritten | modules/algorithms/src/main/java/ffx/algorithms/osrw/TransitionTemperedOSRW.java:1394-1400 | the rows of a written file parse back to the histogram's rows (also lines 1455-1461 of TransitionTemperedOSRW.java) |
| OsrwRestart.HistogramRoundTrip | modules/algorithms/src/main/java/ffx/algorithms/osrw/TransitionTemperedOSRW.java:1379-1464 | reading a written histogram gives back the same histogram |
| OsrwRestart.HeaderRoundTrip | modules/algorithms/src/main/java/ffx/algorithms/osrw/TransitionTemperedOSRW.java:1380-1394 | each header field reads back as the value written (also lines 1433-1453 of TransitionTemperedOSRW.java) |
| OsrwRestart.WriteLambda | modules/algorithms/src/main/java/ffx/algorithms/osrw/TransitionTemperedOSRW.java:1415-1419 | the lambda file has three keyed lines: Lambda, Lambda-Velocity and Steps-Taken |
| OsrwRestart.ReadLambda | modules/algorithms/src/main/java/ffx/algorithms/osrw/TransitionTemperedOSRW.java:1482-1501 | a velocity is only taken when lambda parsed. The step count is only read when not reset, and then it fits an int |
| OsrwRestart.LambdaRoundTrip | modules/algorithms/src/main/java/ffx/algorithms/osrw/TransitionTemperedOSRW.java:1415-1501 | reading a written lambda file gives back lambda and the velocity. The step count comes back unless it is reset or negative, because parseUnsignedInt rejects a sign |
| OsrwRestart.AsWrittenReadAxes | modules/algorithms/src/main/java/ffx/algorithms/osrw/TransitionTemperedOSRW.java:1439-1448 | as written, the read keeps the old minimum lambda, maximum dU/dL and kernel-offset length |
| OsrwRestart.ReadAxes | modules/algorithms/src/main/java/ffx/algorithms/osrw/TransitionTemperedOSRW.java:1439-1448 | the corrected read takes the bin counts, the dU/dL minimum and the width from the file |
| OsrwRestart.ReadAxesConsistent | modules/algorithms/src/main/java/ffx/algorithms/osrw/TransitionTemperedOSRW.java:1439-1448 | for a usable file, the corrected axes satisfy every relation the constructor establishes. They agree with the as-written ones on each field the source does set |
| OsrwRestart.DefaultAxesAreTheConstructors | modules/algorithms/src/main/java/ffx/algorithms/osrw/AbstractOSRW.java:520-554 | the default axes are those of LambdaAxisFor and InitialFLambdaAxis for the default widths, and they are consistent |
| OsrwRestart.OverflowingBin | modules/algorithms/src/main/java/ffx/algorithms/osrw/AbstractOSRW.java:651-659 | a dU/dL of 200 lands in bin 150 of a 101-bin axis starting at -101 |
| OsrwRestart.LambdaBinsForSmallerHistogram | modules/algorithms/src/main/java/ffx/algorithms/osrw/AbstractOSRW.java:634-643 | lambda 0.03 is bin 0 with the stale minimum and bin 1 with the right one |
| OsrwRestart.AsWrittenReadBreaksAxes | modules/algorithms/src/main/java/ffx/algorithms/osrw/TransitionTemperedOSRW.java:1439-1448 | reading a 21-by-101 histogram into a default walker leaves inconsistent axes. maxFLambda stays high, so dU/dL 200 is accepted and indexes bin 150 of 101, and lambda 0.03 lands in the wrong bin. The corrected axes are consistent |
| TransitionTempered.KernelExt | modules/algorithms/src/main/java/ffx/algorithms/osrw/TransitionTemperedOSRW.java:903-905 | two histograms with the same shape and the same cells are equal |
| TransitionTempered.EmbedCell | modules/algorithms/src/main/java/ffx/algorithms/osrw/TransitionTemperedOSRW.java:903-905 | a cell of the grown histogram holds the old count shifted by off, or 0 in a new column (also lines 930-932 of TransitionTemperedOSRW.java) |
| TransitionTempered.EmbedRows | modules/algorithms/src/main/java/ffx/algorithms/osrw/TransitionTemperedOSRW.java:897-905 | the new array has the old rows plus off+extra columns, and holds exactly the grown histogram (also lines 926-932 of TransitionTemperedOSRW.java) |
| TransitionTempered.NewZeroTable | modules/algorithms/src/main/java/ffx/algorithms/osrw/TransitionTemperedOSRW.java:230 | a freshly allocated histogram array holds the cleared histogram (also line 1199 of TransitionTemperedOSRW.java) |
| TransitionTempered.TemperOffsetFor | modules/algorithms/src/main/java/ffx/algorithms/osrw/TransitionTemperedOSRW.java:287-299 | an absent or unparsable property gives 1. A negative value is raised to 0, so the offset is never negative |
| TransitionTempered.IntegrationTypeFor | modules/algorithms/src/main/java/ffx/algorithms/osrw/TransitionTemperedOSRW.java:301-309 | the upper-cased property when it names an integration type, and SIMPSONS otherwise |
| TransitionTempered.AccumulateBins | modules/algorithms/src/main/java/ffx/algorithms/osrw/TransitionTemperedOSRW.java:992-1015 | the loop over the populated window yields the ensemble-average sum, the partition sum and the maximum bias of that window |
| TransitionTempered.FoldStats | modules/algorithms/src/main/java/ffx/algorithms/osrw/TransitionTemperedOSRW.java:1019-1034 | fills F(lambda) bin by bin and yields the width-weighted free energy and the minimum bias (also lines 1016-1018 of TransitionTemperedOSRW.java) |
| TransitionTempered.GrowUpperBins | modules/algorithms/src/main/java/ffx/algorithms/osrw/TransitionTemperedOSRW.java:893-896 | the growth loop yields the upper-bin search |
| TransitionTempered.GrowLowerOffset | modules/algorithms/src/main/java/ffx/algorithms/osrw/TransitionTemperedOSRW.java:920-923 | the growth loop yields the lower-offset search starting at 100 |
| TransitionTempered.AddToCell | modules/algorithms/src/main/java/ffx/algorithms/osrw/TransitionTemperedOSRW.java:1205 | adding the weight in place gives the AddWeight histogram (also line 1359 of TransitionTemperedOSRW.java) |
| TransitionTempered.TableOf | modules/algorithms/src/main/java/ffx/algorithms/osrw/TransitionTemperedOSRW.java:1454-1461 | a fresh array holding the given histogram |
| TransitionTempered.RequiredRangeOf | modules/algorithms/src/main/java/ffx/algorithms/osrw/TransitionTemperedOSRW.java:1168-1173 | the scan of the gathered counts yields the corrected required range |
| TransitionTempered.TransitionTemperedOSRW.FirstCountedBin | modules/algorithms/src/main/java/ffx/algorithms/osrw/TransitionTemperedOSRW.java:963-970 | the first populated dU/dL bin of the row, or -1 |
| TransitionTempered.TransitionTemperedOSRW.LastCountedBin | modules/algorithms/src/main/java/ffx/algorithms/osrw/TransitionTemperedOSRW.java:972-979 | the last populated dU/dL bin of the row, or -1 |
| TransitionTempered.TransitionTemperedOSRW.KernelRowValues | modules/algorithms/src/main/java/ffx/algorithms/osrw/TransitionTemperedOSRW.java:995 | the kernel value of every dU/dL bin of the row (also lines 812-865 of TransitionTemperedOSRW.java) |
| TransitionTempered.TransitionTemperedOSRW.BinStatOf | modules/algorithms/src/main/java/ffx/algorithms/osrw/TransitionTemperedOSRW.java:957-1021 | the statistics of one lambda bin |
| TransitionTempered.TransitionTemperedOSRW.CollectStats | modules/algorithms/src/main/java/ffx/algorithms/osrw/TransitionTemperedOSRW.java:956-1034 | the statistics of every lambda bin |
| TransitionTempered.TransitionTemperedOSRW.UpdateFLambda | modules/algorithms/src/main/java/ffx/algorithms/osrw/TransitionTemperedOSRW.java:949-1051 | leaves the histogram unchanged and fills F(lambda) bin by bin. It returns the width-weighted free energy and, while tempering, sets the weight from the minimum bias |
| TransitionTempered.TransitionTemperedOSRW.Temper | modules/algorithms/src/main/java/ffx/algorithms/osrw/TransitionTemperedOSRW.java:1048-1051 | while tempering, the weight becomes exp(TemperEnergy/deltaT). Otherwise it is unchanged |
| TransitionTempered.TransitionTemperedOSRW.StateFits | modules/algorithms/src/main/java/ffx/algorithms/osrw/TransitionTemperedOSRW.java:886-940 | the class invariant makes the histogram fit its geometry |
| TransitionTempered.TransitionTemperedOSRW.constructor | modules/algorithms/src/main/java/ffx/algorithms/osrw/TransitionTemperedOSRW.java:217-317 | the geometry of LambdaAxisFor and InitialFLambdaAxis, with a cleared histogram and zero kernel offsets. Tempering is on with weight 1, deltaT = 8*R*T, the count interval is 10 and energyCount is -1. The frequencies, the temper offset and the integration type come from their parsers |
| TransitionTempered.TransitionTemperedOSRW.SetCountInterval | modules/algorithms/src/main/java/ffx/algorithms/osrw/AbstractOSRW.java:878-884 | takes a positive interval and ignores any other, leaving the histogram unchanged |
| TransitionTempered.TransitionTemperedOSRW.SetTemperingParameter | modules/algorithms/src/main/java/ffx/algorithms/osrw/TransitionTemperedOSRW.java:1135-1142 | deltaT is temper*R*T for a positive parameter and Double.MAX_VALUE otherwise. The histogram is unchanged |
| TransitionTempered.TransitionTemperedOSRW.CheckRecursionKernelSize | modules/algorithms/src/main/java/ffx/algorithms/osrw/TransitionTemperedOSRW.java:886-940 | the walker afterwards is Resize of the walker before, so the sample is covered and the statistics are kept; a sample already on the axis leaves FLambda and the tempering weight alone, and one off it leaves them as updateFLambda sets them for the walker before the resize |
| TransitionTempered.TransitionTemperedOSRW.Grow | modules/algorithms/src/main/java/ffx/algorithms/osrw/TransitionTemperedOSRW.java:887-939 | for a sample off the axis, the walker afterwards is Resize of the walker before, in a fresh kernel |
| TransitionTempered.TransitionTemperedOSRW.Refresh | modules/algorithms/src/main/java/ffx/algorithms/osrw/TransitionTemperedOSRW.java:891 | the updateFLambda(false) of a growing branch: the walker is unchanged and FLambda and the weight are what updateFLambda sets for it (also line 918) |
| TransitionTempered.TransitionTemperedOSRW.RefreshedResize | modules/algorithms/src/main/java/ffx/algorithms/osrw/TransitionTemperedOSRW.java:911 | what updateFLambda leaves after a resize is what it leaves before it, as the source's assert on the free energy expects (also line 939) |
| TransitionTempered.TransitionTemperedOSRW.WidenKernel | modules/algorithms/src/main/java/ffx/algorithms/osrw/TransitionTemperedOSRW.java:897-906 | the histogram gains off+extra bins and holds the grown histogram (also lines 924-935 of TransitionTemperedOSRW.java) |
| TransitionTempered.TransitionTemperedOSRW.GrowAbove | modules/algorithms/src/main/java/ffx/algorithms/osrw/TransitionTemperedOSRW.java:887-911 | growth above: the new bins are GrowthFor's, added at the top, with the counts kept in place |
| TransitionTempered.TransitionTemperedOSRW.GrowBelow | modules/algorithms/src/main/java/ffx/algorithms/osrw/TransitionTemperedOSRW.java:914-939 | growth below: the new bins are GrowthFor's, added at the bottom, with the counts shifted up by the offset |
| TransitionTempered.TransitionTemperedOSRW.AddCountInPlace | modules/algorithms/src/main/java/ffx/algorithms/osrw/TransitionTemperedOSRW.java:1336-1359 | merging a covered count in place gives AddCount of the old walker |
| TransitionTempered.TransitionTemperedOSRW.LatchAndReset | modules/algorithms/src/main/java/ffx/algorithms/osrw/TransitionTemperedOSRW.java:1194-1201 | tempering latches on for a weight below 1. The histogram is cleared once when lambda passes the reset value (also lines 1344-1353 of TransitionTemperedOSRW.java) |
| TransitionTempered.TransitionTemperedOSRW.MergeCount | modules/algorithms/src/main/java/ffx/algorithms/osrw/TransitionTemperedOSRW.java:1330-1359 | one receive-loop iteration leaves the walker at MergeStep of the old walker and count; when the count lies off the axis, FLambda and the weight are what updateFLambda sets for the walker before it, and otherwise they are unchanged |
| TransitionTempered.TransitionTemperedOSRW.ReceiveLoop | modules/algorithms/src/main/java/ffx/algorithms/osrw/TransitionTemperedOSRW.java:1306-1370 | after the receive thread's loop the walker is ReceiveAll of the old walker and the messages, and the tempering weight has not moved unless tempering is on |
| TransitionTempered.TransitionTemperedOSRW.SynchronousSend | modules/algorithms/src/main/java/ffx/algorithms/osrw/TransitionTemperedOSRW.java:1151-1207 | after the all-gather and the merge, the walker is SyncMerge of the gathered counts over their corrected range; FLambda and the weight are unchanged when the old axis covers that range, and are what updateFLambda sets for the old walker otherwise |
| TransitionTempered.TransitionTemperedOSRW.MergeGathered | modules/algorithms/src/main/java/ffx/algorithms/osrw/TransitionTemperedOSRW.java:1179-1206 | grows for the range, then adds the counts: SyncMerge; FLambda and the weight as GrowToCover leaves them |
| TransitionTempered.TransitionTemperedOSRW.GrowToCover | modules/algorithms/src/main/java/ffx/algorithms/osrw/TransitionTemperedOSRW.java:1179-1180 | the two resizes for the range's ends; unless the old axis covers both ends, FLambda and the weight are what updateFLambda sets for the old walker |
| TransitionTempered.TransitionTemperedOSRW.AddCounts | modules/algorithms/src/main/java/ffx/algorithms/osrw/TransitionTemperedOSRW.java:1185-1206 | adding every gathered count gives AddAll |
| TransitionTempered.TransitionTemperedOSRW.RowTokens | modules/algorithms/src/main/java/ffx/algorithms/osrw/TransitionTemperedOSRW.java:1395-1400 | the tokens of row i are RowLine of that histogram row |
| TransitionTempered.TransitionTemperedOSRW.WriteHistogramFile | modules/algorithms/src/main/java/ffx/algorithms/osrw/TransitionTemperedOSRW.java:1379-1401 | writes the WriteHistogram lines of the walker's current histogram |
| TransitionTempered.TransitionTemperedOSRW.ReadHistogramFile | modules/algorithms/src/main/java/ffx/algorithms/osrw/TransitionTemperedOSRW.java:1431-1464 | succeeds iff the file parses and is usable. The walker then holds the file's histogram with consistent axes, fresh arrays and zero offsets. Otherwise nothing changes |
| TransitionTempered.TransitionTemperedOSRW.ApplyHistogram | modules/algorithms/src/main/java/ffx/algorithms/osrw/TransitionTemperedOSRW.java:1433-1461 | installs the histogram and the axes |
| TransitionTempered.TransitionTemperedOSRW.SetArrays | modules/algorithms/src/main/java/ffx/algorithms/osrw/TransitionTemperedOSRW.java:1440 | fresh histogram, offset and F(lambda) arrays of the file's shape (also lines 1454, 232 of TransitionTemperedOSRW.java) |
| TransitionTempered.TransitionTemperedOSRW.SetRecorded | modules/algorithms/src/main/java/ffx/algorithms/osrw/TransitionTemperedOSRW.java:1433-1453 | the recorded scalars and the tempering flag take the file's values |
| TransitionTempered.TransitionTemperedOSRW.SetAxes | modules/algorithms/src/main/java/ffx/algorithms/osrw/TransitionTemperedOSRW.java:1439-1448 | the axis fields take the given axes |
| TransitionTempered.TransitionTemperedOSRW.WriteLambdaFile | modules/algorithms/src/main/java/ffx/algorithms/osrw/TransitionTemperedOSRW.java:1415-1419 | writes the WriteLambda lines of lambda, its velocity and the step count |
| TransitionTempered.TransitionTemperedOSRW.ReadLambdaFile | modules/algorithms/src/main/java/ffx/algorithms/osrw/TransitionTemperedOSRW.java:1482-1501 | each value the file supplies replaces the walker's. The histogram is unchanged |
| TransitionTempered.TransitionTemperedOSRW.Energy | modules/algorithms/src/main/java/ffx/algorithms/osrw/AbstractOSRW.java:1079-1097 | returns the energy evaluated with lambda propagation switched off, and restores the propagation flag |
| GaussOverlap.Diff | modules/potential/src/main/java/ffx/potential/nonbonded/GaussVol.java:577 | the componentwise difference of two positions |
| GaussOverlap.Scale | modules/potential/src/main/java/ffx/potential/nonbonded/GaussVol.java:578 | a position scaled componentwise |
| GaussOverlap.SameShapeLinked | modules/potential/src/main/java/ffx/potential/nonbonded/GaussVol.java:413-507 | the tree links depend only on the index fields, so two trees with the same shape are both linked or both not |
| GaussOverlap.AtomNode | modules/potential/src/main/java/ffx/potential/nonbonded/GaussVol.java:438-455 | slot iat+1 is a level-1 leaf under the root for atom iat. Its volume is 0 for a hydrogen and the atom's volume otherwise, and its gamma is the atom's gamma |
| GaussOverlap.InitialTree | modules/potential/src/main/java/ffx/potential/nonbonded/GaussVol.java:414-459 | the initial tree is the root followed by one leaf per atom, in atom order |
| GaussOverlap.InitialTreeLinked | modules/potential/src/main/java/ffx/potential/nonbonded/GaussVol.java:414-459 | the initial tree is well linked: the root's children are exactly the atom slots, and each atom's parent is the root |
| GaussOverlap.Adopted | modules/potential/src/main/java/ffx/potential/nonbonded/GaussVol.java:466-507 | addChildren appends the children after the current tree. It points the parent at them and files each child one level below the parent with no children. No other slot changes |
| GaussOverlap.AdoptedLinked | modules/potential/src/main/java/ffx/potential/nonbonded/GaussVol.java:466-507 | adding children to a childless node keeps the tree linked |
| GaussOverlap.AsWrittenSiblingTestNeverFires | modules/potential/src/main/java/ffx/potential/nonbonded/GaussVol.java:546 | the source's sibling test with && can never hold. The corrected test with \|\| rejects exactly a node outside its parent's children, e.g. node 1 against children 3..4 |
| GaussOverlap.Candidate | modules/potential/src/main/java/ffx/potential/nonbonded/GaussVol.java:551-584 | the overlap of node r with the atom of sibling j records that atom. Its gamma is the sum of r's gamma and the atom's gamma, and its self volume starts at 0 |
| GaussOverlap.KeptBound | modules/potential/src/main/java/ffx/potential/nonbonded/GaussVol.java:549-586 | the scan keeps at most one child per younger sibling |
| GaussOverlap.KeptElement | modules/potential/src/main/java/ffx/potential/nonbonded/GaussVol.java:549-586 | every kept child is the candidate of some younger sibling and has volume above MIN_GVOL |
| GaussOverlap.KeptFromSiblings | modules/potential/src/main/java/ffx/potential/nonbonded/GaussVol.java:549-586 | every kept child comes from a younger sibling, has volume above MIN_GVOL, and has the summed gamma |
| GaussOverlap.KeptComplete | modules/potential/src/main/java/ffx/potential/nonbonded/GaussVol.java:549-586 | every younger sibling whose candidate is kept appears among the children |
| GaussOverlap.SiblingsNamed | modules/potential/src/main/java/ffx/potential/nonbonded/GaussVol.java:536-549 | in a linked tree a node's parent precedes it and its younger siblings lie within the parent's children, each naming an atom |
| GaussOverlap.ChildrenOf | modules/potential/src/main/java/ffx/potential/nonbonded/GaussVol.java:517-534 | the master root and nodes at MAX_ORDER get no children and return 1 |
| GaussOverlap.ChildrenOfLinked | modules/potential/src/main/java/ffx/potential/nonbonded/GaussVol.java:517-588 | in a linked tree the scan of a non-root node below MAX_ORDER returns 1 with exactly the kept candidates of its younger siblings |
| GaussOverlap.ChildrenOfAtoms | modules/potential/src/main/java/ffx/potential/nonbonded/GaussVol.java:561-573 | every child found names an atom |
| GaussOverlap.KeptAtoms | modules/potential/src/main/java/ffx/potential/nonbonded/GaussVol.java:561-573 | every kept candidate names an atom |
| GaussOverlap.Bare | modules/potential/src/main/java/ffx/potential/nonbonded/GaussVol.java:496-497 | a filed child starts with no children |
| GaussOverlap.CandidateStable | modules/potential/src/main/java/ffx/potential/nonbonded/GaussVol.java:551-584 | appending to the tree does not change a candidate of existing slots |
| GaussOverlap.KeptStable | modules/potential/src/main/java/ffx/potential/nonbonded/GaussVol.java:549-586 | appending to the tree does not change the children found for existing slots |
| GaussOverlap.ChildrenOfStable | modules/potential/src/main/java/ffx/potential/nonbonded/GaussVol.java:517-588 | with the parent's child range unchanged, the children found for a node are unchanged |
| GaussOverlap.SettledStable | modules/potential/src/main/java/ffx/potential/nonbonded/GaussVol.java:596-607 | a node whose children are filed stays so as the tree grows |
| GaussOverlap.ExtendsTrans | modules/potential/src/main/java/ffx/potential/nonbonded/GaussVol.java:466-507 | growing the tree twice is growing it once |
| GaussOverlap.SettledAfterSettling | modules/potential/src/main/java/ffx/potential/nonbonded/GaussVol.java:596-607 | settling one node keeps every other settled node settled |
| GaussOverlap.AdoptedSettles | modules/potential/src/main/java/ffx/potential/nonbonded/GaussVol.java:596-607 | filing a node's children keeps the tree linked and extends it. The node is settled, and the new children are childless one level down |
| GaussOverlap.GrowingStep | modules/potential/src/main/java/ffx/potential/nonbonded/GaussVol.java:602-604 | the recursive build advances its invariant from one child to the next |
| GaussPaths.Slots | modules/potential/src/main/java/ffx/potential/nonbonded/GaussVol.java:270-278 | the set of slots 0..m-1, of size m |
| GaussPaths.AncBefore | modules/potential/src/main/java/ffx/potential/nonbonded/GaussVol.java:466-507 | an ancestor always sits at a lower slot than its descendant, because children are appended after their parent |
| GaussPaths.AncTrans | modules/potential/src/main/java/ffx/potential/nonbonded/GaussVol.java:466-507 | ancestry is transitive |
| GaussPaths.AncLinear | modules/potential/src/main/java/ffx/potential/nonbonded/GaussVol.java:466-507 | two ancestors of one node are ancestors of each other or equal: each node has one parent path |
| GaussPaths.ChildWithin | modules/potential/src/main/java/ffx/potential/nonbonded/GaussVol.java:974-984 | a node below a child is below the parent |
| GaussPaths.AncViaChild | modules/potential/src/main/java/ffx/potential/nonbonded/GaussVol.java:974-984 | a proper descendant of a node lies in the subtree of exactly one of its children |
| GaussPaths.NotAncOfSibling | modules/potential/src/main/java/ffx/potential/nonbonded/GaussVol.java:974-984 | one sibling is never an ancestor of another |
| GaussPaths.SiblingsDisjoint | modules/potential/src/main/java/ffx/potential/nonbonded/GaussVol.java:974-984 | the subtrees of two siblings are disjoint |
| GaussPaths.BelowRoot | modules/potential/src/main/java/ffx/potential/nonbonded/GaussVol.java:414-459 | every slot but the root lies below the root |
| GaussPaths.SubtreeSplit | modules/potential/src/main/java/ffx/potential/nonbonded/GaussVol.java:974-984 | a subtree is its root plus the disjoint forest of its children's subtrees |
| GaussPaths.ForestSplit | modules/potential/src/main/java/ffx/potential/nonbonded/GaussVol.java:977-982 | the children's forest grows by one disjoint subtree per child |
| GaussPaths.DisjointUnionCard | modules/potential/src/main/java/ffx/potential/nonbonded/GaussVol.java:977-982 | sizes of disjoint sets add up |
| GaussPaths.RootSubtreeIsAll | modules/potential/src/main/java/ffx/potential/nonbonded/GaussVol.java:414-459 | the root's subtree is every slot |
| GaussPaths.CountIsSubtree | modules/potential/src/main/java/ffx/potential/nonbonded/GaussVol.java:974-984 | nchildrenUnderSlotR of a slot, plus one, is the size of its subtree |
| GaussPaths.CountRangeIsForest | modules/potential/src/main/java/ffx/potential/nonbonded/GaussVol.java:977-982 | the counts over a range of children, plus one per child, are the size of their forest |
| GaussPaths.RootCountIsAll | modules/potential/src/main/java/ffx/potential/nonbonded/GaussVol.java:974-984 | the root counts every other slot below it |
| GaussPaths.StatsCountEveryOverlap | modules/potential/src/main/java/ffx/potential/nonbonded/GaussVol.java:270-278 | the per-atom counts of getStats add up to every overlap beyond the atoms themselves |
| GaussVolume.PolSwitch | modules/potential/src/main/java/ffx/potential/nonbonded/GaussVol.java:996-1020 | the switch is fully on, 1 with slope 0, above volminb, and off, 0 with slope 0, below volmina |
| GaussVolume.Smoothstep | modules/potential/src/main/java/ffx/potential/nonbonded/GaussVol.java:1009-1013 | on [0,1] the quintic 10u^3-15u^4+6u^5 stays in [0,1] and its slope is non-negative |
| GaussVolume.PolSwitchBounds | modules/potential/src/main/java/ffx/potential/nonbonded/GaussVol.java:996-1020 | the switch value always lies in [0,1] and its slope is never negative |
| GaussVolume.UnitScale | modules/potential/src/main/java/ffx/potential/nonbonded/GaussVol.java:1008-1009 | between the two thresholds the switch variable runs over [0,1] |
| GaussVolume.UnitAtEnds | modules/potential/src/main/java/ffx/potential/nonbonded/GaussVol.java:1008-1009 | the switch variable is 0 at volmina and 1 at volminb |
| GaussVolume.QuinticAtZero | modules/potential/src/main/java/ffx/potential/nonbonded/GaussVol.java:1012-1013 | the quintic and its slope vanish at 0, so the switch joins the off branch smoothly |
| GaussVolume.QuinticAtOne | modules/potential/src/main/java/ffx/potential/nonbonded/GaussVol.java:1012 | the quintic reaches 1 at 1, so the switch joins the on branch |
| GaussVolume.QuinticSlopeAtOne | modules/potential/src/main/java/ffx/potential/nonbonded/GaussVol.java:1013 | the slope vanishes at 1 |
| GaussVolume.Plus3 | modules/potential/src/main/java/ffx/potential/nonbonded/GaussVol.java:1083 | the componentwise sum of two vectors |
| GaussVolume.OgaussAlpha | modules/potential/src/main/java/ffx/potential/nonbonded/GaussVol.java:1047-1095 | the overlap Gaussian's exponent is the sum of the two exponents |
| GaussVolume.DfSymmetric | modules/potential/src/main/java/ffx/potential/nonbonded/GaussVol.java:1064 | the reduced exponent a1*a2/(a1+a2) is symmetric |
| GaussVolume.Dist2Symmetric | modules/potential/src/main/java/ffx/potential/nonbonded/GaussVol.java:1057-1058 | the squared distance is symmetric |
| GaussVolume.ExponentSymmetric | modules/potential/src/main/java/ffx/potential/nonbonded/GaussVol.java:1066 | the Gaussian exponent -df*d2 is symmetric |
| GaussVolume.RawVolumeSymmetric | modules/potential/src/main/java/ffx/potential/nonbonded/GaussVol.java:1067 | the unswitched overlap volume is symmetric in its two Gaussians |
| GaussVolume.CentreSymmetric | modules/potential/src/main/java/ffx/potential/nonbonded/GaussVol.java:1077-1083 | the overlap centre is symmetric |
| GaussVolume.OgaussAlphaSymmetric | modules/potential/src/main/java/ffx/potential/nonbonded/GaussVol.java:1047-1095 | overlapping g1 with g2 gives the same Gaussian, volume, radial derivative and switch derivative as g2 with g1 |
| GaussVolume.OgaussAlphaBounds | modules/potential/src/main/java/ffx/potential/nonbonded/GaussVol.java:1047-1095 | the switched volume lies between 0 and the unswitched volume. The overlap centre is the exponent-weighted mean of the two centres |
| GaussVolume.RawVolumeNonneg | modules/potential/src/main/java/ffx/potential/nonbonded/GaussVol.java:1067 | the unswitched overlap volume is non-negative for non-negative atom volumes |
| GaussVolume.CentreIsWeightedMean | modules/potential/src/main/java/ffx/potential/nonbonded/GaussVol.java:1077-1083 | the overlap centre times a1+a2 is a1*c1 + a2*c2 |
| GaussVolume.VolCoeff | modules/potential/src/main/java/ffx/potential/nonbonded/GaussVol.java:654-655 | the inclusion-exclusion sign is +1 at odd levels, -1 at even levels and 0 at the root |
| GaussVolume.SelfCoeff | modules/potential/src/main/java/ffx/potential/nonbonded/GaussVol.java:656 | the self-volume coefficient times the level is the volume coefficient, and it is 0 at the root |
| GaussVolume.Add | modules/potential/src/main/java/ffx/potential/nonbonded/GaussVol.java:694-704 | subtree accumulators add componentwise |
| GaussVolume.Passed | modules/potential/src/main/java/ffx/potential/nonbonded/GaussVol.java:745-748 | the sums passed to the parent are the subtree sums. Only the derivative factors are rescaled by dvv1 |
| GaussVolume.Single | modules/potential/src/main/java/ffx/potential/nonbonded/GaussVol.java:710-711 | a contribution to one atom's entry only |
| GaussVolume.AddSeq | modules/potential/src/main/java/ffx/potential/nonbonded/GaussVol.java:710-711 | per-atom contributions add entry by entry |
| GaussVolume.CreditsAt | modules/potential/src/main/java/ffx/potential/nonbonded/GaussVol.java:646-753 | each atom's share of a subtree's contributions is its per-entry credit |
| GaussVolume.CreditRangeAtIs | modules/potential/src/main/java/ffx/potential/nonbonded/GaussVol.java:679-705 | the same over a range of children |
| GaussVolume.LinkedLeveled | modules/potential/src/main/java/ffx/potential/nonbonded/GaussVol.java:466-507 | in a linked tree each child sits one level below its parent |
| GaussVolume.SumAddSeq | modules/potential/src/main/java/ffx/potential/nonbonded/GaussVol.java:710-711 | sums of per-atom arrays add |
| GaussVolume.SumSingle | modules/potential/src/main/java/ffx/potential/nonbonded/GaussVol.java:710-711 | one atom's contribution sums to itself |
| GaussVolume.SumZeros | modules/potential/src/main/java/ffx/potential/nonbonded/GaussVol.java:787-789 | cleared arrays sum to 0 |
| GaussVolume.CreditsAddUp | modules/potential/src/main/java/ffx/potential/nonbonded/GaussVol.java:646-753 | the per-atom credits of a subtree add up to its credited total |
| GaussVolume.CreditRangeAddsUp | modules/potential/src/main/java/ffx/potential/nonbonded/GaussVol.java:679-705 | the same over a range of children |
| GaussVolume.CopiesIsProduct | modules/potential/src/main/java/ffx/potential/nonbonded/GaussVol.java:656 | adding p m times is p*m |
| GaussVolume.CopiesAdd | modules/potential/src/main/java/ffx/potential/nonbonded/GaussVol.java:656 | repeated addition distributes over a sum |
| GaussVolume.CreditedIsLevelSum | modules/potential/src/main/java/ffx/potential/nonbonded/GaussVol.java:646-753 | the self volumes credited in a subtree are its level-weighted volume minus the copies passed to ancestors |
| GaussVolume.CreditedRangeIsLevelSum | modules/potential/src/main/java/ffx/potential/nonbonded/GaussVol.java:679-705 | the same over a range of children |
| GaussVolume.LevelSumIsVolume | modules/potential/src/main/java/ffx/potential/nonbonded/GaussVol.java:646-753 | the level-weighted sum of a subtree equals its signed volume sum |
| GaussVolume.OwnSelfTimesLevel | modules/potential/src/main/java/ffx/potential/nonbonded/GaussVol.java:663-668 | a node's self-volume term times its level is its volume term |
| GaussVolume.LevelSumRangeIsVolume | modules/potential/src/main/java/ffx/potential/nonbonded/GaussVol.java:679-705 | the same over a range of children |
| GaussVolume.SelfVolumesAddUpToVolume | modules/potential/src/main/java/ffx/potential/nonbonded/GaussVol.java:767-798 | the atoms' self volumes add up to the total molecular volume |
| GaussTree.GaussianOverlapTree.constructor | modules/potential/src/main/java/ffx/potential/nonbonded/GaussVol.java:401-403 | a tree for nAtoms atoms with no overlaps yet |
| GaussTree.GaussianOverlapTree.InitOverlapTree | modules/potential/src/main/java/ffx/potential/nonbonded/GaussVol.java:414-459 | the list becomes the initial tree, which is linked |
| GaussTree.GaussianOverlapTree.AddChildren | modules/potential/src/main/java/ffx/potential/nonbonded/GaussVol.java:466-507 | returns the old list size as the first child slot and files the children under the parent as Adopted describes |
| GaussTree.GaussianOverlapTree.ComputeChildren | modules/potential/src/main/java/ffx/potential/nonbonded/GaussVol.java:517-588 | returns the status and the children that ChildrenOf specifies: none for the root or at MAX_ORDER, else the kept overlaps with the younger siblings |
| GaussTree.GaussianOverlapTree.ComputeAndAddChildrenR | modules/potential/src/main/java/ffx/potential/nonbonded/GaussVol.java:596-607 | extends the tree and keeps it linked. The node and every overlap added below it end settled: their children are exactly ChildrenOf's |
| GaussTree.GaussianOverlapTree.ComputeOverlapTreeR | modules/potential/src/main/java/ffx/potential/nonbonded/GaussVol.java:617-624 | the built tree extends the initial tree, keeps the root, and is complete: every node's children are exactly the kept overlaps |
| GaussTree.GaussianOverlapTree.NChildrenUnderSlotR | modules/potential/src/main/java/ffx/potential/nonbonded/GaussVol.java:974-984 | returns the number of overlaps strictly below the slot |
| GaussTree.GaussianOverlapTree.RescanR | modules/potential/src/main/java/ffx/potential/nonbonded/GaussVol.java:810-852 | after rescanning a slot, every node of its subtree holds its target value: merged again from the parent and its atom for volumes, or the summed gammas. Nodes already done stay correct (also lines 908-928 of GaussVol.java) |
| GaussTree.GaussianOverlapTree.RescanTreeV | modules/potential/src/main/java/ffx/potential/nonbonded/GaussVol.java:864-900 | keeps the shape. Every node becomes its target after the root and atoms are reset from the new positions, radii and volumes |
| GaussTree.GaussianOverlapTree.ResetTreeV | modules/potential/src/main/java/ffx/potential/nonbonded/GaussVol.java:867-895 | the root and atom slots are reset as ResetV describes |
| GaussTree.GaussianOverlapTree.RescanTreeG | modules/potential/src/main/java/ffx/potential/nonbonded/GaussVol.java:936-950 | keeps the shape. Every node's gamma becomes its target after the atom gammas are reset |
| GaussTree.GaussianOverlapTree.ResetTreeG | modules/potential/src/main/java/ffx/potential/nonbonded/GaussVol.java:938-946 | the root and atom gammas are reset as ResetG describes |
| GaussTree.GaussianOverlapTree.ComputeVolumeUnderSlot2R | modules/potential/src/main/java/ffx/potential/nonbonded/GaussVol.java:646-753 | returns the slot's subtree sums, with derivative factors rescaled by dvv1. It adds the subtree's per-atom free volume, self volume and volume derivative to each atom's entry |
| GaussTree.GaussianOverlapTree.ChildrenUnderSlot2R | modules/potential/src/main/java/ffx/potential/nonbonded/GaussVol.java:678-705 | the children's sums, added in slot order, and each array entry raised by exactly the credits of those children's subtrees |
| GaussTree.GaussianOverlapTree.ComputeVolume2R | modules/potential/src/main/java/ffx/potential/nonbonded/GaussVol.java:767-800 | the volume and energy are the tree totals. The per-atom arrays are the tree's credits, and the self volumes add up to the volume |
| GaussRescan.Refresh | modules/potential/src/main/java/ffx/potential/nonbonded/GaussVol.java:816-843 | a refreshed node keeps its place in the tree and its self volume. Its gamma becomes the parent's gamma plus its atom's gamma. A gamma rescan changes nothing else (also lines 914-919 of GaussVol.java) |
| GaussRescan.Target | modules/potential/src/main/java/ffx/potential/nonbonded/GaussVol.java:810-852 | the value a rescan must leave in each node keeps that node's shape |
| GaussRescan.AgreesLinked | modules/potential/src/main/java/ffx/potential/nonbonded/GaussVol.java:810-852 | a partly rescanned tree keeps the shape of the tree it started from |
| GaussRescan.AtomReset | modules/potential/src/main/java/ffx/potential/nonbonded/GaussVol.java:880-894 | an atom slot is reset to level 1, the atom's Gaussian and the atom's gamma |
| GaussRescan.ResetV | modules/potential/src/main/java/ffx/potential/nonbonded/GaussVol.java:867-895 | rescanTreeV resets the root and every atom slot and leaves the higher overlaps for rescanR |
| GaussRescan.ResetG | modules/potential/src/main/java/ffx/potential/nonbonded/GaussVol.java:938-946 | rescanTreeG sets the root's gamma to 0 and each atom's gamma to the new one, leaving other slots alone |
| GaussRescan.ResetVLinked | modules/potential/src/main/java/ffx/potential/nonbonded/GaussVol.java:864-900 | resetting the atoms keeps the tree's shape and links |
| GaussRescan.ResetGLinked | modules/potential/src/main/java/ffx/potential/nonbonded/GaussVol.java:936-950 | resetting the gammas keeps the tree's shape and links |
| GaussRescan.RefreshIsTarget | modules/potential/src/main/java/ffx/potential/nonbonded/GaussVol.java:816-843 | once a node's ancestors are rescanned, refreshing it from its parent and atom gives its target |
| GaussRescan.ChildReady | modules/potential/src/main/java/ffx/potential/nonbonded/GaussVol.java:846-848 | before the recursive call on a child, all its ancestors are done and its subtree is not |
| GaussRescan.RescanStarts | modules/potential/src/main/java/ffx/potential/nonbonded/GaussVol.java:816-843 | after the node's own refresh, it and none of its children are done |
| GaussRescan.RescanEnds | modules/potential/src/main/java/ffx/potential/nonbonded/GaussVol.java:846-850 | after the child loop, the whole subtree is done |
| GaussRescan.RescanDone | modules/potential/src/main/java/ffx/potential/nonbonded/GaussVol.java:897 | once the root's subtree is done, every node holds its target and the shape is kept (also line 948 of GaussVol.java) |
| GaussRescan.SameShapeTrans | modules/potential/src/main/java/ffx/potential/nonbonded/GaussVol.java:810-852 | keeping the shape twice keeps it |
| GaussRescan.SettledChild | modules/potential/src/main/java/ffx/potential/nonbonded/GaussVol.java:566-584 | a child filed by the build is the kept candidate of its parent with some sibling's atom |
| GaussRescan.BuiltTreeIsFixpoint | modules/potential/src/main/java/ffx/potential/nonbonded/GaussVol.java:810-852 | rescanning an unchanged built tree changes nothing: every node already equals its target |
| GaussRescan.BuiltTreeResetsToItself | modules/potential/src/main/java/ffx/potential/nonbonded/GaussVol.java:864-900 | resetting a freshly built tree with the same atoms gives the same tree (also lines 936-950 of GaussVol.java) |
| GaussRescan.TargetGammaIsPathSum | modules/potential/src/main/java/ffx/potential/nonbonded/GaussVol.java:914-919 | after a rescan, a node's gamma is the sum of the atom gammas along its path to the root |
| GaussRescan.RescannedGammaIsPathSum | modules/potential/src/main/java/ffx/potential/nonbonded/GaussVol.java:864-950 | both rescanTreeG and rescanTreeV leave each node's gamma equal to the sum of the new atom gammas along its path |
| GaussVolDriver.ScaledGradient | modules/potential/src/main/java/ffx/potential/nonbonded/GaussVol.java:241-245 | each volume derivative is divided by the atom's volume when that volume is positive, and kept otherwise |
| GaussVolDriver.GaussVol.constructor | modules/potential/src/main/java/ffx/potential/nonbonded/GaussVol.java:126-136 | radii 1, volumes 0 and gammas 0 for every atom, with an empty tree whose merge is ogaussAlpha |
| GaussVolDriver.GaussVol.WithParameters | modules/potential/src/main/java/ffx/potential/nonbonded/GaussVol.java:147-155 | keeps the given radii, volumes and gammas, with an empty tree whose merge is ogaussAlpha |
| GaussVolDriver.GaussVol.SetRadii | modules/potential/src/main/java/ffx/potential/nonbonded/GaussVol.java:165-172 | takes the radii and returns nAtoms exactly when their count matches. Otherwise it is an error that changes nothing. The other arrays are unchanged |
| GaussVolDriver.GaussVol.SetVolumes | modules/potential/src/main/java/ffx/potential/nonbonded/GaussVol.java:181-188 | the same for the volumes |
| GaussVolDriver.GaussVol.SetGammas | modules/potential/src/main/java/ffx/potential/nonbonded/GaussVol.java:197-204 | the same for the gammas |
| GaussVolDriver.GaussVol.ComputeTree | modules/potential/src/main/java/ffx/potential/nonbonded/GaussVol.java:212-214 | the tree is complete and extends the initial tree of the current atoms |
| GaussVolDriver.GaussVol.ComputeVolume | modules/potential/src/main/java/ffx/potential/nonbonded/GaussVol.java:230-247 | the volume and energy are the tree totals. The free and self volumes are the per-atom credits, and the self volumes add up to the volume. The volume gradient is the per-atom derivative scaled by the atom volume |
| GaussVolDriver.GaussVol.RescanTreeVolumes | modules/potential/src/main/java/ffx/potential/nonbonded/GaussVol.java:254-256 | every node becomes its rescan target for the new positions and the current parameters, and the shape is kept |
| GaussVolDriver.GaussVol.RescanTreeGammas | modules/potential/src/main/java/ffx/potential/nonbonded/GaussVol.java:261-263 | every node's gamma becomes its rescan target for the current gammas, and the shape is kept |
| GaussVolDriver.GaussVol.GetStats | modules/potential/src/main/java/ffx/potential/nonbonded/GaussVol.java:270-279 | a wrongly sized array is left alone. Otherwise each atom's entry is the number of overlaps below its slot |
| GaussAsWritten.AsWrittenInitOverlapTree | modules/potential/src/main/java/ffx/potential/nonbonded/GaussVol.java:414-459 | as written, initOverlapTree fails with a NullPointerException for any atom, because g is never allocated. With no atoms it files the root alone, which is the corrected tree |
| GaussAsWritten.AsWrittenInitFailsOnOneAtom | modules/potential/src/main/java/ffx/potential/nonbonded/GaussVol.java:442 | one atom already makes the as-written build throw, while the corrected tree is linked |
| GaussAsWritten.AsWrittenSharedTree | modules/potential/src/main/java/ffx/potential/nonbonded/GaussVol.java:417 | with g allocated but one shared node object, the list holds n+1 references to the last atom's node (also lines 435-455 of GaussVol.java) |
| GaussAsWritten.AsWrittenSharedTreeLosesRoot | modules/potential/src/main/java/ffx/potential/nonbonded/GaussVol.java:417 | for any atom count of at least 1, the shared-object list is not a tree, while the corrected one is (also lines 435-455 of GaussVol.java) |
| GaussAsWritten.AsWrittenChildWith | modules/potential/src/main/java/ffx/potential/nonbonded/GaussVol.java:551-578 | one younger sibling as written, merged into a given output Gaussian: nothing it returns is a child, so the as-written scan never files one (also line 1083 of GaussVol.java) |
| GaussAsWritten.AsWrittenChildAlwaysFails | modules/potential/src/main/java/ffx/potential/nonbonded/GaussVol.java:551-565 | as written, g12 is a fresh GaussianVca whose centre c is null, and ogaussAlpha writes the overlap centre into it, so every younger sibling throws a NullPointerException before the volume test, whatever its overlap volume (also line 1083 of GaussVol.java) |
| GaussAsWritten.AsWrittenDv1FailsWhereKept | modules/potential/src/main/java/ffx/potential/nonbonded/GaussVol.java:568-578 | the second defect behind the first: with g12's centre allocated, the scan still throws, on dv1, on exactly the siblings whose candidate the corrected scan keeps |
| GaussAsWritten.AsWrittenRescanFailsBelowAtoms | modules/potential/src/main/java/ffx/potential/nonbonded/GaussVol.java:817-830 | as written, rescanR merges every node below an atom into a fresh GaussianVca, so it throws on exactly the nodes whose parentIndex is positive, and leaves the root and the atoms alone (also line 1083 of GaussVol.java) |
| TitrationUtils.FirstTitrating | modules/potential/src/main/java/ffx/potential/extended/TitrationUtils.java:74-78 | the index of the first reaction, from i on, whose deprotonated or protonated form is the residue, or the end when there is none |
| TitrationUtils.TitrationLookup | modules/potential/src/main/java/ffx/potential/extended/TitrationUtils.java:69-81 | histidines (HIS, HID, HIE) give UtoH. Any other residue gives the first reaction in declaration order that has it as either form, or null when no reaction does |
| TitrationUtils.TargetName | modules/potential/src/main/java/ffx/potential/extended/TitrationUtils.java:38-39 | the target is the protonated form unless the residue already is it, and then the deprotonated form |
| TitrationUtils.FirstTitratingIs | modules/potential/src/main/java/ffx/potential/extended/TitrationUtils.java:74-78 | the scan stops at exactly the first matching reaction |
| TitrationUtils.LookupFindsEachForm | modules/potential/src/main/java/ffx/potential/extended/TitrationUtils.java:69-80 | each of the five single-residue reactions is found from both its forms (also lines 310-314 of TitrationUtils.java) |
| TitrationUtils.LookupTerminus | modules/potential/src/main/java/ffx/potential/extended/TitrationUtils.java:74-78 | an unknown residue finds the first terminus reaction (also line 317 of TitrationUtils.java) |
| TitrationUtils.LookupOtherIsNone | modules/potential/src/main/java/ffx/potential/extended/TitrationUtils.java:74-80 | a residue with no reaction gives null |
| TitrationUtils.TitrationSwitchesForm | modules/potential/src/main/java/ffx/potential/extended/TitrationUtils.java:37-42 | titrating a residue always switches it to the other form of the same reaction. The exception is the terminus, where both forms are UNK |
| TitrationUtils.IsTitratableHydrogen | modules/potential/src/main/java/ffx/potential/extended/TitrationUtils.java:150-195 | true exactly for the hydrogen names the switch lists for each residue |
| TitrationUtils.TitratableHydrogensAreOnProtonatedForms | modules/potential/src/main/java/ffx/potential/extended/TitrationUtils.java:150-195 | only protonated residue names (LYS, TYR, CYS, ASH, GLH and the histidines) have titratable hydrogens |
| Protonates.IsTitratable | modules/algorithms/src/main/java/ffx/algorithms/Protonate.java:126-133 | true exactly when the name matches some Titratable constant, ignoring case |
| Protonates.EqualsIgnoreCaseUpper | modules/algorithms/src/main/java/ffx/algorithms/Protonate.java:128 | comparing, ignoring case, with an upper-case name is comparing the upper-cased name |
| Protonates.IsTitratableIffUpperName | modules/algorithms/src/main/java/ffx/algorithms/Protonate.java:126-133 | a name is titratable exactly when its upper-cased form is a constant's name |
| Protonates.ValueOf | modules/algorithms/src/main/java/ffx/algorithms/Protonate.java:150-151 | Titratable.valueOf succeeds exactly for the exact constant names and returns that constant (also lines 204-212 of Protonate.java) |
| Protonates.ValueOfStricterThanFilter | modules/algorithms/src/main/java/ffx/algorithms/Protonate.java:113 | every name valueOf accepts passes the filter. A lower-case name such as "asp" passes the filter but valueOf rejects it (also line 150 of Protonate.java) |
| Protonates.TitratableOf | modules/algorithms/src/main/java/ffx/algorithms/Protonate.java:109-117 | the collected names all pass the filter and are no more than the residues |
| Protonates.TitratableOfCollectsAll | modules/algorithms/src/main/java/ffx/algorithms/Protonate.java:109-117 | a name is collected exactly when it is a residue and passes the filter |
| Protonates.AsWrittenCollect | modules/algorithms/src/main/java/ffx/algorithms/Protonate.java:88 | as written, the collection throws exactly when some residue is titratable, because the list is never allocated. Otherwise it stays empty (also lines 109-117 of Protonate.java) |
| Protonates.AsWrittenCollectFailsOnAspartate | modules/algorithms/src/main/java/ffx/algorithms/Protonate.java:88 | an aspartate alone already makes the as-written constructor throw, where the corrected one collects it (also line 114 of Protonate.java) |
| Protonates.MulGap | modules/algorithms/src/main/java/ffx/algorithms/Protonate.java:197 | the integer product used by the try count is at least its factor |
| Protonates.DivModUnique | modules/algorithms/src/main/java/ffx/algorithms/Protonate.java:197 | quotient and remainder are unique |
| Protonates.AttemptsStep | modules/algorithms/src/main/java/ffx/algorithms/Protonate.java:137-138 | one more step adds one try exactly when the step count becomes a multiple of the frequency (also line 197 of Protonate.java) |
| Protonates.RateInUnit | modules/algorithms/src/main/java/ffx/algorithms/Protonate.java:198 | accepted moves over tries lies in [0, 1] |
| Protonates.Protonate.constructor | modules/algorithms/src/main/java/ffx/algorithms/Protonate.java:99-118 | counters start at zero, the frequency, pH and reference energy are stored, and the titratable residues are the collected names |
| Protonates.Protonate.McUpdate | modules/algorithms/src/main/java/ffx/algorithms/Protonate.java:136-178 | the step count goes up by one. Off-frequency steps return false and switch nothing. A zero frequency or an empty residue list is an error. Otherwise the chosen residue is switched, and then switched back unless the Metropolis test with dG_MC accepts. An accept adds one accepted move. A name valueOf rejects is an error after the switch |
| Protonates.Protonate.GetAcceptanceRate | modules/algorithms/src/main/java/ffx/algorithms/Protonate.java:195-199 | a zero frequency divides by zero. With tries it is accepted moves over tries, in [0, 1]. With no tries it is NaN or Infinity, as Java's double division gives |
| Protonates.RejectionUndoes | modules/algorithms/src/main/java/ffx/algorithms/Protonate.java:147 | a rejected move switches the residue twice, which leaves its protonation parity unchanged (also line 176 of Protonate.java) |
| ExtendedVariables.AtomNamed | modules/potential/src/main/java/ffx/potential/extended/ExtendedVariable.java:213 | the atom found has the name asked for, and nothing is found exactly when no atom has that name (also line 220 of ExtendedVariable.java) |
| ExtendedVariables.BackboneFrom | modules/potential/src/main/java/ffx/potential/extended/ExtendedVariable.java:210-217 | the backbone holds exactly the foreground atoms found under the first k backbone names |
| ExtendedVariables.NonBackbone | modules/potential/src/main/java/ffx/potential/extended/ExtendedVariable.java:218-219 | exactly the atoms that are not backbone atoms (also lines 239-240 of ExtendedVariable.java) |
| ExtendedVariables.WithRole | modules/potential/src/main/java/ffx/potential/extended/ExtendedVariable.java:218-235 | exactly the non-backbone foreground atoms that do (shared) or do not (unshared) have a background atom of the same name |
| ExtendedVariables.Companions | modules/potential/src/main/java/ffx/potential/extended/ExtendedVariable.java:233-234 | fg2bg holds exactly the shared atoms, each mapped to a background atom with its name |
| ExtendedVariables.PartitionCovers | modules/potential/src/main/java/ffx/potential/extended/ExtendedVariable.java:210-251 | every foreground atom is in exactly one of backbone, shared and unshared. A shared atom is mapped to a same-named background atom, and an unshared one has no such atom |
| ExtendedVariables.FindBackbone | modules/potential/src/main/java/ffx/potential/extended/ExtendedVariable.java:210-217 | the loop builds exactly the backbone list |
| ExtendedVariables.SortForeground | modules/potential/src/main/java/ffx/potential/extended/ExtendedVariable.java:218-237 | succeeds exactly when every unshared atom is a titratable hydrogen, and then returns the foreground, shared and unshared lists and the companion map |
| ExtendedVariables.CollectBackground | modules/potential/src/main/java/ffx/potential/extended/ExtendedVariable.java:238-251 | succeeds exactly when no non-backbone background atom is in the foreground or is a titratable hydrogen, and then returns those atoms |
| ExtendedVariables.PartitionAtoms | modules/potential/src/main/java/ffx/potential/extended/ExtendedVariable.java:210-251 | the constructor's atom sorting succeeds exactly when the residues are admissible, and then gives the partition |
| ExtendedVariables.DiscrBiasValues | modules/potential/src/main/java/ffx/potential/extended/ExtendedVariable.java:422 | the discretization bias is its magnitude at lambda 0.5 and zero at 0 and 1 |
| ExtendedVariables.DiscrBiasShape | modules/potential/src/main/java/ffx/potential/extended/ExtendedVariable.java:422 | the bias is symmetric about 0.5 and, for a non-negative magnitude, at most its magnitude |
| ExtendedVariables.DiscrBiasDerivIsExact | modules/potential/src/main/java/ffx/potential/extended/ExtendedVariable.java:422-423 | the stored derivative is the exact slope of the quadratic bias |
| ExtendedVariables.EsvName | modules/potential/src/main/java/ffx/potential/extended/ExtendedVariable.java:361-363 | the name is "Esv" followed by digits |
| ExtendedVariables.EsvNameRoundTrip | modules/potential/src/main/java/ffx/potential/extended/ExtendedVariable.java:361-363 | the index can be read back from the name |
| ExtendedVariables.ExtendedVariable.constructor | modules/potential/src/main/java/ffx/potential/extended/ExtendedVariable.java:180-251 | stores the index, the bias magnitude, the switch and its taper, the partition and the initial lambda; the ghost count of updateLambda(…, true) requests starts at zero (also lines 395-400 of ExtendedVariable.java) |
| ExtendedVariables.ExtendedVariable.Create | modules/potential/src/main/java/ffx/potential/extended/ExtendedVariable.java:180-251 | construction succeeds exactly when the residues are admissible. It then holds the partition of the two residues and the initial lambda |
| ExtendedVariables.ExtendedVariable.UpdateLambda | modules/potential/src/main/java/ffx/potential/extended/ExtendedVariable.java:418-428 | lambda becomes the new value. The components are refreshed once exactly when asked |
| ExtendedVariables.ExtendedVariable.GetLambdaSwitch | modules/potential/src/main/java/ffx/potential/extended/ExtendedVariable.java:420 | the taper of lambda when switching is allowed, lambda itself otherwise (also lines 549-551 of ExtendedVariable.java) |
| ExtendedVariables.ExtendedVariable.GetSwitchDeriv | modules/potential/src/main/java/ffx/potential/extended/ExtendedVariable.java:421 | the taper's derivative at lambda when switching is allowed, 1 otherwise (also lines 558-560 of ExtendedVariable.java) |
| ExtendedVariables.ExtendedVariable.GetDiscrBias | modules/potential/src/main/java/ffx/potential/extended/ExtendedVariable.java:422 | the discretization bias at the current lambda (also lines 567-569 of ExtendedVariable.java) |
| ExtendedVariables.ExtendedVariable.GetDiscrBiasDeriv | modules/potential/src/main/java/ffx/potential/extended/ExtendedVariable.java:423 | its derivative at the current lambda (also lines 576-578 of ExtendedVariable.java) |
| ExtendedVariables.ExtendedVariable.GetName | modules/potential/src/main/java/ffx/potential/extended/ExtendedVariable.java:361-363 | the name of the variable's index |
| FFXClassLoaders.ScriptsOf | modules/ui/src/main/java/ffx/FFXClassLoader.java:485-504 | the listed names are exactly the script entries under ffx ending in .groovy, renamed, whose upper-cased name contains TEST exactly when test scripts were asked for |
| FFXClassLoaders.StringLessEqTotal | modules/ui/src/main/java/ffx/FFXClassLoader.java:509 | the string order used for sorting is total |
| FFXClassLoaders.Insert | modules/ui/src/main/java/ffx/FFXClassLoader.java:509 | inserting into a sorted list keeps it sorted and adds exactly that name |
| FFXClassLoaders.SortStrings | modules/ui/src/main/java/ffx/FFXClassLoader.java:509 | the result is sorted and a permutation of the input |
| FFXClassLoaders.JarBaseName | modules/ui/src/main/java/ffx/FFXClassLoader.java:457-462 | the substring between the last slash and ".jar" exists exactly when the indices are in order, and it contains no slash |
| FFXClassLoaders.JarBaseNameOfPath | modules/ui/src/main/java/ffx/FFXClassLoader.java:457-462 | for dir/base.jar it is base |
| FFXClassLoaders.JarNames | modules/ui/src/main/java/ffx/FFXClassLoader.java:449-474 | when extraction succeeds, there are at most as many jars as listed files |
| FFXClassLoaders.JarNamesFailureSticks | modules/ui/src/main/java/ffx/FFXClassLoader.java:470-472 | an extraction failure in any prefix of the file list fails the whole load |
| FFXClassLoaders.FirstPackage | modules/ui/src/main/java/ffx/FFXClassLoader.java:421-428 | the first application package that prefixes the name, or none |
| FFXClassLoaders.FirstPackageFinds | modules/ui/src/main/java/ffx/FFXClassLoader.java:421-428 | when no package is empty, the search finds a package whenever one prefixes the class name |
| FFXClassLoaders.LoadRoute | modules/ui/src/main/java/ffx/FFXClassLoader.java:412-436 | with no extension jars the parent loads everything. Otherwise an unloaded class is loaded locally exactly when some application package prefixes its name |
| FFXClassLoaders.RouteExample | modules/ui/src/main/java/ffx/FFXClassLoader.java:74-75 | ffx.Main is loaded locally through the first package (also lines 421-425 of FFXClassLoader.java) |
| FFXClassLoaders.ClassFile | modules/ui/src/main/java/ffx/FFXClassLoader.java:299 | the class file path is the name with dots turned into slashes, plus ".class" |
| FFXClassLoaders.ClassFileRoundTrip | modules/ui/src/main/java/ffx/FFXClassLoader.java:299 | turning the slashes back into dots recovers the class name |
| FFXClassLoaders.FFXClassLoader.constructor | modules/ui/src/main/java/ffx/FFXClassLoader.java:73 | nothing is loaded and there are no extension jars (also line 96 of FFXClassLoader.java) |
| FFXClassLoaders.FFXClassLoader.LoadExtensions | modules/ui/src/main/java/ffx/FFXClassLoader.java:443-480 | runs once. It fails when a jar cannot be extracted. The extension jars are set only when at least one jar was found |
| FFXClassLoaders.FFXClassLoader.LoadClass | modules/ui/src/main/java/ffx/FFXClassLoader.java:407-441 | loads the extensions first: on the first call a failed jar-name cut is an error with no jars, otherwise the non-empty jar-name list (or none) is kept, exactly as LoadExtensions states. Then routes the class as LoadRoute says for those jars |
| FFXClassLoaders.FFXClassLoader.ListScripts | modules/ui/src/main/java/ffx/FFXClassLoader.java:482-514 | prints nothing without extension jars. Otherwise it prints the sorted permutation of the matching script names |

## Left out

- TransitionTempered.TransitionTemperedOSRW.ReadHistogramFile: applies a restart file all at once or not at all. The source assigns each field as it parses it, so a malformed file leaves a partial update before the exception. This model keeps the old state instead.
- TransitionTempered.TransitionTemperedOSRW.ReadHistogramFile: rejects a file that parses but is not usable: countInterval <= 0, temperature <= 0, biasCutoff >= lambdaBins, fewer than 2 lambda bins, no dU/dL bin, or dFL <= 0. The source applies such a file and fails later with a degenerate axis or a division by zero. This model does not follow it there.
- TransitionTempered.TransitionTemperedOSRW.ReadHistogramFile: installs the recomputed axes of OsrwRestart.ReadAxes, not the stale ones the source keeps. The source's own behaviour is OsrwRestart.AsWrittenReadAxes (see Findings).
- TransitionTempered.TransitionTemperedOSRW.constructor: requires a positive lambda bin width, dU/dL bin width, temperature and time step, and biasCutoff below the lambda bin count. The source reads these from system properties and does not check them. A bad value there gives a degenerate axis or a division by zero, which this model does not represent.
- ExtendedVariables.ExtendedVariable.constructor: leaves out what the constructor does to other objects. It marks each background atom with setBackground (modules/potential/src/main/java/ffx/potential/extended/ExtendedVariable.java:249). Under cloneXyzIndices it copies the foreground XYZ indices onto the background atoms (lines 254-258). It attaches the extended term node and calls updateBondedLambdas when config.bonded is set (lines 262-269). It initialises the background multipoles and calls updateMultipoleTypes when config.electrostatics is set (lines 274-276). The ghost componentUpdates counts only updateLambda(…, true) requests, not these refreshes.
- OsrwGeometry.BinForFLambda: outside the axis it returns the unbounded floor. Java's (int) cast (modules/algorithms/src/main/java/ffx/algorithms/osrw/AbstractOSRW.java:652) saturates at the int range and maps NaN to 0. Every caller grows the axis to cover the sample first, so only bins inside the axis are used.
- OsrwGeometry.LambdaAxisFor: requires a positive requested bin width, for the same reason. The source divides by it unchecked.
- OsrwGeometry.PrintFrequency and OsrwGeometry.SaveFrequency: the time step is assumed positive, as for the constructor.
- OsrwKernel.BinStat.FLambda: gives 0.0 for a bin with zero partition function. Java's ensemble / partition gives NaN or an infinity there, which then flows into F(lambda) and the energy. NaN and infinities of doubles are not modelled here. The exception is the JavaDouble results of Protonates.Protonate.GetAcceptanceRate.
- GaussTree.GaussianOverlapTree.ComputeVolumeUnderSlot2R: computes volumes, energies, free and self volumes, the volume derivatives and the surface-area weights only. The position gradients and their outputs (dr, p1i, pp1i, penergy1i) are left out. So is the sum at modules/potential/src/main/java/ffx/potential/nonbonded/GaussVol.java:721, which overwrites the atom's dr entry where the surrounding code adds. These are double vectors carried alongside the volume pass, and no stated property depends on them.
- GaussVolDriver.GaussVol.ComputeVolume: leaves out the force negation of the gradient at modules/potential/src/main/java/ffx/potential/nonbonded/GaussVol.java:237-239, which depends on the dropped dr output.
- GaussOverlap.AtomInputs: requires every radius to be non-zero. Java accepts a zero radius and gets an infinite Gaussian exponent. Infinities are not modelled.
- Protonates.Protonate.McUpdate: mcStepFrequency is a constant per instance here. In the source it is a static field (modules/algorithms/src/main/java/ffx/algorithms/Protonate.java:80), so a second Protonate changes the first one's frequency. The step count is an unbounded integer, so its int overflow after 2^31 steps is not modelled.
- Protonates.Protonate.McUpdate: switchProtonationState is empty in the source (modules/algorithms/src/main/java/ffx/algorithms/Protonate.java:185-187). Its calls are recorded in switchCalls rather than changing a residue. The random residue choice and the Metropolis random number are parameters.
- TitrationUtils.TitrationLookup: takes the residue as an AminoAcid3 value. AminoAcid3.valueOf's IllegalArgumentException for an unknown name is not modelled. Nor is the NullPointerException that titrationFactory (modules/potential/src/main/java/ffx/potential/extended/TitrationUtils.java:37-38) raises when the lookup returns null. titrationFactory itself builds MultiResidue objects and is left out; only its target-name choice is modelled, by TitrationUtils.TargetName.
- TransitionTempered.TransitionTemperedOSRW.CheckRecursionKernelSize: FLambdaBins += 100 and the offset growth are unbounded integers here, so their int overflow is not modelled.
- TransitionTempered.TransitionTemperedOSRW.ReceiveLoop: states only that the tempering weight stays put while tempering is off. What FLambda and the weight hold after the loop is not stated as a whole. Each count's merge does state it (MergeCount): a count off the axis leaves them as updateFLambda sets them for the walker before that count. A proof tying the end of the loop to the last such count did not fit the solver's budget.
- TransitionTempered.TransitionTemperedOSRW.UpdateFLambda: the source resets a lambda row's kernel offset and starts over when a weight overflows to an infinity or NaN (modules/algorithms/src/main/java/ffx/algorithms/osrw/TransitionTemperedOSRW.java:1001-1010). Doubles cannot overflow here, so that retry is not modelled.
- TransitionTempered.TransitionTemperedOSRW.ReceiveLoop: a message is either a count or the NaN terminator. A message that is only partly NaN, which the receive thread tests for (modules/algorithms/src/main/java/ffx/algorithms/osrw/TransitionTemperedOSRW.java:1319-1324), cannot be expressed. After an IOException the source merges the stale buffer again. Here a failed receive merges nothing.
- TransitionTempered.IntegrationTypeFor: upper-cases ASCII letters only (JavaLang.ToUpper). Java's toUpperCase maps all of Unicode and follows the default locale, so under a Turkish locale "trapezoidal" upper-cases to a name with a dotted capital I that no type matches. Unicode case tables and locales are not modelled.
- Protonates.IsTitratable: the ignore-case match (JavaLang.EqualsIgnoreCase) folds ASCII letters only. Java's equalsIgnoreCase applies Character.toUpperCase and toLowerCase to every character, so a name such as "aſp" (long s) is titratable in the source but not here.
- FFXClassLoaders.ScriptsOf: the "TEST" filter upper-cases ASCII letters only, so a jar entry such as "ffx/Teſt.groovy" counts as a test script in the source (its toUpperCase contains "TEST") but not here.
- SharedIntegerArrayBufs.SharedIntegerArrayBuf.SendItems: the i * stride offset is an unbounded integer, so its int overflow is not modelled. ReceiveItems does model the wrap of i + num.
- Input and output: file reading and writing, logging, printing and formatted output are left out. Restart files are sequences of lines, and the jar files, temporary copies and class definition of FFXClassLoader are parameters or left out. The FFX_FILES list is a parameter.
- Floating point: doubles are reals. exp, pow, the Gaussian overlap ogaussAlpha, the switching function and the taper are parameters.
- Concurrency: the receive thread, the atomic compare-and-set of the schedules and the Parallel Java communicators are modelled as sequential steps.
- Langevin dynamics of lambda, current1DBiasEnergy and the numeric integration of the free energy are not part of this model.
- OsrwKernel.KernelRow: the bias kernel is evaluated into a precomputed row of Gaussian weights, not inside the energy loop. The values are the same.

## Findings

| source | as written | input that shows it | evidently intended | confidence | as-written member | corrected member |
|---|---|---|---|---|---|---|
| modules/algorithms/src/main/java/ffx/algorithms/osrw/TransitionTemperedOSRW.java:1169 | the largest gathered dU/dL starts at Double.MIN_VALUE, the smallest positive double | one gathered count at dU/dL = -1.0 on a histogram whose top edge is 0.0 | start from the most negative double, so only values actually gathered decide the range | not executed; high | OsrwMerge.AsWrittenRequiredRangeOvergrows | OsrwMerge.RequiredRangeIsExact |
| modules/algorithms/src/main/java/ffx/algorithms/osrw/TransitionTemperedOSRW.java:1439-1448 | reading a histogram with a different bin count updates dL but keeps minLambda, maxFLambda and the kernel offsets | the default axes, then a usable file with 5 lambda bins and 151 dU/dL bins | recompute every derived axis field from the file | not executed; high | OsrwRestart.AsWrittenReadBreaksAxes | OsrwRestart.ReadAxesConsistent |
| modules/potential/src/main/java/ffx/potential/nonbonded/GaussVol.java:546 | the test that a node is not among its parent's children joins two exclusive comparisons with && | root 1, children from slot 3, two children | joined with \|\| | not executed; high | GaussOverlap.AsWrittenSiblingTestNeverFires | GaussOverlap.ChildrenOfLinked |
| modules/potential/src/main/java/ffx/potential/nonbonded/GaussVol.java:417,441-455 | initOverlapTree stores one GaussianOverlap object in every slot | one atom | a new object per atom slot | not executed; high | GaussAsWritten.AsWrittenSharedTreeLosesRoot | GaussOverlap.InitialTreeLinked |
| modules/potential/src/main/java/ffx/potential/nonbonded/GaussVol.java:442 | overlap.g is used without ever being allocated | one atom | allocate g per slot | not executed; high | GaussAsWritten.AsWrittenInitFailsOnOneAtom | GaussOverlap.InitialTree |
| modules/potential/src/main/java/ffx/potential/nonbonded/GaussVol.java:551,1083 | computeChildren merges each sibling into `new GaussianVca()`, whose centre c is null, and ogaussAlpha writes the centre into g12.c | any node with a younger sibling, for example two atoms under the root | allocate g12.c (a new double[3]) before the merge | not executed; high | GaussAsWritten.AsWrittenChildAlwaysFails | GaussOverlap.KeptFromSiblings |
| modules/potential/src/main/java/ffx/potential/nonbonded/GaussVol.java:819,1083 | rescanR merges every node below an atom into `new GaussianVca()` the same way | any built tree holding a pairwise overlap | allocate g12.c before the merge | not executed; high | GaussAsWritten.AsWrittenRescanFailsBelowAtoms | GaussRescan.RescanDone |
| modules/potential/src/main/java/ffx/potential/nonbonded/GaussVol.java:577 | behind the first defect: ov.dv1 of a new child is written without being allocated | a sibling whose overlap volume exceeds MIN_GVOL, once g12.c is allocated | allocate dv1 for the child | not executed; high | GaussAsWritten.AsWrittenDv1FailsWhereKept | GaussOverlap.KeptFromSiblings |
| modules/algorithms/src/main/java/ffx/algorithms/Protonate.java:88,114 | titratableResidues is never allocated before residues are added | one residue named ASP | allocate the list in the constructor | not executed; high | Protonates.AsWrittenCollectFailsOnAspartate | Protonates.TitratableOfCollectsAll |
