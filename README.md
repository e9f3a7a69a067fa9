# parasail: two lane-parallel affine-gap alignment kernels in Dafny

This project models two of parasail's vectorised pairwise-alignment kernels.
It proves properties of the models.

- **The 16-bit semi-global statistics "scan" kernel**
  (`parasail_sg_flags_stats_scan_profile_neon_128_16`).
  - It uses 8 lanes of int16 per register.
  - Each database column runs three passes:
    - a first pass computes E and a provisional H;
    - a pseudo prefix scan resolves the vertical gap F across the lanes;
    - a final pass fixes H and its matches/similar/length statistics.
  - The last-row maximum gives the score and end_ref.
  - The last column may override it, with end_query the smallest query index holding the score.
  - When a value leaves the range [NEG_LIMIT, POS_LIMIT], the result is zeros with the SATURATED flag.
- **The 8-bit Smith-Waterman striped kernel with traceback**
  (`parasail_sw_trace_striped_profile_avx2_256_8`).
  - It uses 32 lanes of int8 with saturating arithmetic.
  - Each column runs a main pass, then a Lazy-F pass that corrects the vertical gaps.
  - Both passes write the trace, insertion and deletion tables.
  - The running maximum vMaxH sets score and end_ref.
  - A rotation of three H buffers keeps the H column of end_ref, and the end_query walk reads it.

Modules:

- `Lanes`: register operations.
  - Wrapping int16 (`Wrap16`), truncating and saturating int8 (`Wrap8`, `Sat8`).
  - Lane-wise max, min, compare, blend and mask.
  - Byte shifts and the horizontal maximum.
- `Striped`: the striped layout.
  - segLen.
  - The mapping between flat buffer positions and query indices.
  - The slots the table stores write.
- `ScanStats16` and `ScanKernel16`: the 16-bit kernel.
  - `ScanStats16` has the cell recurrences, each pass as a fold, the column sweep, and the result `Report`.
  - `ScanKernel16.ScanKernel` is a class over the source's buffers (`pvH`, `pvE` as arrays). Its methods run the same loops and are proved equal to those folds.
- `SwTrace8` and `SwKernel8`: the 8-bit kernel.
  - `SwTrace8` has the column passes as functions, the sweep `Run`, and the result `Report`.
  - `SwKernel8.SwKernel` is a class over the source's buffers (`pvHStore`, `pvHLoad`, `pvHMax`, `pvE`, `pvEaStore`, `pvEaLoad`, `pvHT` and the three trace tables). Its pointer swaps are modelled as swaps of array references.
- `SwProps8`: the properties of the 8-bit sweep:
  - the range of stored H;
  - the Lazy-F growth and bound;
  - what vMaxH covers;
  - end_ref as the first column reaching the score;
  - the buffer that the end_query walk reads.

## Model

| member | source | states |
|---|---|---|
| Lanes.Wrap16Range | src/sg_stats_scan_neon_128_16.c:250-253 | add/sub_epi16 results always lie in int16. They leave int16 values unchanged and differ from the exact value by a multiple of 65536. |
| Lanes.Wrap16Absorb | src/sg_stats_scan_neon_128_16.c:172-177 | A chain of wrapping adds equals one wrap of the exact sum. So the descending gapper loop has a closed form. |
| Lanes.Wrap16SubAdd | src/sg_stats_scan_neon_128_16.c:231 | Subtracting pvGapper[0] from NEG_LIMIT and adding it back (line 258) gives NEG_LIMIT again. |
| Lanes.Wrap8 | src/sw_trace_striped_avx2_256_8.c:103-104 | set1_epi8 of an int truncates to an int8 and leaves int8 values unchanged. |
| Lanes.HMaxIsMax | src/sw_trace_striped_avx2_256_8.c:47-54 | The horizontal maximum is at least every lane and equals one of them. |
| Lanes.ShiftNAt | src/sg_stats_scan_neon_128_16.c:417-422 | After p one-lane shifts, lane k holds the fill when k < p and lane k - p otherwise. |
| Striped.SegLenIsCeiling | src/sw_trace_striped_avx2_256_8.c:94 | segLen = (s1Len + segWidth - 1) / segWidth is at least 1 and is the ceiling: segWidth*(segLen-1) < s1Len <= segWidth*segLen. |
| Striped.QueryIndexInjective | src/sg_stats_scan_neon_128_16.c:35-42 | Row lane*segLen + t is below segWidth*segLen, and two (segment, lane) pairs share a row exactly when they are equal. |
| Striped.FlatToQueryBijective | src/sg_stats_scan_neon_128_16.c:463 | The unfolding i / segWidth + i % segWidth * segLen maps [0, segWidth*segLen) onto itself one-to-one. QueryToFlat is its inverse in both directions. |
| Striped.LastQueryCell | src/sg_stats_scan_neon_128_16.c:104-105 | offset and position locate query index s1Len - 1: lane segWidth-1-position of segment offset. |
| Striped.TableSlotInjective | src/sg_stats_scan_neon_128_16.c:27-44 | Distinct (segment, lane, column) triples write distinct slots of a table, all below segWidth*segLen*s2Len. |
| Striped.TraceSlotInjective | src/sw_trace_striped_avx2_256_8.c:57-65 | arr_store's slot d*segLen + t is below segLen*s2Len and distinct for distinct (segment, column) pairs. |
| Striped.ArrStore | src/sw_trace_striped_avx2_256_8.c:57-65 | Writes the vector to slot d*segLen + t and changes no other slot. |
| ScanStats16.GapCell | src/sg_stats_scan_neon_128_16.c:250-257 | E' = max(H - open, E - gap), wrapping. A strict win of the open term takes H's statistics; otherwise E's are kept. The length grows by one either way. |
| ScanStats16.Better | src/sg_stats_scan_neon_128_16.c:391-395 | The row-maximum blend keeps the larger score. On a tie the old cell is kept, so only a strict improvement replaces it. |
| ScanStats16.AccumulateF | src/sg_stats_scan_neon_128_16.c:258-267 | F = max(F, Ht + gapper). F keeps its own statistics on ties. Otherwise it takes Ht's statistics, with the length raised by gapperL. |
| ScanStats16.ScanCell | src/sg_stats_scan_neon_128_16.c:309-325 | One scan step: F = max(F, shifted F + segLen*gap). The shifted candidate wins ties and has its length raised by segLen. |
| ScanStats16.FinalCell | src/sg_stats_scan_neon_128_16.c:355-367 | H = max(Hp, E, F). The statistics come from Hp when H equals Hp, else from F when H equals F, else from E. |
| ScanStats16.GapperDown | src/sg_stats_scan_neon_128_16.c:172-177 | Each lower segment's gapper vector is the next one minus gap, and its gapperL vector is the next one plus one. |
| ScanStats16.FirstFoldStores | src/sg_stats_scan_neon_128_16.c:236-289 | After k first-pass iterations, segment i < k holds the E update of its old H and E. Its H slot holds the diagonal H plus the profile. |
| ScanStats16.FinalFoldStores | src/sg_stats_scan_neon_128_16.c:338-371 | The H stored in segment i is the register vH after final-pass iteration i. |
| ScanStats16.UninitialisedHtNeverSelected | src/sg_stats_scan_neon_128_16.c:258-267 | At segment 0, Ht + pvGapper[0] equals NEG_LIMIT and so ties with F. The uninitialised vHtM/S/L are therefore never blended into F. |
| ScanStats16.ColumnELane | src/sg_stats_scan_neon_128_16.c:250-257 | Per lane of a whole column: E' = max(H - open, E - gap), with H's statistics only on a strict win and the length raised by one. |
| ScanStats16.ColumnHLane | src/sg_stats_scan_neon_128_16.c:347-367 | Per lane of a whole column: F follows the open/extend update, and H = max(Hp, E, F) with statistics priority diagonal > F > E. |
| ScanStats16.ColumnProfile | src/sg_stats_scan_neon_128_16.c:228-230 | The profile rows for database symbol s are rows s*segLen ... s*segLen + segLen - 1. |
| ScanStats16.LastLane | src/sg_stats_scan_neon_128_16.c:104-105 | The lane of segment offset that holds query index s1Len - 1. |
| ScanStats16.MinScoresBelow | src/sg_stats_scan_neon_128_16.c:372 | Over a column, the min accumulator drops below t in a lane exactly when its start value or some stored H does. |
| ScanStats16.MaxAllAbove | src/sg_stats_scan_neon_128_16.c:373-376 | Over a column, the max accumulator exceeds t in a lane exactly when its start value or some stored H, M, S or L does. |
| ScanStats16.MinFoldBelow | src/sg_stats_scan_neon_128_16.c:372 | The same over all columns of the sweep, in both directions. |
| ScanStats16.MaxFoldAbove | src/sg_stats_scan_neon_128_16.c:373-376 | The same over all columns of the sweep, in both directions. |
| ScanStats16.SaturationCheck | src/sg_stats_scan_neon_128_16.c:476-479 | The final mask test fires exactly when some H anywhere is below NEG_LIMIT, or some H/M/S/L is above POS_LIMIT. |
| ScanStats16.MaxScoresBounds | src/sg_stats_scan_neon_128_16.c:434-446 | The last-column maximum is at least the start value and every H, and equals the start value or one of the H. |
| ScanStats16.RowBestFirst | src/sg_stats_scan_neon_128_16.c:391-399 | The last-row best is at least the start and every column's value. If it is above the start, end_ref is the first column that reaches it; otherwise end_ref is 0. |
| ScanStats16.RowBestStep | src/sg_stats_scan_neon_128_16.c:391-399 | One column replaces the row best and end_ref exactly when its last-row H is strictly greater. |
| ScanStats16.FirstWithScoreLeast | src/sg_stats_scan_neon_128_16.c:461-471 | The end_query search returns the least query index below the limit whose H equals the score, or the limit when there is none. |
| ScanStats16.FlatCell | src/sg_stats_scan_neon_128_16.c:456-463 | Flat position x of the H buffer is the cell of query index i / segWidth + i % segWidth * segLen. |
| ScanStats16.TraceFlatFirst | src/sg_stats_scan_neon_128_16.c:453-472 | The walk in buffer order gives the same least index as the search in query order. The statistics come from that cell, or stay unchanged when none matches. |
| ScanKernel16.PosMaskSelects | src/sg_stats_scan_neon_128_16.c:396 | The vPosMask-and-movemask test is true exactly when lane segWidth-1-position of the condition is set. |
| ScanKernel16.ExtractLast | src/sg_stats_scan_neon_128_16.c:417-423 | Shifting by position lanes and extracting lane 7 gives lane 7 - position. |
| ScanKernel16.FillGappers | src/sg_stats_scan_neon_128_16.c:169-178 | The descending loop fills pvGapper[i] = -open - (segLen-1-i)*gap and pvGapperL[i] = segLen - i (wrapped). |
| ScanKernel16.ScanKernel.constructor | src/sg_stats_scan_neon_128_16.c:161-168 | H buffers start at zero, E at NEG_LIMIT, statistics at zero; accumulators at their limits. |
| ScanKernel16.ScanKernel.FirstStep | src/sg_stats_scan_neon_128_16.c:237-288 | One first-pass iteration advances the registers and buffers by one step of the first-pass fold. |
| ScanKernel16.ScanKernel.FirstPass | src/sg_stats_scan_neon_128_16.c:220-289 | pvH, pvE, vHt and vF end as the first-pass fold gives them. |
| ScanKernel16.ScanKernel.ScanLoop | src/sg_stats_scan_neon_128_16.c:309-325 | The segWidth-2 scan iterations compute the scan fold's F. |
| ScanKernel16.ScanKernel.PrefixScan | src/sg_stats_scan_neon_128_16.c:291-337 | The entry step, the scan loop and the shift into H compute the scan's F and H. |
| ScanKernel16.ScanKernel.FinalStep | src/sg_stats_scan_neon_128_16.c:339-376 | One final-pass iteration stores H and updates both saturation accumulators as the final fold does. |
| ScanKernel16.ScanKernel.FinalPass | src/sg_stats_scan_neon_128_16.c:338-383 | pvH ends as the final fold's stored H. The min/max accumulators fold in every stored H, and every H/M/S/L for the maximum. |
| ScanKernel16.ScanKernel.SweepColumn | src/sg_stats_scan_neon_128_16.c:217-383 | pvH and pvE end as the column function of their old contents and the profile. |
| ScanKernel16.ScanKernel.TrackLastRow | src/sg_stats_scan_neon_128_16.c:384-399 | The row maximum takes the new cell only on a strict win. On that win end_ref becomes j and end_query becomes s1Len - 1; otherwise both are unchanged. |
| ScanKernel16.ScanKernel.LastColumnMax | src/sg_stats_scan_neon_128_16.c:429-449 | score_last is the horizontal maximum of the lane maxima of the last column. |
| ScanKernel16.ScanKernel.TraceEndQuery | src/sg_stats_scan_neon_128_16.c:453-472 | end_query is the least query index holding the score, with that cell's statistics. |
| ScanKernel16.ScanKernel.Advance | src/sg_stats_scan_neon_128_16.c:181-413 | One iteration of the database loop carries the buffers, accumulators and row registers from the state after column j to the state after j + 1. |
| ScanKernel16.ScanKernel.Resolve | src/sg_stats_scan_neon_128_16.c:415-474 | The result is the last-row best, overridden by the last column when score_last is higher, or equal with end_ref already s2Len - 1. |
| ScanKernel16.ScanKernel.SaturationFlag | src/sg_stats_scan_neon_128_16.c:476-479 | The flag is the saturation predicate over every column of the sweep. |
| ScanKernel16.ScanKernel.Finish | src/sg_stats_scan_neon_128_16.c:415-493 | After the sweep the result is Report: zeros and SATURATED when saturated, otherwise the resolved score, end positions and statistics. |
| ScanKernel16.ScanKernel.Run | src/sg_stats_scan_neon_128_16.c:181-493 | The whole database loop followed by the result computes Report. |
| ScanKernel16.SgStatsScan | src/sg_stats_scan_neon_128_16.c:89-493 | The kernel returns Report for NEG_LIMIT and POS_LIMIT computed as at lines 125-127, for any open and gap. |
| SwTrace8.MainTagsBlend | src/sw_trace_striped_avx2_256_8.c:172-182 | The blend chain yields ZERO when H == H_dag == 0, DIAG when H == H_dag != 0, DEL when H == F != H_dag, and INS otherwise. |
| SwTrace8.RetagsBlend | src/sw_trace_striped_avx2_256_8.c:243-252 | The Lazy-F retag sets DEL exactly where H == F and H != Hp, and leaves the other tags unchanged. |
| SwTrace8.GapTagsBlend | src/sw_trace_striped_avx2_256_8.c:196-197 | The insertion/deletion tag is DIAG exactly where the open term is strictly greater than the extension, and the gap tag otherwise. |
| SwTrace8.MayGrowMask | src/sw_trace_striped_avx2_256_8.c:275-279 | The Lazy-F exit test fails, so the loop continues, exactly when some lane has F_ext >= EF_opn. |
| SwTrace8.InitIns | src/sw_trace_striped_avx2_256_8.c:121-123 | The insertion table has segLen*s2Len vectors; column 0 is DIAG. |
| SwTrace8.ProfileColumn | src/sw_trace_striped_avx2_256_8.c:147 | vP points at profile rows sym*segLen ... sym*segLen + segLen - 1. |
| SwTrace8.Rotate | src/sw_trace_striped_avx2_256_8.c:149-158 | The SWAP3/SWAP rotation moves only buffers. vMaxH, score, end_ref, E and pvHT are unchanged. BestColumnIsEndRef states where the H columns go. |
| SwTrace8.ScoreStep | src/sw_trace_striped_avx2_256_8.c:291-303 | The score update touches no buffer. ScoreStepTracks states the update itself. |
| SwTrace8.LazyFromDone | src/sw_trace_striped_avx2_256_8.c:275-287 | Once the exit test has fired (goto end), the remaining Lazy-F iterations change nothing. |
| SwTrace8.RunSaturatedStays | src/sw_trace_striped_avx2_256_8.c:296-298 | After the saturation break, the state of the sweep no longer changes. |
| SwTrace8.EndQueryWalkLeast | src/sw_trace_striped_avx2_256_8.c:327-339 | The walk returns the least query index holding the score, or s1Len - 1 when none is smaller. |
| SwKernel8.NewInsTable | src/sw_trace_striped_avx2_256_8.c:121-123 | The fresh insertion table holds DIAG in column 0 and zero tags elsewhere. |
| SwKernel8.SwKernel.constructor | src/sw_trace_striped_avx2_256_8.c:96-123 | The buffers are fresh, and the state is the initial one: H zero, E and Ea -open, score NEG_INF, vMaxH and vMaxHUnit zero. |
| SwKernel8.SwKernel.MainCell | src/sw_trace_striped_avx2_256_8.c:164-183 | H = max(H_dag, E, F) is stored in segment i, its tag in pvHT and in the trace table at (i, j), and folded into vMaxH. |
| SwKernel8.SwKernel.EaUpdate | src/sw_trace_striped_avx2_256_8.c:190-200 | Ea = max(EF_opn, Ea - gap) is stored, and the insertion tag is written to column j + 1 only when j + 1 < s2Len. |
| SwKernel8.SwKernel.MainBody | src/sw_trace_striped_avx2_256_8.c:161-215 | One main-pass iteration gives the registers and buffers of MainStep and leaves every other E segment unchanged. |
| SwKernel8.SwKernel.MainLoop | src/sw_trace_striped_avx2_256_8.c:161-215 | The main loop gives MainPass of the old buffers and vMaxH. |
| SwKernel8.SwKernel.LazyCell | src/sw_trace_striped_avx2_256_8.c:235-253 | H = max(H, F) is stored, and the retagged tag is written to pvHT and the trace table. |
| SwKernel8.SwKernel.LazyBody | src/sw_trace_striped_avx2_256_8.c:234-285 | One inner Lazy-F iteration, including the exit test, gives LazyInner. |
| SwKernel8.SwKernel.LazyRound | src/sw_trace_striped_avx2_256_8.c:234-285 | One pass of the inner loop gives RoundUpTo over all segments. |
| SwKernel8.SwKernel.LazyLoop | src/sw_trace_striped_avx2_256_8.c:217-287 | The whole Lazy-F loop, with its goto, gives LazyFrom over segWidth rounds, and its step count. |
| SwKernel8.SwKernel.Swap | src/sw_trace_striped_avx2_256_8.c:149-158 | The pointer swaps give Rotate of the state. |
| SwKernel8.SwKernel.Passes | src/sw_trace_striped_avx2_256_8.c:140-287 | The main and Lazy-F passes give AfterPasses of the state. |
| SwKernel8.SwKernel.UpdateScore | src/sw_trace_striped_avx2_256_8.c:291-303 | The score comparison gives ScoreStep of the state. |
| SwKernel8.SwKernel.ProcessColumn | src/sw_trace_striped_avx2_256_8.c:126-303 | One database column gives ColumnStep of the state. |
| SwKernel8.SwKernel.FinalSwap | src/sw_trace_striped_avx2_256_8.c:318-325 | After the final swap, pvHMax is BestColumn of the state. |
| SwKernel8.SwKernel.EndQuery | src/sw_trace_striped_avx2_256_8.c:327-339 | end_query is the walk over pvHMax starting from s1Len - 1. |
| SwKernel8.SwKernel.Sweep | src/sw_trace_striped_avx2_256_8.c:126-306 | The database loop, with its saturation break, leaves the state Run over all columns. |
| SwKernel8.SwKernel.Finish | src/sw_trace_striped_avx2_256_8.c:308-344 | The result is Outcome of the state after the sweep. |
| SwKernel8.SwKernel.Align | src/sw_trace_striped_avx2_256_8.c:116-344 | From the initial state the kernel computes Report. |
| SwKernel8.SwTraceStriped | src/sw_trace_striped_avx2_256_8.c:81-344 | The kernel returns Report: score, end_query, end_ref, the saturated flag, and the trace, insertion and deletion tables. |
| SwProps8.MainStepCapped | src/sw_trace_striped_avx2_256_8.c:164-204 | One main iteration keeps H and vMaxH in [0, c] and E and F in [-128, c], for c = 127, or for c = 0 when no profile score is positive. |
| SwProps8.MainUpToCapped | src/sw_trace_striped_avx2_256_8.c:161-215 | The same bound after any number of main iterations. |
| SwProps8.LazyFromCapped | src/sw_trace_striped_avx2_256_8.c:217-287 | The same bound through the whole Lazy-F loop. |
| SwProps8.ColumnStepCapped | src/sw_trace_striped_avx2_256_8.c:126-303 | The bound holds across a whole column and its rotation. For c = 0 the score stays NEG_INF, vMaxHUnit 0 and end_ref 0. |
| SwProps8.RunCapped | src/sw_trace_striped_avx2_256_8.c:126-306 | The bound holds after every number of columns. |
| SwProps8.StoredHInRange | src/sw_trace_striped_avx2_256_8.c:165-170 | After any number of columns, every lane of every H buffer (store, load, max) is in [0, 127]. |
| SwProps8.LazyInnerGrows | src/sw_trace_striped_avx2_256_8.c:235-237 | One inner Lazy-F step only raises stored H, lane by lane, and never changes E. |
| SwProps8.LazyFBounded | src/sw_trace_striped_avx2_256_8.c:217-287 | The Lazy-F pass only raises the H of the main pass, lane by lane. It leaves E unchanged and runs at most segWidth*segLen inner steps. |
| SwProps8.MainUpToCovers | src/sw_trace_striped_avx2_256_8.c:183 | After n main iterations, each vMaxH lane is at least its old value and every stored H, and equals the old value or one of them. |
| SwProps8.LazyFromCovers | src/sw_trace_striped_avx2_256_8.c:253 | The Lazy-F updates of vMaxH keep that cover over all segments. |
| SwProps8.ColumnCovers | src/sw_trace_striped_avx2_256_8.c:161-287 | After a column, vMaxH covers its stored H. |
| SwProps8.RunCovers | src/sw_trace_striped_avx2_256_8.c:126-306 | Unless saturated, vMaxH after n columns is the lane-wise maximum of every H stored in them (or 0). |
| SwProps8.ScoreStepTracks | src/sw_trace_striped_avx2_256_8.c:291-303 | Unless saturated, either nothing changes, or vMaxHUnit and score rise to a lane value of vMaxH and end_ref becomes j. vMaxH stays at most vMaxHUnit. |
| SwProps8.RunTracksScore | src/sw_trace_striped_avx2_256_8.c:291-303 | Unless saturated, the score is NEG_INF with end_ref 0, or positive and first reached by vMaxH at column end_ref. |
| SwProps8.EndRefFirst | src/sw_trace_striped_avx2_256_8.c:291-303 | When the result is not saturated and has a score, the score is the largest stored H. Column end_ref holds it, and every earlier column is strictly below it. |
| SwProps8.RunKeepsColumns | src/sw_trace_striped_avx2_256_8.c:149-158 | Unless saturated, after n columns end_ref < n and pvHLoad holds column n - 2. pvHMax holds column end_ref whenever end_ref <= n - 3. |
| SwProps8.BestColumnIsEndRef | src/sw_trace_striped_avx2_256_8.c:318-325 | Unless saturated, the buffer chosen by the final swap is the H column of end_ref. |
| SwProps8.ReportEndPositions | src/sw_trace_striped_avx2_256_8.c:318-339 | Unless saturated, end_ref is a column, and end_query is the least query index whose H in column end_ref equals the score (or s1Len - 1). |
| SwProps8.NoPositiveScoreReportsNegInf | src/sw_trace_striped_avx2_256_8.c:106 | With no positive profile score and non-negative penalties, every stored H is 0 and the kernel reports score -128, unsaturated. |
| SwProps8.NegInfExample | src/sw_trace_striped_avx2_256_8.c:291-302 | A one-residue query and database with substitution score -1, open 1 and gap 1 is reported with score -128. |
| SwProps8.UnsetScoreAllZero | src/sw_trace_striped_avx2_256_8.c:291-302 | When the score is never set, the best stored H is 0. |
| SwProps8.CorrectedScoreIsBestH | src/sw_trace_striped_avx2_256_8.c:291-302 | With the local-alignment floor restored, the unsaturated score is the largest stored H, and at least 0. It agrees with the kernel whenever the kernel set a score. |

## Left out

- SwKernel8.SwTraceStriped: requires a non-empty database (`|db| >= 1`).
  - With s2Len = 0, lines 121-123 store into column 0 of an insertion table that has no columns.
  - The model does not give a result for that input.
- ScanKernel16.SgStatsScan and SwKernel8.SwTraceStriped: require s1Len >= 1.
  - With s1Len = 0, segLen is 0.
  - The 16-bit kernel then takes a remainder by zero (line 104).
  - The 8-bit kernel reads pvHStore[segLen - 1] (line 143).
- Profiles:
  - The query profile, `matrix->mapper` and the matrix minimum and maximum are inputs.
  - The database is given as already-mapped symbol indices.
  - Building the profile (the FNAME wrappers) is not part of this model.
- Uninitialised buffers are taken as zero: pvHLoad, pvHMax, pvEaLoad and pvHT before their first writes, vHtM/S/L at segment 0 of the 16-bit first pass, and the result tables.
  - For vHtM/S/L, UninitialisedHtNeverSelected shows the value never reaches F.
- Intrinsics are modelled by their lane semantics only: wrapping int16 add/sub, saturating int8 adds/subs, lane-wise max, compare, blend, byte shifts, movemask as "some lane set", and the horizontal maximum. The shuffle and permute instructions used to build them are not modelled.
- The PARASAIL_TABLE and PARASAIL_ROWCOL builds of the 16-bit kernel are not modelled: the score/statistics tables, the row and column vectors, and their stores.
  - Only the slot arithmetic of arr_store_si128 is modelled (Striped.TableSlotInjective).
- The 16-bit kernel allocates pvHMax, pvHMMax, pvHSMax and pvHLMax but never reads them. They are not modelled.
- The s1_beg, s1_end, s2_beg and s2_end parameters are unused by the 16-bit kernel and are not modelled.
- Result flags: only SATURATED is modelled. The fixed SG/SW, SCAN/STRIPED, STATS, BITS and LANES flags are constants and are not modelled.
- Memory allocation and freeing, alignment, and the result object's layout are not modelled.

## Findings

| source | as written | input that shows it | evidently intended | confidence | as-written member | corrected member |
|---|---|---|---|---|---|---|
| src/sw_trace_striped_avx2_256_8.c:291-302 | score starts at NEG_INF (-128), line 106, and is set only when some vMaxH lane rises above vMaxHUnit, which starts at 0. When no H exceeds 0, the kernel reports score -128. | query "A" (s1Len 1) and database "A" (s2Len 1), substitution score -1, open 1, gap 1 | score 0: the Smith-Waterman floor, which every other stored H respects | not executed | SwProps8.NegInfExample | SwProps8.CorrectedScoreIsBestH |
