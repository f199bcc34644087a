# Verified model of the SPAD camera bridge

The bridge drives a SPAD camera over a lockstep TCP protocol, turns the bytes it receives into
image stacks, corrects and persists them, and ships the analysis code that segments those images.
This project models the parts whose correctness is not visible from any one function, and proves
it with Dafny 4.11. `dafny verify dfyconfig.toml` checks everything.

| part | modules |
|---|---|
| segmentation: labelling, branches, object table and label map | `Walks`, `Grids`, `Components`, `Regions`, `Branches`, `Objects` |
| grouping of correlated pixels | `Walks`, `Grouping` |
| statistics over a polygon | `PolygonRoi`, `ConvexPolygons` |
| framing, connection and client | `Bytes`, `Framing`, `Client` |
| busy guard under interleaving, health polls | `Instrument`, `Guard`, `Health` |
| wire layouts, batched and paced acquisition | `Codec`, `Acquisition`, `Paced` |
| command strings and the mock vendor | `Decimals`, `Commands`, `MockVendor` |
| from the printed request to the decoded frames | `EndToEnd` |
| dark references | `DarkReference`, `DarkRuns` |
| acquisition folders and the reducer | `Decimals`, `Folders` |
| sweeps with checkpoints | `Sweeps` |

`Options`, `Seqs`, `Sums` and `Sorting` hold a type, facts about sequences, sums over sequences and sets,
and stable sorting; `Histories` says what a flag tells about the events that set and cleared it.

Conventions. Objects whose methods change fields are classes, and grids written in place are
two-dimensional arrays; each such method is proved against a function or predicate over values,
about which the properties are proved. The environment (arrival of bytes, the vendor's answers,
stop requests, outcomes of acquisitions, images drawn by the mock) appears as parameters over which
every theorem is quantified. Coordinates, image brightness, centroids and correlations are real
numbers. A dark reference is represented by twice its value, a natural number: with 16-bit counts
every median, and every mean of at most two, is a multiple of one half and exact in the float types
the code uses.

Findings where the code does less than one might expect, each with its exact condition or a witness:

- the forced idle of the stop route and the unguarded DCR-curve route are exactly the steps that
  break the invariant behind mutual exclusion and pileup modes (`Guard.StepExact`,
  `Guard.RunSafeExact`); two operations then run at once exactly if one begins while the other, its
  status forced to idle, still runs (`Guard.AloneExactly`, `Guard.ForcedIdleBreaksExclusion`);
- a stop before a point still to acquire ends a sweep that is marked done all the same
  (`Sweeps.CompleteExactly`, `Sweeps.StoppedSweepIsLost`);
- a stop requested while a sweep point is being acquired is gone before the sweep looks, because the
  return to idle clears it (`Instrument.StopSurvivesExactly`, `Sweeps.OnlyStopsBetweenPointsCount`):
  a stop seen at a boundary inside a batched or paced point aborts that point, which ends the sweep
  as failed and resumable, but one requested in a point without a boundary lets the sweep run on;
- paced and continuous sweeps agree exactly at integral offsets, because the offset is rounded into
  the command (`Paced.PacedExact`);
- file names sort in frame order exactly up to 100000 frames (`Folders.NamesAscendExactly`), and
  saved values survive exactly when they fit the image depth, which a pileup-corrected stack of
  depth eight or less need not (`Folders.UnchangedExactly`);
- a folder suffix containing a line break defeats the numbering; the runner never passes one
  (`Folders.NewExactly`, `Folders.NameSuffix`);
- an error message that reaches the client in pieces, cut behind its mark, can leave its end to be taken
  for the reply to the next command if that comes before the idle watcher (`Client.CutRefusal`,
  `Client.LeftoverDesyncs`); one in a single piece leaves nothing (`Client.RefusedAtOnce`);
- image data that begins like an error frame is taken for one; nothing else keeps a whole reply from
  arriving (`EndToEnd.PayloadOrNothing`, `EndToEnd.LookalikeRefused`);
- a gated request for no frame at all, which the gated route does not reject, is answered by the
  mock with one frame (`MockVendor.GatedLengthExactly`).

`docs/bugs.md` describes a premature stop of the binary reader (B-25). The reader's target already
includes the sentinel (`bridge/protocol/client.py:305`); the model follows the code.

## Model

| member | source | states |
|---|---|---|
| Components.FloodFill | theoretical_info/Piimaging-512-2-analysis-main/SEP_D.py:142-152 | changes exactly the unlabelled foreground pixels a 4-connected walk of unlabelled foreground reaches; it terminates because unlabelled foreground shrinks |
| Components.ScanRow | theoretical_info/Piimaging-512-2-analysis-main/SEP_D.py:134-138 | one row of the scan keeps the invariant: every component met so far is labelled whole, numbered in raster order of its first pixel |
| Components.ConnectedComponents | theoretical_info/Piimaging-512-2-analysis-main/SEP_D.py:130-139 | zero exactly on background; equal labels exactly for pixels joined by a 4-connected foreground walk; labels 1 to K in raster order of first pixel |
| Components.LabellingUnique | theoretical_info/Piimaging-512-2-analysis-main/SEP_D.py:130-139 | that description leaves one labelling only |
| Regions.BoundingBoxTight | theoretical_info/Piimaging-512-2-analysis-main/SEP_D.py:165-174 | no box exactly when the label is absent; otherwise every pixel is inside and every side is touched |
| Regions.NpixCountsPixels | theoretical_info/Piimaging-512-2-analysis-main/SEP_D.py:176-179 | the pixel count is the size of the set of pixels carrying the label |
| Regions.MeasureDescribes | theoretical_info/Piimaging-512-2-analysis-main/SEP_D.py:155-184 | over the set of pixels carrying the label: `npix` counts them, `npix` times `x` is the total of their rows, `npix` times `y` that of their columns, and `mean_int` the total of the image |
| Regions.ValuesTotal | theoretical_info/Piimaging-512-2-analysis-main/SEP_D.py:124-125 | mean and standard deviation are taken over one value for each pixel of the image |
| Regions.VarianceExactly | theoretical_info/Piimaging-512-2-analysis-main/SEP_D.py:125 | the average times the count is the total; the variance is the mean square less the squared mean |
| Regions.StdUnique | theoretical_info/Piimaging-512-2-analysis-main/SEP_D.py:122-127 | the image has one standard deviation, so the threshold is determined by the image |
| Branches.ClosestBranch | theoretical_info/Piimaging-512-2-analysis-main/SEP_D.py:189-204 | the branch holding the first of the brightest neighbours that any branch holds; none exactly when no neighbour is held |
| Grids.NeighboursInOrder | theoretical_info/Piimaging-512-2-analysis-main/SEP_D.py:216-224 | the neighbours are met column by column, from top to bottom |
| Branches.NeighbouringBranches | theoretical_info/Piimaging-512-2-analysis-main/SEP_D.py:235-241 | the set of contents of the branches that hold one of the neighbours |
| Branches.TouchedCount | theoretical_info/Piimaging-512-2-analysis-main/SEP_D.py:241-245 | counting branch contents counts branches: more than one exactly when two different branches touch the point |
| Branches.BranchList.AddToBranch | theoretical_info/Piimaging-512-2-analysis-main/SEP_D.py:231-254 | a point between two branches is dropped, one touching a single branch extends it, any other starts a branch |
| Branches.AddPointKeepsGrown | theoretical_info/Piimaging-512-2-analysis-main/SEP_D.py:231-254 | handing over a pixel no brighter than its predecessors keeps branches disjoint, not 8-adjacent, and climbing to their first points |
| Branches.BrightOrderGrows | theoretical_info/Piimaging-512-2-analysis-main/SEP_D.py:256-272 | so does handing over any pixels brightest first; what is dropped lies between two branches |
| Branches.DroppedExactlyBetween | theoretical_info/Piimaging-512-2-analysis-main/SEP_D.py:243-245 | a drained pixel is in a branch exactly when it does not touch two of the final branches |
| Branches.BranchConnected | theoretical_info/Piimaging-512-2-analysis-main/SEP_D.py:256-272 | any two points of a branch are joined by an 8-path inside it; its first point is its brightest |
| Branches.FirstMax | theoretical_info/Piimaging-512-2-analysis-main/SEP_D.py:266-269 | the first position, in raster order, of the maximum |
| Branches.SplitObject | theoretical_info/Piimaging-512-2-analysis-main/SEP_D.py:259-272 | the drain loop terminates and hands over exactly the positive pixels of the object, brightest first, ties in raster order |
| Branches.SplitUnique | theoretical_info/Piimaging-512-2-analysis-main/SEP_D.py:259-272 | the branches are determined by the pixels of the object and their brightness, ties included |
| Objects.ExtractBranches | theoretical_info/Piimaging-512-2-analysis-main/SEP_D.py:256-279 | for each object in turn the branches of its drained pixels, short ones dropped when cleaning |
| Objects.CleanExactly | theoretical_info/Piimaging-512-2-analysis-main/SEP_D.py:274-275 | cleaning keeps exactly the branches longer than the setting; no setting keeps all |
| Objects.CleanInOrder | theoretical_info/Piimaging-512-2-analysis-main/SEP_D.py:274-275 | branch by branch, so in their order |
| Objects.AllBranchesDisjoint | theoretical_info/Piimaging-512-2-analysis-main/SEP_D.py:256-279 | no pixel is in two branches, of the same object or of different ones |
| Objects.UpdateObjects | theoretical_info/Piimaging-512-2-analysis-main/SEP_D.py:281-299 | entry k measures branch k painted alone, numbered through all objects |
| Objects.UpdateSegmentationMap | theoretical_info/Piimaging-512-2-analysis-main/SEP_D.py:301-321 | each pixel carries the number of the last branch containing it, zero outside all branches |
| Objects.TableMatchesMap | theoretical_info/Piimaging-512-2-analysis-main/SEP_D.py:281-321 | for disjoint branches the separately built table and map agree: same keys, and every entry measures its label in the map |
| Objects.FilterObjects | theoretical_info/Piimaging-512-2-analysis-main/SEP_D.py:352-360 | keeps exactly the entries passing every filter, in order |
| Objects.DroppedExactly | theoretical_info/Piimaging-512-2-analysis-main/SEP_D.py:352-360 | an object is dropped exactly when one of its four measurements is beyond a bound of a filter on that measurement |
| Objects.FilterMap | theoretical_info/Piimaging-512-2-analysis-main/SEP_D.py:362-369 | zeroes exactly the labels of the dropped objects |
| Objects.FilterKeepsConsistent | theoretical_info/Piimaging-512-2-analysis-main/SEP_D.py:352-369 | filtering keeps table and map in agreement |
| Objects.ThresholdImage | theoretical_info/Piimaging-512-2-analysis-main/SEP_D.py:122-127 | foreground exactly where the image exceeds its mean by the given number of standard deviations |
| Objects.CutExactly | theoretical_info/Piimaging-512-2-analysis-main/SEP_D.py:124-126 | less the factor times the standard deviation the cut is the mean over all pixels of the image |
| Objects.InitialObjects | theoretical_info/Piimaging-512-2-analysis-main/SEP_D.py:332-340 | one entry per label from 1 to the largest, each measuring its label |
| Objects.LabellingConsistent | theoretical_info/Piimaging-512-2-analysis-main/SEP_D.py:331-340 | the first table agrees with the component labelling, and its boxes lie in the image |
| Objects.ConsistentCounts | theoretical_info/Piimaging-512-2-analysis-main/SEP_D.py:327-375 | in agreement means: count, mean row and column, total brightness and tight box of an entry are those of the set of pixels carrying its key in the map |
| Objects.ConsistentKeys | theoretical_info/Piimaging-512-2-analysis-main/SEP_D.py:327-375 | and the keys are exactly the non-zero labels of the map |
| Objects.PositivePixelsHeld | theoretical_info/Piimaging-512-2-analysis-main/SEP_D.py:256-272 | of the pixels of a label, draining leaves in a branch exactly the positive ones that do not touch two branches |
| Objects.Deblend | theoretical_info/Piimaging-512-2-analysis-main/SEP_D.py:342-346 | deblending replaces a consistent pair by a consistent pair |
| Objects.ExtractObjects | theoretical_info/Piimaging-512-2-analysis-main/SEP_D.py:327-375 | with or without deblending, cleaning and filters the returned table and map agree, and hold exactly the objects of the requested stage that pass the filters |
| Grouping.StrongPairs | theoretical_info/Piimaging-512-2-analysis-main/correlatie.py:121-126 | exactly the positions below the diagonal that reach the threshold |
| Grouping.SortedFalls | theoretical_info/Piimaging-512-2-analysis-main/correlatie.py:129 | they are visited in order of falling correlation |
| Grouping.TiesInOrder | theoretical_info/Piimaging-512-2-analysis-main/correlatie.py:129 | equally strong pairs stay in their order |
| Grouping.StrongPairsInOrder | theoretical_info/Piimaging-512-2-analysis-main/correlatie.py:126 | which is that of the matrix, row by row |
| Grouping.PixelGroups.MergeInto | theoretical_info/Piimaging-512-2-analysis-main/correlatie.py:148-153 | the second branch moves behind the first, its pixels are remapped and it is emptied |
| Grouping.PixelGroups.AddPair | theoretical_info/Piimaging-512-2-analysis-main/correlatie.py:141-169 | one turn of the loop, in all its branches |
| Grouping.PairKeeps | theoretical_info/Piimaging-512-2-analysis-main/correlatie.py:141-169 | a pair keeps branches disjoint and duplicate-free, the pixel map exact, and every branch connected by strong pairs |
| Grouping.PairExactly | theoretical_info/Piimaging-512-2-analysis-main/correlatie.py:141-169 | a pair puts its pixels together exactly when both are grouped, or neither is, or the correlations of the one alone with the branch of the other add up to the threshold for each of its pixels |
| Grouping.PairBranches | theoretical_info/Piimaging-512-2-analysis-main/correlatie.py:148-169 | the pixels of both branches then have the first branch followed by the second, one alone last; every other pixel keeps its branch |
| Grouping.PairPlaces | theoretical_info/Piimaging-512-2-analysis-main/correlatie.py:148-169 | branches keep their places, a new one comes last |
| Grouping.Fold | theoretical_info/Piimaging-512-2-analysis-main/correlatie.py:131-169 | so does the loop over all pairs |
| Grouping.FoldCovers | theoretical_info/Piimaging-512-2-analysis-main/correlatie.py:141-169 | every strong pair leaves at least one of its pixels in a branch |
| Grouping.FoldUnites | theoretical_info/Piimaging-512-2-analysis-main/correlatie.py:141-169 | a visited pair that is to be put together has both its pixels in one branch of the final grouping |
| Grouping.OrderIsPermutation | theoretical_info/Piimaging-512-2-analysis-main/correlatie.py:171-185 | grouped pixels followed by the remaining ones list every index once |
| Grouping.LaidOutInOrder | theoretical_info/Piimaging-512-2-analysis-main/correlatie.py:171-178 | empty branches are dropped and the others laid out one by one in their order |
| Grouping.GroupPixels | theoretical_info/Piimaging-512-2-analysis-main/correlatie.py:121-185 | the whole grouping: the returned branches are those of the loop, non-empty, disjoint, duplicate-free and connected by strong pairs, and open a permutation of all pixels |
| PolygonRoi.PointInPolygon | frontend/src/utils/imageProcessing.ts:49-58 | whether an odd number of edges crosses the ray |
| PolygonRoi.StraddleParity | frontend/src/utils/imageProcessing.ts:51-55 | round any closed polygon a horizontal line is straddled an even number of times |
| PolygonRoi.MeetsBetween | frontend/src/utils/imageProcessing.ts:54 | a straddling edge meets the line between its ends |
| PolygonRoi.OutsideBounds | frontend/src/utils/imageProcessing.ts:49-58 | a point outside the bounds of the vertices is never inside |
| ConvexPolygons.CrossesExactly | frontend/src/utils/imageProcessing.ts:54 | division-free: a rising edge is crossed exactly by the points strictly to its left, a falling one by those strictly to its right |
| ConvexPolygons.InsideExactly | frontend/src/utils/imageProcessing.ts:49-58 | of a strictly convex polygon, in either sense of rotation, exactly the points strictly inside the rising and not outside the falling edge their line meets pass the test |
| ConvexPolygons.InsideBesideEvery | frontend/src/utils/imageProcessing.ts:49-58 | what passes is strictly outside of no edge |
| ConvexPolygons.BesideEveryInside | frontend/src/utils/imageProcessing.ts:49-58 | what is strictly inside of every edge passes |
| ConvexPolygons.SelectsItsPixel | frontend/src/utils/imageProcessing.ts:116 | the test is made at pixel centres: however small a square around a centre, it selects that pixel and no other |
| PolygonRoi.AccumulateRow | frontend/src/utils/imageProcessing.ts:75-82 | one row of the scan adds the selected values of that row |
| PolygonRoi.Accumulate | frontend/src/utils/imageProcessing.ts:60-86 | count, sum, mean, minimum and maximum of the selected values in the clipped box |
| PolygonRoi.StatsExactly | frontend/src/utils/imageProcessing.ts:84-85 | the mean times the count is the sum, and the extremes are values that bound all others |
| PolygonRoi.WholeGrid | frontend/src/utils/imageProcessing.ts:76-77 | the grid is stored row after row: scanning all of it gives its values in order |
| PolygonRoi.BoxLosesNothing | frontend/src/utils/imageProcessing.ts:101-117 | the clipped bounding box contains every pixel of the grid whose centre is inside the polygon |
| PolygonRoi.RectangleBox | frontend/src/utils/imageProcessing.ts:94-99 | the rounded box selects exactly the grid pixels whose open unit square meets the rectangle, whatever the sign of its sides |
| PolygonRoi.CellMeetsExactly | frontend/src/utils/imageProcessing.ts:94-99 | that is, have a point in common with it |
| PolygonRoi.Stats | frontend/src/utils/imageProcessing.ts:88-118 | the statistics are those of a scan of the whole grid |
| Framing.ReadText | bridge/protocol/client.py:282-292 | reads until a stripped buffer ends in the sentinel or starts with the error mark; fails on silence or end of stream |
| Bytes.StripExactly | bridge/protocol/client.py:289 | stripping takes white space off both ends and only there |
| Framing.ReadBinary | bridge/protocol/client.py:294-317 | reads until a sentinel at or beyond the expected length, or behind an error mark |
| Framing.ReadConserves | bridge/protocol/client.py:282-317 | no byte is lost or invented |
| Framing.AnyChunking | bridge/protocol/client.py:282-317 | however a self-delimiting answer is cut up, a frame is the whole answer and nothing stays unread |
| Framing.FramingExact | bridge/protocol/client.py:282-317 | being self-delimiting is exactly what makes that true of every chunking |
| Framing.TextSelfDelimiting | bridge/protocol/client.py:289-291 | a text body without an earlier sentinel or error mark qualifies |
| Framing.ErrorStopsBehindMark | bridge/protocol/client.py:289-291 | however an error message is cut up, the text reader stops only behind its mark |
| Framing.MarkStops | bridge/protocol/client.py:290 | and it needs no sentinel |
| Framing.BinarySelfDelimiting | bridge/protocol/client.py:305-313 | data of the expected length qualifies even if it contains or ends in the sentinel, an error message of any length if it does not |
| Client.ProtocolClient.Send | bridge/protocol/client.py:239-254 | a command: reply, error reply, or lost connection |
| Client.ProtocolClient.Acquire | bridge/protocol/client.py:256-275 | an acquisition, with the reset on a wrong length |
| Client.ProtocolClient.HandleDisconnect | bridge/protocol/client.py:172-184 | the connection and what was unread on it are gone; a second call does nothing |
| Client.ProtocolClient.IdleWatch | bridge/protocol/client.py:201-235 | stray bytes or a closed peer between requests drop the connection |
| Client.IdleExactly | bridge/protocol/client.py:201-235 | a watched connection survives exactly when nothing is unread, nothing arrives and the peer stays; an unwatched one always does |
| Client.ProtocolClient.OpenConnection | bridge/protocol/client.py:129-154 | connected only after both handshake replies |
| Client.AcquireOutcomes | bridge/protocol/client.py:256-327 | for any vendor: a returned payload has exactly the expected length and all bytes are accounted for; every other outcome but an error frame disconnects |
| Client.CommandOutcomes | bridge/protocol/client.py:239-254 | for any vendor: every byte of a reply or error reply is accounted for and the watcher is on; every other outcome disconnects |
| Client.RefusedCommand | bridge/protocol/client.py:250-253 | an error message is never taken for a reply, however it is cut up: it is reported and the connection kept |
| Client.RefusedAtOnce | bridge/protocol/client.py:250-253 | in one piece it leaves nothing unread |
| Client.CutRefusal | bridge/protocol/client.py:285-291 | cut behind its mark it leaves its end unread, for the watcher to drop the connection |
| Client.LeftoverDesyncs | bridge/protocol/client.py:239-254 | or, if a command comes first, to be taken for its reply |
| Client.HonestStep | bridge/protocol/client.py:239-275 | with an honest vendor one step leaves nothing unread and a reply answers its own request |
| Client.RequestsNumbered | bridge/protocol/client.py:239-275 | no two requests have the same number, and nothing but a request uses one up |
| Client.HonestRunClean | bridge/protocol/client.py:116-275 | nothing is unread between the steps of any honest run, whatever arrives while the watcher is on |
| Client.RepliesMatchRequests | bridge/protocol/client.py:116-275 | through any run of requests, refusals, timeouts, closures, stray bytes and reconnections each reply answers its own request |
| Client.LostRequestsUseNoAnswer | bridge/protocol/client.py:277-280 | a request that meets a lost connection is not sent, asks nothing of the vendor and uses up no answer |
| Client.DroppedForGood | bridge/protocol/client.py:116-176 | whatever the vendor sends, a dropped connection never returns: a later connected state is a later connection |
| Codec.EncodeIntensityFrames | mock_server/synthetic_data.py:80-96 | the frames on the wire, one after another; fails exactly when a one-bit frame can not be padded |
| Codec.OneRoundTrip | mock_server/synthetic_data.py:88-101 | a frame takes `bytes_per_frame` bytes and decodes to what the bridge sees of it |
| Codec.ValueOnWire | mock_server/synthetic_data.py:98-101 | a value is its low byte, or its low byte followed by the next |
| Codec.BitsOnWire | mock_server/synthetic_data.py:88-96 | eight pixels to the byte, the first of them the most significant bit |
| Codec.SensorSizes | bridge/protocol/decoder.py:151-157 | a full frame takes 32768, 262144 or 524288 bytes |
| Codec.DecodeIntensity | bridge/protocol/decoder.py:160-193 | frame by frame from its own bytes; fails exactly on a payload too short |
| Codec.SeenUnchanged | bridge/protocol/decoder.py:178-193 | a one-byte or two-byte frame comes back unchanged exactly when its values fit |
| Codec.SeenTurned | bridge/protocol/decoder.py:170-177 | a one-bit frame comes back as the counter-clockwise quarter turn of its binarised, padded image |
| Codec.SeenRowTurned | mock_server/synthetic_data.py:80-96 | a single row is repeated down the image before the turn |
| Codec.StackRoundTrip | bridge/protocol/decoder.py:151-193 | decoding an encoded stack gives each frame as seen; the wire length is the frame count times the frame size |
| Instrument.InstrumentState.Set | bridge/core/instrument.py:52-58 | returning to idle clears the stop request and its reason |
| Instrument.InstrumentState.RequestStop | bridge/core/instrument.py:60-65 | a stop while busy moves to stopping, which still counts as busy |
| Instrument.StopPendingExactly | bridge/core/instrument.py:52-65 | after any calls a stop is pending exactly when one was requested since the last return to idle |
| Instrument.BusyExactly | bridge/core/instrument.py:34-58 | busy exactly when set to anything but idle, and not to idle since |
| Instrument.StoppingExactly | bridge/core/instrument.py:52-65 | stopping exactly when a stop was requested while busy, or it was set so, and nothing else was set since |
| Instrument.ReasonExactly | bridge/core/instrument.py:52-65 | the reason kept is the last one given since the return to idle |
| Instrument.StopSurvivesExactly | bridge/core/instrument.py:52-65 | of the stops around an acquisition only those requested after its return to idle are pending |
| Guard.ScriptSetsFirst | bridge/core/acquisition.py:361-405 | every operation sets its own pileup mode before its first acquisition and never another |
| Guard.ScriptAcquiresAll | bridge/core/acquisition.py:361-405 | however an operation is split into requests, it acquires all its frames and no more |
| Guard.BatchAt | bridge/core/acquisition.py:376-381 | batch i of an intensity run: the mode, up to ten frames, a boundary |
| Guard.PacedAt | bridge/core/acquisition.py:791-822 | a paced sweep acquires step by step with a boundary between two steps |
| Guard.StepExact | bridge/core/instrument.py:34-65 | a step keeps the safe state (exclusion, status, mode, well-served acquisitions) exactly when it is not a forced idle under a running operation, an unguarded mode change, or an unguarded acquisition in the wrong mode |
| Guard.RunSafeExact | bridge/core/instrument.py:34-65 | a whole interleaving stays in safe states exactly as long as it meets none of these |
| Guard.GuardedRunSafe | bridge/core/acquisition.py:236-258 | under guarded operations, health polls and stop requests at most one operation runs, and every acquisition is served in the pileup mode its length was computed from, and so with that length |
| Guard.AloneExactly | bridge/core/instrument.py:34-65 | over any interleaving operations exclude each other exactly as long as none begins while a running one has had its status forced to idle |
| Guard.SoloServed | bridge/core/acquisition.py:236-258 | an operation begun on an idle instrument and left alone is served its whole script in its own mode, and leaves the instrument idle |
| Guard.BusyRefusesHotStops | bridge/core/acquisition.py:236-258 | while the instrument is busy no operation begins; a poll that finds it too hot stops the running one |
| Guard.StoppedAtBoundary | bridge/core/acquisition.py:382-384 | a stop pending at a boundary ends the operation there |
| Guard.ForcedIdleBreaksExclusion | bridge/routes/acquire.py:128-140 | the forced idle of the stop route lets a second acquisition start beside the first and spoil its mode and length |
| Health.HealthMonitor.ApplyAutoProtect | bridge/services/health.py:166-184 | a hot chip stops a busy instrument; a bias above the limit is commanded down on a free socket and latched either way |
| Health.HealthMonitor.EvaluateAlarms | bridge/services/health.py:142-162 | the alarms in force for the readings |
| Health.HealthMonitor.PollOnce | bridge/services/health.py:102-116 | one poll: fresh or cached readings, protection, alarms, and the broadcast of those that are new |
| Health.ReadingsExactly | bridge/services/health.py:102-138 | what a poll reads, when it reads, and what it keeps |
| Health.ProtectsExactly | bridge/services/health.py:166-184 | a stop is asked for exactly when valid readings are too hot while busy; a bias is commanded only on a free socket |
| Health.RaisedExactly | bridge/services/health.py:142-162 | after a poll exactly the alarms its readings warrant are in force; an abnormal laser deviates from the expected frequency by more than the tolerance |
| Health.LatchExactly | bridge/services/health.py:179-219 | after any polls and manual changes the warning is on exactly when protection has intervened since the last manual change |
| Health.BroadcastExactly | bridge/services/health.py:186-193 | an alarm is broadcast by the poll that raises it and by no other |
| Health.BroadcastsTellAlarms | bridge/services/health.py:186-193 | after any run the alarms in force are exactly those broadcast and not lowered since, each broadcast once |
| Health.BiasSettles | bridge/services/health.py:172-178 | the safe bias goes out only to a free socket, and not again until a reading exceeds the limit |
| Acquisition.AcquireBatches | bridge/core/acquisition.py:371-385 | batches of ten with a health poll after each, until all are done or a stop is seen; the commands sent are those the guard is proved for |
| Acquisition.AcquireIo | bridge/core/acquisition.py:352-385 | the payload is the scene up to the completed frame |
| Acquisition.OutcomeBoundaries | bridge/core/acquisition.py:374-385 | without an abort all frames are there; an abort happens only after whole batches or at the end, and exactly when some boundary sees a stop |
| Acquisition.OutcomeExactly | bridge/core/acquisition.py:373-385 | more than ten frames come in tens, up to the first batch behind which a stop is seen |
| Acquisition.BatchedDecodesAlike | bridge/core/acquisition.py:352-385 | the batched stack is the unbatched one cut at the completed frame |
| Paced.ContinuousGatedIo | bridge/core/acquisition.py:666-703 | the continuous command gives whole sweeps over the visited offsets; the commands sent are those the guard is proved for |
| Paced.PacedGatedIo | bridge/core/acquisition.py:757-834 | one single-step command per offset, transposed to whole sweeps, until done or stopped at a boundary |
| Paced.OffsetsAt | bridge/core/acquisition.py:771-780 | the gate positions visited: ascending, or descending in reverse, or as given |
| Paced.PacedOutcomeExactly | bridge/core/acquisition.py:815-820 | a sweep ends behind the first step at which a stop is seen; behind the last step none is looked for |
| Paced.RoundNearest | bridge/core/acquisition.py:798 | the command carries the nearest integer, the even one at a tie |
| Paced.PacedFrameAt | bridge/core/acquisition.py:826-834 | frame i * k + s shows iteration i at the rounded gate position of step s: the gate offset plus s step sizes, in reverse counted from the last step, or the given position |
| Paced.ContinuousPositionAt | bridge/core/acquisition.py:666-703 | a continuous stack shows the position itself |
| Paced.PacedIsContinuous | bridge/core/acquisition.py:757-834 | at integral offsets the paced stack after k steps is the continuous one over the first k visited offsets |
| Paced.IntegralStepOffsets | bridge/core/acquisition.py:771-779 | an integral step size makes every offset integral, forward and reverse |
| Paced.PacedExact | bridge/core/acquisition.py:798 | integral offsets are exactly what the agreement with every vendor needs |
| DarkReference.MajorityBoundsMedian | bridge/services/dark_reference.py:114-115 | a strict majority of repeats in a range puts the median in it, odd or even count |
| DarkReference.HalfDoesNotBound | bridge/services/dark_reference.py:114-115 | half of the repeats is not enough |
| DarkReference.MajorityCorrectsExactly | bridge/services/dark_reference.py:114-139 | a strict majority at d makes a count of d + s correct to s |
| DarkReference.MajorityBoundsReference | bridge/services/dark_reference.py:98-115 | in stacks: such a majority puts the reference of that pixel and step in the range |
| DarkReference.ReduceWithin | bridge/services/dark_reference.py:114-116 | median or mean, the reference lies within the range of its repeats |
| DarkReference.HalvesMeet | bridge/services/dark_reference.py:114-116 | half of two or more repeats at a and half at b put the reference in the middle |
| DarkReference.CorrectedIsNearest | bridge/services/dark_reference.py:138-139 | within one half of the exact clipped difference, even at a tie, never above the raw count |
| DarkReference.CorrectedMonotone | bridge/services/dark_reference.py:138-139 | monotone in the count, antitone in the reference |
| DarkReference.BuildReference | bridge/services/dark_reference.py:98-116 | fails exactly on a wrong frame count; one map per gate step, of the frames' shape |
| DarkReference.OwnReferenceRemovesAll | bridge/services/dark_reference.py:98-139 | a stack that repeats one sweep is reduced to that sweep, and correcting it by its own reference leaves nothing |
| DarkReference.ApplyDarkCorrection | bridge/services/dark_reference.py:119-139 | fails exactly on a broken sweep or another shape |
| DarkReference.CorrectionSweepBySweep | bridge/services/dark_reference.py:136-139 | correcting whole sweeps one after another gives the corrections one after another |
| DarkReference.MajorityRemovesDark | bridge/services/dark_reference.py:98-139 | in stacks: the reference built from such repeats removes exactly d at that step of every sweep |
| DarkRuns.CompleteRunFrames | bridge/core/acquisition.py:652-674 | an uncut run has exactly iterations times steps frames |
| DarkRuns.BuildNeverFails | bridge/routes/calibration.py:219-242 | the frame-count check cannot fail on a completed measurement |
| DarkRuns.StoresExactly | bridge/routes/calibration.py:219-242 | a measurement stores one new reference, built from its frames, exactly when its run was done and not aborted |
| DarkRuns.UseIsSound | bridge/core/acquisition.py:592-664 | with a store of well-shaped references no shape check fails, and one is applied only to whole sweeps of its own configuration, never to a partial paced stack |
| DarkRuns.AppliedExactly | bridge/core/acquisition.py:592-664 | a run fails exactly when it asks for a reference that does not match; a matching one is applied exactly when the run is not a sweep cut short |
| DarkRuns.Provenance | bridge/routes/calibration.py:219-242 | after any measurements and uses every stored reference was built from a complete run of its own configuration, or was there at first |
| DarkRuns.EveryUseIsSound | bridge/core/acquisition.py:592-664 | after any measurements and uses from an empty store: no shape check fails, and an applied reference was built, in that history, from a complete run agreeing on every key, and is applied to whole sweeps |
| Decimals.ParsePadded | bridge/services/file_writer.py:98-101 | a zero-padded number reads back |
| Decimals.PaddedOrder | bridge/services/file_writer.py:141 | numbers that fit the padding are ordered as their names are |
| Folders.NumberReadsBack | bridge/services/file_writer.py:21 | the number in a new name reads back unless the suffix breaks the line |
| Folders.NumberOfName | bridge/services/file_writer.py:21 | any number of digits after the prefix is the number of a folder, whatever follows on the line |
| Folders.NextIsNew | bridge/services/file_writer.py:94-106 | the chosen folder name is new and its number exceeds every existing one |
| Folders.NewExactly | bridge/services/file_writer.py:94-106 | that holds for every set of folders exactly when the suffix has no line break |
| Folders.NextNameUnique | bridge/services/file_writer.py:94-106 | the name is determined by the existing ones, whatever the order of the listing |
| Folders.NameSuffix | bridge/services/file_writer.py:89-91 | the suffix the runner passes has no line break |
| Folders.NameSuffixKept | bridge/services/file_writer.py:89-91 | safe names are kept, the sample before the experiment |
| Folders.RunBecomesDash | bridge/services/file_writer.py:90 | safe text is kept and a run of other characters between is one dash |
| Folders.NamesSpelled | bridge/services/file_writer.py:101-141 | the first folder and file names in full |
| Folders.ModeRoot.NextAcqDir | bridge/services/file_writer.py:94-106 | one above the highest number found, in whatever order the folders are listed |
| Folders.ModeRoot.WriteFrames | bridge/services/file_writer.py:132-143 | the files of the stack, in one folder only |
| Folders.ModeRoot.SaveAcquisition | bridge/services/file_writer.py:115-144 | the next folder receives the files; no other folder changes |
| Folders.GatedLabels | bridge/services/file_writer.py:136-140 | file i * k + s of a gated folder is labelled iteration i, step s |
| Folders.NamesAscendExactly | bridge/services/reducer.py:46 | sorted names come in frame order exactly up to 100000 frames |
| Folders.CountNeverCuts | bridge/services/reducer.py:29-36 | the frame count in the metadata is never below the number of files, partial paced runs included |
| Folders.MovieExactly | bridge/services/reducer.py:50-57 | a movie has as many frames as the metadata counts, at most one per image |
| Folders.ReduceFolder | bridge/services/reducer.py:39-62 | the outcome, cropping included, depends on the folder only, not on the order of its listing; the failures are those of the source |
| Folders.CroppedAt | bridge/services/reducer.py:59-62 | a cropped frame has the size of the Python slices and shows the frame shifted to their corner |
| Folders.SliceExactly | bridge/services/reducer.py:59-62 | with bounds counted from the end when negative the cut holds exactly the indices between them |
| Folders.SaveThenReduce | bridge/services/reducer.py:39-62 | reducing a saved folder gives every frame in order, cast to the image depth and cropped as asked |
| Folders.UnchangedExactly | bridge/services/file_writer.py:109-112 | the cast changes nothing exactly when every value fits the depth |
| Folders.CastKeepsLowBits | bridge/services/file_writer.py:109-112 | otherwise it keeps the low bits |
| Folders.Persist | bridge/core/acquisition.py:467-525 | saving with the reducer on: a new folder, the others untouched, and the movie of the saved stack |
| Commands.SplitJoin | bridge/protocol/commands.py:50-99 | comma-separated fields come back from the line |
| Commands.IntensityReads | bridge/protocol/commands.py:50-62 | the intensity line reaches its handler with the printed fields in their places |
| Commands.GatedReads | bridge/protocol/commands.py:77-99 | so does the gated line |
| Commands.PileupReads | bridge/protocol/commands.py:33-34 | and the pileup line |
| MockVendor.MockState.TakeAcquireFailure | mock_server/state.py:92-99 | the armed fault fires once, after the given number of acquisitions |
| MockVendor.MockState.HandlePileup | mock_server/protocol.py:139-143 | sets the mode, or reports it without arguments |
| MockVendor.MockState.HandleIntensity | mock_server/protocol.py:181-197 | one encoded image per iteration at the resolved width and depth |
| MockVendor.MockState.HandleGated | mock_server/protocol.py:200-215 | the encoded gated frames, never none |
| MockVendor.MockState.Handle | mock_server/protocol.py:69-99 | dispatch of a line: empty, failing, known and unknown commands |
| MockVendor.FaultExactly | mock_server/protocol.py:73-80 | among all commands exactly the acquisition that follows the armed number of them fails |
| MockVendor.BareRequests | mock_server/protocol.py:181-215 | without arguments the requests have their defaults: one full eight-bit frame, and ten |
| MockVendor.UnknownRefused | mock_server/protocol.py:73-98 | a blank line or unknown command changes nothing and is answered with an error |
| MockVendor.PileupSets | mock_server/protocol.py:139-143 | after the printed pileup command the vendor is in that mode |
| MockVendor.IntensityLengthExactly | mock_server/protocol.py:181-197 | a printed intensity request is answered with the expected bytes exactly when its width is valid or its depth is one bit |
| MockVendor.IntensityDecodes | mock_server/protocol.py:181-197 | and decodes to the drawn image once per iteration, one-bit at narrow widths and pileup at low depth included |
| MockVendor.GatedLengthExactly | mock_server/protocol.py:200-215 | a printed gated request, negative counts included, is answered with the expected bytes exactly when its depth is above one bit and it asks for a frame |
| MockVendor.GatedDecodes | mock_server/protocol.py:200-215 | and decodes to the drawn frames in order |
| EndToEnd.PayloadOrNothing | bridge/protocol/client.py:294-327 | of a payload of the expected length the client gets all or nothing, and all of it, when the bytes keep coming, exactly if it does not look like an error frame |
| EndToEnd.ImageReadsAsError | bridge/protocol/client.py:319-321 | a valid eight-bit image whose payload reads as an error frame |
| EndToEnd.LookalikeRefused | bridge/protocol/client.py:256-327 | the request for it is refused, however the bytes arrive |
| EndToEnd.IntensityEndToEnd | bridge/core/acquisition.py:361-405 | printed command, mock, any chunking, reader and decoder together: a valid intensity request yields the drawn image once per iteration |
| EndToEnd.GatedEndToEnd | bridge/core/acquisition.py:666-703 | and a valid gated request the drawn frames in order |
| Sweeps.ResolvePoints | bridge/services/sweep.py:35-76 | the points of the cartesian product in order, each with base and assignment merged; fails without parameter and values |
| Sweeps.ComboAt | bridge/services/sweep.py:51 | every choice of one value per parameter is a point, at its mixed-radix position, last parameter fastest |
| Sweeps.PositionOfChoice | bridge/services/sweep.py:51 | and every position is such a choice, so there are no others |
| Sweeps.MergedExactly | bridge/services/sweep.py:60 | a point has its own values for the swept parameters and those of the base for all others |
| Sweeps.PointHasChoice | bridge/services/sweep.py:51-62 | the point at the position of a choice is acquired with the chosen value of every swept parameter |
| Sweeps.LatestIncomplete | bridge/core/checkpoint.py:113-121 | the latest sweep that is not done; none exactly when all are done |
| Sweeps.CheckpointStore.CreateSweep | bridge/core/checkpoint.py:60-67 | a new row, not done |
| Sweeps.CheckpointStore.RecordPoint | bridge/core/checkpoint.py:73-87 | inserts or replaces the row of that point |
| Sweeps.SweepRunner.Launch | bridge/services/sweep.py:156-223 | the loop over the points: skip, stop, fail or record, and the reply counts; the runner stays active after completion |
| Sweeps.SweepRunner.EndLinger | bridge/services/sweep.py:219-223 | the end of the lingering active state |
| Sweeps.SweepRunner.Start | bridge/services/sweep.py:96-124 | a new sweep over the resolved points, done unless a point failed; refused while busy or lingering |
| Sweeps.SweepRunner.Resume | bridge/services/sweep.py:126-136 | the latest incomplete sweep with the recorded points skipped; nothing else changes |
| Sweeps.RunFromPrefix | bridge/services/sweep.py:156-223 | a run without stops over m recorded points goes on to the first failure and records exactly the points between |
| Sweeps.ResumeInvisible | bridge/services/sweep.py:156-223 | over any list of failing runs the completing one has the results of a single smooth run; every point is recorded exactly once over all runs |
| Sweeps.Session | bridge/services/sweep.py:96-223 | a start and the resumes after it, on the store: each picks up the same sweep with its recorded points; once done, the reply holds all results in order with skipped plus written adding up, every row is there, each written by exactly one run, no other sweep is touched, and a run without failures ends the session |
| Sweeps.WholeIsSmooth | bridge/services/sweep.py:96-223 | the results of a completed session are those of a single run in which nothing failed |
| Sweeps.CountsAddUp | bridge/services/sweep.py:186-218 | on completion skipped plus written is the number of points; on failure `points_completed` is what this run wrote, the message is that of the first failing point, and the results are those before it |
| Sweeps.CompleteExactly | bridge/services/sweep.py:180-207 | a run without failures leaves no point out exactly when no stop is pending before a point still to acquire |
| Sweeps.OnlyStopsBetweenPointsCount | bridge/services/sweep.py:174-207 | in terms of calls on the instrument: a run without failures leaves no point out exactly when no stop is requested between the last return to idle and the look at a point still to acquire |
| Sweeps.StoppedSweepIsLost | bridge/services/sweep.py:207 | a stopped sweep is marked done with points missing and can not be resumed |

## Left out

- HTTP routes, request models, the WebSocket hub, the user interface and the launchers: plumbing; route checks appear only as preconditions.
- The DCR-curve route and the forced idle of `POST /stop` are outside the guard's guarantee: they are steps of the model and shown to be its only hazards.
- Client.ProtocolClient.OpenConnection: the welcome banner and the wait for a running breakdown calibration are not modelled; the handshake is the two information requests.
- Client.RepliesMatchRequests: an error message in answer to a command arrives in one piece (`LeftoverDesyncs` shows why), and one in answer to an acquisition contains no earlier sentinel; after the latter the watcher is off, so nothing may arrive. A command timed out by its caller and the `reset` after it are one step, and so are `_handle_disconnect` and the callback it awaits.
- Client: decoding reply bytes as UTF-8, log output, backoff and real time; a read that times out is the arrival `Silence`.
- Guard: the vendor's pileup mode is assumed to survive a reconnection; requests of a health poll change no acquisition setting.
- Health.HealthMonitor.PollOnce: a poll is one step, so two polls do not interleave within one; alarm values, severities, and the readings no decision depends on are not modelled, nor is changing the configuration.
- Objects.ThresholdImage: the standard deviation is a parameter required to be the image's, since it is a square root; real numbers, without rounding.
- Objects.ExtractObjects: the image is not empty, since the source takes the maximum of the label grid; labels are unbounded integers; filter keys are the four numeric fields.
- Components.FloodFill: unbounded call stack.
- Grouping.GroupPixels: the correlation matrix is a parameter, symmetric as computed; the source lists the remaining pixels in the order of a Python set, here in any order.
- PolygonRoi.Stats: coordinates are real numbers, without rounding; values are integers.
- Paced.PacedExact: depths above one bit, the only ones gated mode has; offsets are real numbers.
- DarkReference.MajorityBoundsMedian: counts are those of a 16-bit stack, for which the float arithmetic of the source is exact.
- DarkRuns: stored fingerprints and arrays come back as they were saved; reference ids are never reused; one sensor size.
- MockVendor.IntensityLengthExactly: iterations and width up to 2^53, where `float()` of a numeral is exact; how strings other than numerals are read is a parameter; an infinite value, which raises in the mock, is not modelled.
- MockVendor.GatedLengthExactly: iterations and steps up to 2^53 in size, as above.
- MockVendor.MockState.Handle: the text of replies and the handlers of other commands; the drawn images are a parameter of the right shape.
- EndToEnd.IntensityEndToEnd: one request, that is one batch; `Acquisition.BatchedDecodesAlike` puts the batches together.
- Commands: the floating-point numbers in a command are given as printed, without a comma.
- Folders: digits are ASCII; text chunks other than the counts and labels are carried along unread; PNG, NumPy and JSON files are lossless containers; frames of one folder have one shape, any other shape is an error; counts in the metadata are plain numerals.
- Sweeps: points and paths survive the JSON of the store; ids are positions in order of creation, so the latest sweep is the last one; point labels are not modelled.
- Sweeps.CheckpointStore.RecordPoint: the label and value columns are not kept, since no reader of a sweep uses them; results take both from the spec.
- Sweeps: an exception other than a failed point is not modelled.
- FLIM processing, background estimation, histogram and display stretching, previews, experiment log, presets, queue and scheduler: only easy members or floating-point work.
