# Verified model of the dlb_mp4base index machinery

This project models, in Dafny, the parts of dlb_mp4base that build and read compressed indexes of media
samples, and proves what they promise for all inputs. Every operation that changes state in the C code is a
method or a class here, proved against functions on values; the promises are lemmas about those functions or
contracts of the methods.

`dafny verify dfyconfig.toml` checks everything.

## The parts

**Sample tables, from input to lookup.** `TrackInput` takes samples one by one into run-length lists and
chunks, whose bounds follow `ChunkRule`. `MdatWriter` interleaves the chunks of all tracks into the media data
box, following `MergeSchedule`. `TableWriter` writes the stts, ctts, stss, stsc, stsz and stco tables (ISO/IEC 14496-12,
sections 8.6 and 8.7). `SampleTables` says what such tables mean, without state; `SampleReader` models the
lookups of the stream code, whose search positions persist and are shared between queries, and proves each
equal to the stateless meaning. `IndexLookup` and `IndexTiling` connect the two ends, and
`IndexEndToEnd.Mux` states the result for whole runs; `QueryHistory` and `IndexEndToEnd.Replay` state it for
any history of lookups on one stream.

**Fragments.** `Fragmenter` splits a track with list cursors, as the C code does; `FragmentRule` is the rule it
follows, as functions of the track and the configured durations alone, with the exact conditions for a good split.
`FragmentSplit` says when a split is valid and why the longest fragments are the fewest. `FragmentCases` runs the
code on tracks it gets wrong. `FragmentWriter` decides which per-sample fields are left out; `FragmentReader`
is a reader that follows sections 8.8.3, 8.8.7, 8.8.8 and 8.8.12 of ISO/IEC 14496-12. `FragmentEndToEnd` runs
them after each other; `FragmentSize` is the size of a fragment.

**Picture reorder buffer.** `ReorderModel` is the state machine of the decoded-picture buffer on values,
`ReorderBuffer` the arrays, counters and two-level map of the C code, `DisplayOrder` the exact condition for
output in display order, `ReorderRuns` whole runs of the class.

**Bits, bytes, lists and boxes.** `BitIO` is the bit interface, `AudioConfig`, `ProgramConfig` and
`AudioRoundTrip` the AudioSpecificConfig printer and parser on top of it, and `AudioSyntax` the tables they have to
follow. `IoBuffer` is the growing buffer, `BoxWriter` the box sizes patched into it afterwards. `LinkedList` is the list
with its cursor and mark.

## What the proofs found

- `rescale_u64` is documented as `u64*new_scale/old_scale` (include/utils.h:97-98), but the code rounds to
  the nearest integer (src/util/utils.c:249-262). The model follows the code. `TimeScale.RescaleIsQuotient` is the
  exact condition under which the two agree, `TimeScale.HalfRoundsUp` an input where they do not.
- `stream_get_prev_sync_sample_idx` starts from a search position that is not the first stss entry. Until the
  position has moved, a query before the second entry answers 0 although sample 0 is not a sync sample.
  `QueryHistory.AskAll` says exactly which queries of a history are answered wrongly,
  `QueryHistory.FirstSyncInvented` is a table with such an answer. (That the position starts at zero is an
  assumption, see below.)
- `create_fragment_lst` compares decode times, which need not start at 0, with the media duration, which counts
  from the first sample (src/mp4_muxer.c:5261-5262). On success the fragments are a partition into fitting ones if and
  only if no start goes wrong (`FragmentRule.Rule.Sound`): a start that is not before the media
  duration is left out, a first fragment may be empty, and the end of the track may be taken in when it is too far or
  behind another description. For decode times from 0 only a last sample without duration can go
  wrong, under the closed condition `FragmentRule.Rule.EndIsSafe`. `FragmentCases` has an input for each way.
- It also compares the end of the track with the fragment limit by `<` where it compares samples
  by `<=`. The end of a mixed track that lies exactly at the limit is cut off at the last sync
  sample although it would fit (`FragmentRule.Rule.MissesEnd`). For decode times from 0 and starts at sync samples,
  the split has the fewest fragments if and only if no fragment misses the end. `FragmentCases.EndMissed` is
  a track where one does, `FragmentCases.LateStartNotFewest` one that starts later and gets more than needed.
- `get_moof_by_TrackIndex` cuts behind the last sample by adding the second decode time, and takes -1 when there is no
  second sample (src/mp4_muxer.c:3304-3307). A lone sample after time 0 is therefore not written
  (`FragmentCases.LateAloneLost`); of other tracks every sample of a fragment is written.
- `write_stts_box` gives the last sample what the media duration leaves behind its decode time. That is its own
  duration exactly under the condition of `IndexEndToEnd.LastDurationExactly`; when decode times start later it is
  usually short by that time.
- With an empty trex the mode of the sample flags is never set, and stays at its initial value. Only the first sample
  of a fragment keeps its flags; the others read as 0 (`FragmentWriter.FragTrack.EmptyTrexDropsFlags`). Everything else is read
  back all the same.
- Across a gap in the decode times the top of the chunk window lags behind, one span per chunk, so that samples of one
  window are split (`ChunkRule.GapsSplitWindows`). While no gap is longer than a span, chunks change exactly with the
  window, the description or the size limit (`ChunkRule.SteadyChunks`).
- A printed AudioSpecificConfig does not always parse back: a core coder delay above 255 is cut, PS
  without SBR in the extension is lost, extra bits that only the parser knows hide a printed extension, and
  behind a program config element the comment is printed without the length the parser expects (of a comment
  with a length, the parser keeps the last byte only: `ProgramConfig.OnlyLastByteKept`).
  `AudioRoundTrip.ParsePrinted` is an equivalence, and runs of printer and parser on a failing input of each kind
  stand beside it.
- `list_remove_entry` does not look at the mark, so that removing the marked entry leaves a dangling mark
  (`LinkedList.MarkDangles`).

## What is assumed of the input

- Samples of a track: the first one kept opens a sample description, sizes and decode-time steps
  fit 32 bits, decode times do not decrease, and sums and converted times fit 64 bits
  (`IndexEndToEnd.InputOk`). These are the widths of the box fields.
- stco without co64 is correct for files below 4 GB; `Mux` states its result under that condition.
- Fragments: decode times increase, and no sample is longer than a fragment may be (`FragmentEndToEnd.TrackOk`).
  They may start at any time, and the last sample may have duration 0. The `frag_dts` of a track is 0 at first.
- The search positions of a stream all start at zero. This is an assumption: the code that sets up the
  `box_data_tbl_t` of a stream is not part of this model.
- The reorder buffer: no more than 4096 x 1024 pictures (the source asserts this) and a reorder count of at
  most 32 where the arrays are concerned. The setter takes any readiness bound, but as long as the buffer is
  not ready an update reads the map at the bound, which has to lie in the first section or in what is allocated
  (`ReorderBuffer.Apoc.Checkable`).

## Model

| member | source | states |
|---|---|---|
| ReorderModel.RunKeepsInv | src/esparser/parser_avc_dpb.c:117-217 | every sequence of reorder-count changes, flushes and additions keeps decoded pictures partitioned into held and output ones and keeps the link between buffer positions and the delay |
| ReorderModel.ReachableConserving | src/esparser/parser_avc_dpb.c:117-217 | in every reachable state held plus output pictures are a permutation of the decoded ones, and each decode index sits in exactly one slot or at exactly one output index |
| ReorderModel.ReorderDelayIsMinimal | src/esparser/parser_avc_dpb.c:169-233 | once a picture is out, a delay d keeps every composition offset non-negative if and only if d is at least the tracked reorder_min |
| ReorderModel.OutputBound | src/esparser/parser_avc_dpb.c:136-167 | no more pictures are out than there are decode indexes below a bound on those out |
| ReorderModel.HeldIsNew | src/esparser/parser_avc_dpb.c:136-167 | a held picture is less than 33 past any bound on the output so far, so one new map section always suffices, and it has no output index yet |
| ReorderModel.SetEffect | src/esparser/parser_avc_dpb.c:105-109 | a new count changes the capacity alone |
| ReorderModel.AddEffect | src/esparser/parser_avc_dpb.c:117-217 | an added picture joins the held ones; below the capacity none leaves, else exactly the one of least POC, the earliest of several, leaves |
| ReorderModel.FlushEffect | src/esparser/parser_avc_dpb.c:195-201 | a flush appends all held pictures to the output, by POC and then decode index, and holds none |
| ReorderModel.IdrEffect | src/esparser/parser_avc_dpb.c:203-217 | before an IDR picture everything decoded earlier is put out; the new picture opens the next period |
| ReorderModel.DecodedAre | src/esparser/parser_avc_dpb.c:203-217 | the decoded pictures are those of the events, numbered in order, each in the period given by the flushes and IDR pictures up to it |
| ReorderModel.CapacityIs | src/esparser/parser_avc_dpb.c:79-109 | the capacity is one more than the last reorder count set, or 33 |
| DisplayOrder.OutputIsDisplayOrder | src/esparser/parser_avc_dpb.c:105-133 | with a fixed count n the flushed output is a permutation of the input, in display order (periods first, then POC) if and only if no picture has more than n earlier-decoded pictures of its period with larger POC |
| DisplayOrder.SmallReorderNeverOverflows | src/esparser/parser_avc_dpb.c:36-43 | with counts up to 32 there is always a free slot among the 33 |
| DisplayOrder.ArraysFitExactly | src/esparser/parser_avc_dpb.c:36-43 | the arrays fit every run with counts up to n if and only if n <= 32 |
| ReorderBuffer.Apoc.constructor | src/esparser/parser_avc_dpb.c:79-103 | a new buffer represents the initial state |
| ReorderBuffer.Apoc.SetNumReorderAu | src/esparser/parser_avc_dpb.c:105-109 | the capacity becomes one more than the count; nothing else changes |
| ReorderBuffer.Apoc.SetMaxRefAu | src/esparser/parser_avc_dpb.c:111-115 | any bound is taken, and only the readiness bound changes |
| ReorderBuffer.Apoc.Update | src/esparser/parser_avc_dpb.c:117-193 | the arrays shifted in place, the counters and the sectioned map represent the model step; readiness is reported exactly when the first ref_au_max+1 pictures are out (the bound must lie where the map can be read) |
| ReorderBuffer.Apoc.Record | src/esparser/parser_avc_dpb.c:149-167 | the two-level map stays equal to the flat map, and grows by one section exactly when the decode index lies past it |
| ReorderBuffer.Apoc.Flush | src/esparser/parser_avc_dpb.c:195-201 | the buffer is emptied, in the order of the model |
| ReorderBuffer.Apoc.Add | src/esparser/parser_avc_dpb.c:203-217 | one added picture is one model step, an IDR picture after a flush; what the step does is stated by AddEffect and IdrEffect |
| ReorderBuffer.Apoc.ReorderNum | src/esparser/parser_avc_dpb.c:219-233 | -1 exactly for pictures that cannot be answered yet, otherwise delay plus output index minus decode index, which is never negative |
| ReorderBuffer.Apoc.MinCts | src/esparser/parser_avc_dpb.c:235-246 | the delay itself once the picture shown first can be looked up, never more than the delay |
| ReorderBuffer.Apoc.NeedAdjCts | src/esparser/parser_avc_dpb.c:248-252 | true exactly when some output picture has a decode index above its output index |
| ReorderRuns.Play | src/esparser/parser_avc_dpb.c:79-246 | any sequence of the calls, the readiness setter included, on a new buffer, with reorder counts up to 32 and readiness bounds below 1024, ends in the state of the model, with the pictures and periods the events give, and the reorder_min field is exactly the least sufficient delay |
| ReorderRuns.PlayStream | src/esparser/parser_avc_dpb.c:105-217 | a stream decoded with fixed count and flushed comes out complete, in display order exactly under the predecessor condition, with periods counted by the flushes and IDR pictures among the events |
| LinkedList.List.AddEntry | src/util/list_itr.c:121-148 | the entry becomes the last one; a cursor that has run out stays out |
| LinkedList.List.RemoveEntry | src/util/list_itr.c:150-192 | the entry is unlinked wherever it stands, a cursor on it moves to its successor, and an entry not in the list changes nothing |
| LinkedList.List.DeleteFirstEntry | src/util/list_itr.c:228-252 | the list without its first entry, the cursor kept on its entry or moved to the new first one |
| LinkedList.List.ItGetEntry | src/util/list_itr.c:296-310 | the entry under the cursor, which moves on by one and stays at the end |
| LinkedList.Walk | src/util/list_itr.c:289-310 | init followed by reads until the end sees every entry once, in order, wherever the cursor stood |
| LinkedList.List.ItGotoMark | src/util/list_itr.c:341-349 | the cursor is back at the place of the mark |
| LinkedList.LookAhead | src/util/list_itr.c:296-349 | reading any number of entries between save and goto of the mark sees them in order and restores the list |
| LinkedList.MarkDangles | src/util/list_itr.c:150-192 | removing the marked entry leaves the mark pointing outside the list |
| LinkedList.CountValueLstUpdate | src/util/list_itr.c:255-286 | one value appended to the run-length list in the linked nodes, every run still numbered by its first item |
| RunLength.AppendItemExpands | src/util/list_itr.c:255-286 | the runs stand for the items plus the new one, and stay without mergeable neighbours |
| RunLength.CanonicalIsUnique | src/util/list_itr.c:255-286 | a list of runs without mergeable neighbours is determined by its items |
| TimeScale.RescaleIsNearest | src/util/utils.c:249-262 | both branches of the conversion compute the same quotient, rounded to the nearest integer |
| TimeScale.RescaleMonotone | src/util/utils.c:249-262 | while the result fits 64 bits, conversion keeps timestamps in order |
| TimeScale.NearestError | src/util/utils.c:249-262 | the conversion is off by at most half a unit |
| TimeScale.RescaleIsQuotient | src/util/utils.c:249-262 | the conversion is the documented quotient if and only if the remainder plus half the old scale stays below the old scale |
| TimeScale.HalfRoundsUp | src/util/utils.c:249-262 | an input where it is not: one unit converted to half the scale |
| TrackInput.Track.ChunkUpdate | src/mp4_muxer.c:4840-4949 | after every sample the chunk list cuts the samples into consecutive groups of one description, over the size limit only alone, each in one span-aligned window when decode times are in order; a chunk is opened exactly on a new description, at the window top or at the size limit |
| TrackInput.Track.ChunkHoldsTogether | src/mp4_muxer.c:4840-4949 | any two samples of a chunk have the same description and, with interleaving and decode times in order, lie in one span-aligned window |
| TrackInput.Track.InputSample | src/mp4_muxer.c:5106-5276 | every list of the track (sizes, decode times, composition offsets, sync samples, descriptions, chunks, temporary file) describes exactly the samples taken so far; empty samples are dropped |
| TrackInput.CtsValueIs | src/mp4_muxer.c:5255-5260 | a stored composition offset is, in 32 bits, the difference to that of the first sample |
| TrackInput.MaxSizeIs | src/mp4_muxer.c:5106-5276 | the tracked size is that of a largest sample |
| TrackInput.Track.ChunksInTime | src/mp4_muxer.c:4840-4949 | the chunks of a track without gaps change exactly with description, window and size limit |
| ChunkRule.RuleIsUnique | src/mp4_muxer.c:4851-4947 | the samples determine their chunks: two chunk lists that follow the opening rule agree in number and bounds |
| ChunkRule.RuleOpen | src/mp4_muxer.c:4879-4947 | a chunk opened for a reason keeps the list within the rule, and its first decode time moves the window top |
| ChunkRule.RuleJoin | src/mp4_muxer.c:4857-4871 | a sample below the window top joining the last chunk keeps the list within the rule |
| ChunkRule.TopNext | src/mp4_muxer.c:4924-4942 | the first chunk sets the window top to the end of its span, a later one raises it by one span if it starts there or later |
| ChunkRule.SteadyChunks | src/mp4_muxer.c:4840-4949 | main result for decode times without gaps: a chunk ends exactly at a new description, at another span-aligned window, or at the size limit |
| ChunkRule.GapsSplitWindows | src/mp4_muxer.c:4924-4942 | with a span of 100, samples at 0, 250 and 260 start three chunks |
| Samples.OneDescription | src/mp4_muxer.c:4840-4949 | all samples of a chunk carry the chunk's description index |
| Samples.NewDescsCount | src/mp4_muxer.c:4902-4923 | the description index is the number of samples so far that open one |
| Samples.GoodJoin | src/mp4_muxer.c:4861-4872 | joining the last chunk keeps groups, windows and chunk times right |
| Samples.GoodOpen | src/mp4_muxer.c:4879-4949 | opening a chunk keeps groups, windows and chunk times right |
| TableWriter.WriteStts | src/mp4_muxer.c:1889-1996 | the entries stand for the neighbouring decode-time differences and the rest of the media duration; in shortest form when that rest fits 32 bits |
| TableWriter.StepsSum | src/mp4_muxer.c:1889-1996 | summing the written deltas gives every decode time relative to the first |
| TableWriter.StepsSumToDuration | src/mp4_muxer.c:1889-1996 | for two or more samples from 0 the deltas add up to the media duration |
| TableWriter.WriteCtts | src/mp4_muxer.c:1998-2061 | no entries when every offset is 0, otherwise entries that stand for all offsets in 32 bits |
| TableWriter.CttsRoundTrip | src/mp4_muxer.c:1998-2061 | a reader finds the offset of every sample whether the box is there or not |
| TableWriter.NoOffsetsExactly | src/mp4_muxer.c:1998-2061 | the box is left out exactly when all offsets are 0 |
| TableWriter.WriteStss | src/mp4_muxer.c:2063-2108 | the 1-based sync sample numbers, no entries when all samples or none are sync samples |
| TableWriter.WriteStsz | src/mp4_muxer.c:2163-2211 | one common size, or 0 and all sizes |
| TableWriter.StszRoundTrip | src/mp4_muxer.c:2163-2211 | because no sample is empty the two forms cannot be confused and every size is found |
| TableWriter.WriteStsc | src/mp4_muxer.c:2110-2161 | the entries start at chunk 1, increase, give sample count and description of every chunk, and none repeats the one before |
| TableWriter.WriteStco | src/mp4_muxer.c:2213-2250 | one offset per chunk, cut to 32 bits unless co64 is used |
| MergeSchedule.AdvanceSorted | src/mp4_muxer.c:6056-6169 | emitting the least pending chunk keeps the emitted order sorted and below everything pending |
| MergeSchedule.SomeTrackPending | src/mp4_muxer.c:6056-6169 | while fewer chunks are out than exist, some track has one left |
| MergeSchedule.OrderIsUnique | src/mp4_muxer.c:6056-6169 | two complete emission orders sorted by (time, track, chunk) are the same |
| MdatWriter.TrackOutput.WriteChunk | src/mp4_muxer.c:4951-5065 | the chunk's offset is the sink position and its samples' bytes are copied there from the temporary file, earlier chunks untouched |
| MdatWriter.FindNext | src/mp4_muxer.c:6056-6169 | the two search loops with the "not later than the current time" shortcut find the first track with the least pending chunk time |
| MdatWriter.EmitRound | src/mp4_muxer.c:6056-6169 | every round emits a chunk; the branch that reports a chunk number mismatch is never reached |
| MdatWriter.WriteMdatBox | src/mp4_muxer.c:6056-6169 | every chunk lands at its recorded offset, the chunks tile the payload, what is appended is an mdat box of the announced size, byte by byte, and for chunk times in order the emission order is the stable merge |
| MdatWriter.MdatHeaderAnnounces | src/mp4_muxer.c:6056-6169 | the 32-bit or 64-bit size field written up front is the size of header and payload together, so that both are one box |
| MdatWriter.HeaderStartsMdat | src/mp4_muxer.c:6069-6082 | byte by byte: the size and the type mdat for payloads below 2^32 - 8, else 1, mdat and the 64-bit size |
| MdatWriter.TilePartitions | src/mp4_muxer.c:6056-6169 | consecutive ranges are disjoint and leave no byte out |
| SampleTables.SampleAtIsGreatest | src/mp4_stream.c:78-123 | the sample of a time is the greatest one with decode time not after it |
| SampleTables.SampleAtInverts | src/mp4_stream.c:78-173 | where durations are positive, the sample found for a sample's decode time is that sample |
| SampleReader.Stream.SampleCtsOffset | src/mp4_stream.c:33-74 | the stateless answer, wherever the search position stands |
| SampleReader.Stream.SampleIdx | src/mp4_stream.c:78-123 | the stateless answer, from any shared search position, without dividing by a zero delta |
| SampleReader.Stream.SampleTiming | src/mp4_stream.c:126-173 | the stateless decode time and composition offset |
| SampleReader.Stream.SampleDuration | src/mp4_stream.c:175-216 | the stateless duration |
| SampleReader.Stream.SampleSize | src/mp4_stream.c:218-276 | the size, common or listed |
| SampleReader.Stream.SampleOffset | src/mp4_stream.c:278-395 | the stateless position, and the description of the entry that covers the sample's chunk |
| SampleReader.Stream.FindChunk | src/mp4_stream.c:278-342 | the chunk of the sample and the sample's place in it |
| SampleReader.Stream.PrevSyncSampleIdx | src/mp4_stream.c:417-458 | the last sync sample not after the sample, if and only if the search position is not an unused one in front of a first entry above 1 with the sample before the second entry; then 0; afterwards the position is unused exactly when it was and the sample lies before the second entry |
| QueryHistory.AskAll | src/mp4_stream.c:33-458 | main result: any history of all seven kinds of lookup on one new stream gets the stateless answers, but for the previous sync sample as long as no query of the history has moved its search position; then exactly 0 |
| QueryHistory.FirstSyncInvented | src/mp4_stream.c:417-458 | a table with one sync sample, the third of five, where a first query for sample 0 invents a sync sample 0 |
| IndexLookup.PerChunkIs | src/mp4_stream.c:278-342 | expanding the written stsc entries gives the sample count of every chunk |
| IndexLookup.LookupOffset | src/mp4_stream.c:278-395 | a lookup finds the sample's own chunk and adds the sizes of the samples before it there |
| IndexLookup.LookupFindsBytes | src/mp4_stream.c:278-395 | the looked-up range of the file holds the sample's bytes |
| IndexLookup.LookupFindsDescription | src/mp4_stream.c:278-395 | the description found is the number of descriptions opened up to the sample |
| IndexTiling.SamplesTilePayload | src/mp4_muxer.c:4951-5065 | every payload byte belongs to exactly one sample of one track, as the lookups find them |
| IndexEndToEnd.InputAll | src/mp4_muxer.c:5106-5276 | taking in any list of samples keeps those with data, in order |
| IndexEndToEnd.KeptParts | src/mp4_muxer.c:5106-5276 | the kept samples of two runs are those of the first and then those of the second |
| IndexEndToEnd.KeptOne | src/mp4_muxer.c:5106-5276 | a sample is kept exactly when it has data |
| IndexEndToEnd.BuildTables | src/mp4_muxer.c:1889-2250 | the six tables of a track describe its samples, chunks and times |
| IndexEndToEnd.WriteAll | src/mp4_muxer.c:6056-6169 | all tracks are written into one mdat box, in stable merge order, because converted decode times keep their order |
| IndexEndToEnd.Mux | src/mp4_muxer.c:4840-5065 | main result: for every set of tracks and every run of samples, each lookup yields the time, offset, size, description and bytes that went in, what was appended is one mdat box by type and announced size, and all sample ranges tile its payload |
| IndexEndToEnd.Replay | src/mp4_stream.c:33-458 | main result: any history of lookups of all kinds, for any samples and times, gets the input's own times, durations, offsets, sizes, bytes, descriptions and sync samples; the last sample gets the duration that the media duration leaves; a previous sync sample is wrongly 0 only as long as no query has moved that position |
| IndexEndToEnd.LastDurationExactly | src/mp4_muxer.c:1889-1996 | the last sample gets its own duration if and only if it is alone and has none, or decode times start at 0, or the duration is below the first decode time and equals the step before |
| IndexEndToEnd.LastDurationShort | src/mp4_muxer.c:1889-1996 | of two samples at 5 and 7, of duration 10 each, the last one gets 5 |
| FragmentSplit.LongestStaysAhead | src/mp4_muxer.c:3354-3535 | taking the longest fragment each time never falls behind any other split |
| FragmentSplit.LongestIsFewest | src/mp4_muxer.c:3354-3535 | a split into longest fragments has the fewest fragments of all fitting splits |
| Fragmenter.Track.GetDtsMaxSd | src/mp4_muxer.c:2947-2966 | the decode time of the first description start after the sample, or no limit |
| Fragmenter.Track.FindStop | src/mp4_muxer.c:3452-3505 | the sync search and the fill-up loop end the fragment exactly where the rule does, whatever time the track starts at |
| Fragmenter.Track.ChooseStop | src/mp4_muxer.c:3391-3524 | refused exactly when a sync start is asked for and missing; otherwise the fragment ends where the rule ends it |
| Fragmenter.Track.NextFragment | src/mp4_muxer.c:3391-3524 | the fragment of the rule is appended and the cursors stand behind it; refused exactly when a sync start is asked for, the track is mixed and not split sample by sample, and the sample is no sync sample; the warning flag is set exactly then or when it would be |
| Fragmenter.Track.CreateFragmentList | src/mp4_muxer.c:3354-3535 | main result: the loop ends, with the whole split of the rule on success and a prefix of it otherwise; on success with a sync start asked for, every fragment of a mixed track starts on a sync sample, and beyond an empty range refusal means that some fragment of the rule does not; the warning flag says whether one did not |
| FragmentRule.Rule.StopExactly | src/mp4_muxer.c:3391-3524 | main result for every start time: where a fragment ends, by the times in reach, the sync samples past the minimum and the media duration |
| FragmentRule.Rule.RoundFits | src/mp4_muxer.c:3391-3524 | a fragment that ends inside the track fits duration and description, unless it is empty |
| FragmentRule.Rule.SplitFollows | src/mp4_muxer.c:3391-3524 | whatever goes wrong, the fragments follow each other and stay inside the track |
| FragmentRule.Rule.SoundExactly | src/mp4_muxer.c:3391-3524 | main result: the split is a partition into fitting fragments if and only if no start goes wrong, a condition on the track and the durations alone |
| FragmentRule.Rule.StopMeetsRule | src/mp4_muxer.c:3391-3524 | for decode times from 0 a fragment fits, or takes in a last sample without duration behind its description and nothing else that it must not; it is never too long; it is the longest one in sync-only tracks, ends at the last sync sample in reach past the minimum in mixed ones or is filled up, and reaches every sync sample or track end it could unless it misses the end |
| FragmentRule.Rule.RuleIsUnique | src/mp4_muxer.c:3391-3524 | these properties determine where the fragment ends |
| FragmentRule.Rule.SafeExactly | src/mp4_muxer.c:3391-3524 | main result for decode times from 0: no start goes wrong if and only if the last sample has a duration, or the track has several samples, is not split sample by sample, opens no description at the last one, and has no fragment whose limit is exactly there |
| FragmentRule.Rule.FewestExactly | src/mp4_muxer.c:3354-3535 | main result for decode times from 0: a sound split has the fewest fragments for sync-only tracks, and for mixed ones when no fragment misses the end; if and only if, when fragments start at sync samples |
| FragmentRule.Rule.EndTaken | src/mp4_muxer.c:3464-3471 | a fragment that misses the end could have been the last one, so that the split is not the smallest |
| FragmentCases.LastSampleLost | src/mp4_muxer.c:3391-3524 | a track of three samples whose split succeeds without the last one, which has no duration |
| FragmentCases.OnlySampleLost | src/mp4_muxer.c:3391-3524 | a track of one sample without duration is split into no fragments, with success |
| FragmentCases.DescriptionStraddled | src/mp4_muxer.c:2947-2966 | a fragment that reaches over a description opened by a last sample without duration |
| FragmentCases.LateSampleLost | src/mp4_muxer.c:3391-3391 | a track at 50 and 60 of duration 20 whose split succeeds without the second sample |
| FragmentCases.FirstFragmentEmpty | src/mp4_muxer.c:3474-3505 | a track at 5 and 12 with limit 10 whose first fragment is empty |
| FragmentCases.LateEndTooFar | src/mp4_muxer.c:3489-3505 | a track from 3 to 11 with limit 5 whose last fragment lasts 6 |
| FragmentCases.LateStartNotFewest | src/mp4_muxer.c:3393-3396 | a track from 2 to 12 with limit 10 that gets two fragments where one fits |
| FragmentCases.EndMissed | src/mp4_muxer.c:3464-3471 | a mixed track of four samples that fits one fragment and gets two |
| FragmentCases.LateAloneLost | src/mp4_muxer.c:3292-3324 | a fragment of one sample at time 5 is written without the sample |
| FragmentSize.FragmentBytes | src/mp4_muxer.c:2995-3057 | walking the size runs with partial first and last runs gives the plain sum of the sizes from start to stop |
| FragmentSize.FragmentsAddUp | src/mp4_muxer.c:2995-3057 | over a partition the fragment sizes add up to the size of the track |
| FragmentEndToEnd.TotalSize | src/mp4_muxer.c:2995-3057 | the sizes found for the fragments of any partition of a track add up to its media data size |
| FragmentWriter.DefaultFlags | src/mp4_muxer.c:2759-2830 | the default is a most frequent flag value, of several the one that occurs first; without sdtp entries the given one stays |
| FragmentWriter.FragTrack.constructor | src/mp4_muxer.c:5855-5911 | cursors at the first sample, defaults from the first step and size, whatever time the track starts at, and the flags of the kind of track or the most frequent ones |
| FragmentWriter.FragTrack.TrexBox | src/mp4_muxer.c:2832-2857 | zeros under the empty-trex option, else the defaults |
| FragmentWriter.FragTrack.ScanFlags | src/mp4_muxer.c:3610-3643 | the mode is right: all flags after the first one equal or not, and equal to the first one or not |
| FragmentWriter.FragTrack.GetTfhd | src/mp4_muxer.c:3552-3683 | a header is prepared exactly when samples are left before the cut, with exactly the defaults it should carry; with the track defaults it gives the right duration, size and flags, and flags go sample by sample only when they differ or the header must stay empty |
| FragmentWriter.FragTrack.GetTrun | src/mp4_muxer.c:3694-3865 | one run covers all samples of the fragment; duration and size are left out exactly when allowed and the default covers every sample, offsets exactly when all are 0 |
| FragmentWriter.FragTrack.WriteTrun | src/mp4_muxer.c:3954-4194 | one record per sample with exactly the chosen fields, all cursors moved behind the run, the flag cursor put back |
| FragmentWriter.FragTrack.WriteTraf | src/mp4_muxer.c:4196-4277 | exactly the header and run of the fragment, for one with samples, and nothing for an empty one; the flag cursor follows |
| FragmentWriter.FragTrack.GetMoof | src/mp4_muxer.c:3292-3324 | the cut time separates the fragment's samples from the later ones, but for a lone sample after time 0, which it leaves behind |
| FragmentWriter.FragTrack.SampleRecovered | src/mp4_muxer.c:3552-3865 | size, composition offset, duration and flags of one sample come out of the run, header and track defaults |
| FragmentWriter.FragTrack.RecordFields | src/mp4_muxer.c:3954-4194 | a record holds duration, size, flags and composition offset in this order, as far as they are written |
| FragmentWriter.FragTrack.HeadersAllowed | src/mp4_muxer.c:3571-3663 | a header that must stay empty carries at most the duration of AC-4, one that replaces an empty trex all defaults, any other only that duration and flags other than the default |
| FragmentWriter.FragTrack.EmptyTrexDropsFlags | src/mp4_muxer.c:3571-3747 | with an empty trex all but the first sample of a fragment read with flags 0 |
| FragmentWriter.FragTrack.DtsRecovered | src/mp4_muxer.c:3954-4277 | base time plus durations give every decode time |
| FragmentWriter.FragTrack.WriteFragments | src/mp4_muxer.c:3292-4277 | main result: for every choice of empty trex and tfhd and any consecutive fragments from the first sample, empty ones included, exactly the prescribed headers and runs are written, and a reader gets every covered sample once, in order, with decode time, size, composition offset and, where written, flags; only a lone sample after time 0 is not written |
| FragmentEndToEnd.FragmentAndRead | src/mp4_muxer.c:3292-4277 | main result: whatever samples are taken in, a successful split is that of the rule, starts on sync samples when asked, and is valid if and only if no start goes wrong; the track box is zeros or the defaults, the headers carry what the options allow, and the fragments read back as the samples they cover, but for a lone sample after time 0 |
| Bits.SplitBits | src/util/io_base.c:126-131 | the bits of a value are its high bits by shifting followed by its low bits |
| Bits.ValOfBits | src/util/io_base.c:301-343 | reading the n low bits of v as a number gives v modulo 2^n |
| Bits.EightBits | src/util/io_base.c:111-146 | the eight bits of a byte, the most significant one first |
| Bits.StreamBit | src/util/io_base.c:301-343 | the bits of byte k stand at 8k in the stream |
| BigEndian.ByteAt | src/util/io_base.c:67-94 | byte i of an n-byte number is the number divided by 256^(n-1-i), modulo 256 |
| BitIO.BitSink.WriteBits | src/util/io_base.c:111-146 | the stream grows by exactly the low bits of the value, whatever is cached and whatever stale bits stand above the cache |
| BitIO.BitSink.Flush | src/util/io_base.c:155-162 | zero bits complete the last byte, and only that |
| BitIO.BitSource.ReadBits | src/util/io_base.c:301-343 | the next bits as a number in 32 bits, zeros past the end, for any width and cache state |
| BitIO.BitSource.SkipBits | src/util/io_base.c:400-430 | the same as reading and dropping while inside the data; what a refused seek skips otherwise |
| BitIO.BitSource.PeekBits | src/util/io_base.c:364-392 | the value a read would give here or at a byte offset, all ones when less is left than asked for, and no state changes |
| BitIO.BitSource.ByteAlign | src/util/io_base.c:354-359 | the cached rest of the current byte is given up, which is that many bits of what was left to read |
| BitIO.WriteAll | src/util/io_base.c:111-162 | any run of writes from any sink state appends the fields in order |
| BitIO.ReadAllBack | src/util/io_base.c:301-343 | the same widths from any source state give back every value modulo 2^width |
| BitIO.RoundTrip | src/util/io_base.c:111-343 | main result: written, flushed and read back, every value of width up to 32 returns modulo 2^width |
| AudioConfig.WriteBinaryDsis | src/esparser/parser_aac.c:536-657 | for every dsi, whatever the sink holds, the printer writes exactly the fields of the syntax, filled up to a byte in front of the comment of a program config element and at the end |
| ProgramConfig.WritePce | src/esparser/parser_aac.c:574-625 | the element is written up to a byte boundary, and its comment behind it |
| AudioConfig.AacParser.CodecConfig | src/esparser/parser_aac.c:665-898 | the parser computes the parse of the remaining bits, for any data and any dsi to start from |
| AudioSyntax.PrintIs | src/esparser/parser_aac.c:536-657 | main result on the printer: behind anything in the sink it prints the fields of the tables, with their widths, in their order, the sync words 0x2b7 and 0x548 written out |
| AudioSyntax.ExtraRead | src/esparser/parser_aac.c:833-856 | layer number, BSAC fields, resilience flags and the third extension flag are read in the widths of the tables for exactly the object types that have them |
| AudioSyntax.SyncDecides | src/esparser/parser_aac.c:857-896 | when the extension is looked for, and what any other word or type means |
| AudioSyntax.PsDecides | src/esparser/parser_aac.c:872-883 | when PS is looked for, and what any other word means |
| AudioSyntax.HierarchyDecides | src/esparser/parser_aac.c:691-711 | an outer type of 5 or 29 means SBR, and 29 PS |
| AudioSyntax.OrdinaryConfig | src/esparser/parser_aac.c:536-898 | the config 12 10 56 e5 88 is printed from its dsi, and parsed into it: type 2, rate index 4, two channels, SBR of rate index 1 |
| ProgramConfig.ReadPce | src/esparser/parser_aac.c:725-827 | the parser computes the parse of the element for any data, and counts its channels |
| ProgramConfig.FieldsRead | src/esparser/parser_aac.c:574-815 | all fields of a printed element but the comment come back, and what follows is left |
| ProgramConfig.CommentRead | src/esparser/parser_aac.c:619-826 | a comment comes back if and only if there is none and a zero byte follows, or it is a single byte of 1 and another 1 follows |
| ProgramConfig.OnlyLastByteKept | src/esparser/parser_aac.c:816-826 | of a comment with its length in front, the last byte is kept as the first one |
| ProgramConfig.ChannelsAre | src/esparser/parser_aac.c:453-469 | one channel for each element and one more for each pair |
| AudioRoundTrip.ParsePrinted | src/esparser/parser_aac.c:536-898 | main result: for every dsi whose fields fit their widths, parsing the printed config into a new dsi gives back everything it carries if and only if the core coder delay fits eight bits, the parser reads nothing unprinted before a printed extension (but one flag and extension type 0), PS is only signalled with SBR, and a program config element has neither a comment nor an extension behind it |
| AudioRoundTrip.RoundTrip | src/esparser/parser_aac.c:536-898 | the same for the printer and the parser run one after the other |
| AudioRoundTrip.PsWithoutSbrIsLost | src/esparser/parser_aac.c:634-643 | a config with PS but no SBR in the extension does not come back |
| AudioRoundTrip.ResilienceFlagsShiftTheSync | src/esparser/parser_aac.c:838-864 | with the extension flag of an error-resilient type the printed extension is missed |
| AudioRoundTrip.LongDelayIsCut | src/esparser/parser_aac.c:716-720 | a core coder delay of 256 does not come back |
| AudioRoundTrip.CommentIsLost | src/esparser/parser_aac.c:817-826 | a config with a comment of one byte does not come back, whatever the byte |
| AudioRoundTrip.ExtensionIsTakenForAComment | src/esparser/parser_aac.c:817-826 | nor does one with an extension behind a program config element |
| AudioRoundTrip.ExtraBeforeSync | src/esparser/parser_aac.c:833-864 | what the parser takes the start of the sync word for |
| AudioRoundTrip.PsRead | src/esparser/parser_aac.c:868-882 | the byte-level end-of-data test tells PS signalling from padding |
| IoBuffer.Buffer.Seek | src/util/io_buffer.c:75-98 | all three origins; an offset outside the buffer is refused and changes nothing |
| IoBuffer.Buffer.Grow | src/util/io_buffer.c:182-207 | the larger buffer starts with the old bytes and has room |
| IoBuffer.Buffer.Write | src/util/io_buffer.c:174-221 | the bytes overwrite what stands at the position and extend the contents; a buffer that cannot grow takes all or nothing |
| BoxWriter.WriteSizeField | src/mp4_muxer.c:63-74 | only the four size bytes change and the position is kept |
| BoxWriter.WriteBox | src/mp4_muxer.c:40-74 | a box with everything in it is appended with its final size |
| BoxWriter.EncodeLayout | src/mp4_muxer.c:40-74 | the big-endian size of the whole box, its code, its fields and its inner boxes, in this order |
| BoxWriter.ParseEncoded | src/mp4_muxer.c:40-74 | main result: splitting the bytes by size and code gives back the same tree of boxes |
| BoxWriter.WriteAndParse | src/mp4_muxer.c:40-74 | the same for the writer on an empty growing buffer |

## Left out

- Samples that are not kept in a temporary file: the direct-file and subsample branches of `write_chunk` call
  parsers that are not part of this model.
- Encryption, the frontend, logging, progress display, file I/O and memory allocation failures.
- Truncated tables: the guards of src/mp4_stream.c for an entry count that differs from the entries present.
  The reader's tables are the entries written. stz2 is never written and is not modelled.
- The decision for co64, the estimate of the size of moov, and the second pass of `modify_stco_boxes`: the
  tables are built once, from the final offsets. Tracks without any sample.
- The nodes of the lists inside a track: `TrackInput`, `Fragmenter` and `FragmentWriter` keep the lists as
  sequences with index cursors; aliasing between lists is not captured there. `LinkedList` proves the linked
  form and its `count_value_lst_update` against the same `RunLength.AppendItem`.
- TrackInput.Track.InputSample: does not model timestamp warping, a media scale of zero, the sdtp, trik and subs
  lists, and the floating-point bitrate averages.
- MdatWriter.TrackOutput.WriteChunk: has only the temporary file as its source, for the same reason as above.
- FragmentWriter.FragTrack.GetTfhd: does not model the override, base-data-offset and description-index flags: the
  place of the data and the description of a fragment are not read back.
- FragmentWriter.FragTrack.WriteFragments: does not state the duration of the track's very last sample, because
  the code does not compare it with the default when it leaves durations out; decode times are recovered.
- FragmentWriter.FragTrack.GetTrun: does not model the branches that cut runs at sync samples, because a prepared
  fragment never reaches them, nor the override flags of tfhd and trun.
- FragmentWriter.FragTrack.WriteTrun: does not model the data offset, the entry for tfra, and the choice of the trun version.
- The media data of fragments (write_mdat_box_frag, modify_base_data_offset): samples of fragments are read back without
  their bytes.
- Fragment indexes (sidx, tfra, ssix), subs and senc boxes, and sample description indexes in tfhd.
- create_fragment_lst splits every track on its own and get_moof_by_TrackIndex reads each track's own list; the model is
  one track. The order in which fragments of several tracks are written (get_moof, get_moof_ccff) is left out.
- Samples longer than a fragment may be: the code then moves the end of the fragment back to its start.
- AudioRoundTrip.ParsePrinted: is stated for a dsi whose comment bytes are all set; the parser leaves all but the
  first byte of a comment unwritten, which the model records as None.
- AVC, HEVC, AC-3 and AC-4 elementary stream parsing, the decoder specific info of other codecs, ISO 639 codes.
- SampleReader.Stream.SampleSize: does not model stz2 field widths.
- IoBuffer.Buffer.Grow: does not model the cast of the buffer size to int, which matters beyond 2 GB.
- BoxWriter.ParseEncoded: is stated for boxes whose size fits 32 bits; the size field wraps beyond that. A
  box of 64-bit size appears only in `MdatWriter.MdatHeader`.
