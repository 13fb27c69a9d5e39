# Event-stream models and proofs

A Dafny model of the path an event stream takes through OpenEB, from encoded words to bytes, files, seeking and the
thread that moves the data, with the ROI and register helpers of the Prophesee plugin. `dafny verify dfyconfig.toml`
checks everything.

| file | models |
|---|---|
| time_base.dfy | time-high unwrapping of the EVT2 and EVT3 standalone decoders: loop counter and tolerance threshold |
| evt2_words.dfy | the 32-bit EVT2 words: bit-fields written in place over stale words, and what a word says |
| evt2_stream.dfy | what an EVT2 file is: the ordered merge of two event lists with a time-high word every 16 us |
| evt2_file_encoder.dfy | the standalone encoder: its two-input loop over a reused buffer of 1000 words |
| evt2_decoder.dfy | the standalone EVT2 decoder |
| evt2_round_trip.dfy | decoding what either encoder wrote |
| evt2_hal_encoder.dfy | the HAL encoder, which writes time highs lazily, and its agreement with the standalone one |
| evt3_decoder.dfy | the standalone EVT3 decoder, and vector words against their expansion |
| evt3_round_trip.dfy | EVT3 files written in numbers, and the events they decode to |
| stream_front_end.dfy | `I_EventsStreamDecoder::decode`: buffers of any length, events cut in two |
| seek_index.dfy, seeking.dfy | the bookmark index of a RAW file and the slot arithmetic of `seek` |
| index_file.dfy | the index on disk |
| transfer_thread.dfy | `DataTransfer`: worker and controller as a transition system, and what is safe in it |
| transfer_progress.dfy | what each call on the transfer thread achieves, within how many steps |
| roi.dfy, roi_words.dfy, psee_roi.dfy | ROI lines, windows and register words |
| register_fields.dfy | register bit-fields and multi-field writes |
| stream_format.dfy | the format string of a RAW header |
| basics.dfy | fixed-width integers and division facts |

Code that updates variables in place is modelled by classes and loops with the source's own names, each proved against
a function or predicate (`Step` and `Run`, `Interleave`, `IndexOf`, `WindowsOf`, `Parsed`, ...); the lemmas are about
those.

## What came out

- The EVT2 round trip is exact for all inputs whose fields fit and whose first time is below 2^34, over any number of
  later wraps, and for trigger-only inputs at any time; otherwise every event comes back truncated in a stated way, in
  order (`Evt2RoundTrip`).
- Wrap detection is exact up to 11 time-high steps and for no more (`TimeBase.UnwrapIsExactIff`).
- The two EVT2 encoders agree on the words, with two exceptions: a CD polarity other than 0 or 1 (the standalone
  encoder takes any non-zero value as ON, the HAL only 1), and a file without CD events whose first trigger is at 16 us
  or later. In that second case the standalone encoder starts its clock at 0, although its comment says that the time
  is that of the oldest event; the model follows the code (`Evt2HalEncoder.EncodersAgreeIff`).
- The standalone EVT2 encoder ends if and only if every time is at most 2^64 - 17 (`Evt2FileEncoder.EncoderEndsIff`).
- An EVT3 file written for time-ordered pixels, vectors and triggers decodes to exactly those (`Evt3RoundTrip`).
- An EVT3 file decodes to the same CD events with its vector words expanded if and only if no set bit lies past column
  2047: the x counter of a vector has 16 bits, the single-pixel word 11 (`Evt3Vectors.ExpandPreservesDecoding`).
- Seeking never skips data, even with timestamps that go back, on the caller's clock and with time shifting on or off;
  the advertised range is seekable (`Seeking.SeekInFile`, `Seeking.RangeIsSeekable`).
- The event counts of the index are exact if and only if no stretch between two period crossings holds 2^32 CD events
  or more (`Seeking.CdCountsConserved`).
- `stop()` always returns, within 18 steps of setting `stop_`. `suspend()` does not always win: a worker that has not
  yet passed the top of its loop clears the request, and one that has passed it but is not yet inside `run_impl` enters
  all the same, perhaps after `suspend()` has returned. In every other position it is heard
  (`TransferThread.SuspendHeardIff`). `start()` and `resume()` get the producer running within a fixed number of steps
  (`TransferProgress`).
- Setting ROI lines when only one of the two vectors has an enabled entry programs an empty region, and reading them back gives
  all false (`PseeRoi.PseeROI.GetLines`).

## Model

| member | source | states |
|---|---|---|
| TimeBase.UnwrapIsExactIff | standalone_samples/metavision_evt2_raw_file_decoder/metavision_evt2_raw_file_decoder.cpp:246-267 | for both formats: a decoder that sees only the truncated fields of a non-decreasing time-high sequence (first value inside one loop, no gap of a whole loop) recovers every absolute base and loop count if and only if every gap that crosses a wrap is at most 11 time-high steps, which is 704 us in EVT2 and 45056 us in EVT3 |
| TimeBase.Evt2ExactIff | standalone_samples/metavision_evt2_raw_file_decoder/metavision_evt2_raw_file_decoder.cpp:246-267 | the same in numbers: EVT2 bases are the true multiples of 64 us if and only if no gap across a turn of the 34-bit clock exceeds 704 us |
| TimeBase.Evt3ExactIff | standalone_samples/metavision_evt3_raw_file_decoder/metavision_evt3_raw_file_decoder.cpp:345-365 | the same in numbers: multiples of 4096 us, the 24-bit clock and 45056 us |
| TimeBase.AdvanceExact | standalone_samples/metavision_evt3_raw_file_decoder/metavision_evt3_raw_file_decoder.cpp:345-365 | one time-high word: the true base if the wrap gap is recoverable, otherwise a base strictly in the past |
| TimeBase.BasesStayInLoop | standalone_samples/metavision_evt2_raw_file_decoder/metavision_evt2_raw_file_decoder.cpp:246-267 | for arbitrary time-high words, wild ones included, the base after every word stays in [n*TimeLoop, (n+1)*TimeLoop) for its loop counter n (modulo 2^30 in EVT2, up to 2^32 words in EVT3) |
| Evt2Decoder.ClockExactIff | standalone_samples/metavision_evt2_raw_file_decoder/metavision_evt2_raw_file_decoder.cpp:188-289 | the same bound for the whole EVT2 decoder: whatever other words lie between the time highs, its bases are the true ones if and only if every wrap gap is recoverable |
| Evt3Decoder.ClockExactIff | standalone_samples/metavision_evt3_raw_file_decoder/metavision_evt3_raw_file_decoder.cpp:249-392 | the same for the whole EVT3 decoder |
| Evt2Words.CdOverMeans | standalone_samples/metavision_evt2_raw_file_encoder/metavision_evt2_raw_file_encoder.cpp:116-122 | a CD word written field by field over any stale word carries the fields truncated to their widths and nothing of the old word |
| Evt2Words.TriggerOverMeans | standalone_samples/metavision_evt2_raw_file_encoder/metavision_evt2_raw_file_encoder.cpp:167-173 | the same for a trigger word; the bits it leaves stale are in no field that is read |
| Evt2Words.TimeHighOverMeans | standalone_samples/metavision_evt2_raw_file_encoder/metavision_evt2_raw_file_encoder.cpp:184-189 | the same for a time-high word: bits 6 to 33 of the time |
| Evt2Words.HalCdMeans | hal/cpp/src/decoders/evt2_encoder.cpp:51-59 | the HAL's different field order over a zeroed word means the same, but only polarity 1 is ON |
| Evt2Words.HalTriggerMeans | hal/cpp/src/decoders/evt2_encoder.cpp:61-69 | the HAL's trigger word carries the same truncated fields |
| Evt2Words.HalTimeHighMeans | hal/cpp/src/decoders/evt2_encoder.cpp:43-49 | the HAL's time-high word carries bits 6 to 33, negative times included |
| Evt2Words.LayoutOf | standalone_samples/metavision_evt2_raw_file_decoder/metavision_evt2_raw_file_decoder.cpp:34-58 | the layout of CD, trigger and time-high words as numbers, the type in the top four bits; unused trigger bits do not matter |
| Evt2Words.CdWordIs | standalone_samples/metavision_evt2_raw_file_encoder/metavision_evt2_raw_file_encoder.cpp:46-52 | the CD word of both encoders as a number, whatever the slot held before |
| Evt2Words.TriggerWordIs | standalone_samples/metavision_evt2_raw_file_encoder/metavision_evt2_raw_file_encoder.cpp:53-62 | the trigger word of both encoders as a number; the standalone encoder keeps the slot's unused bits |
| Evt2Words.TimeHighWordIs | standalone_samples/metavision_evt2_raw_file_encoder/metavision_evt2_raw_file_encoder.cpp:41-45 | the time-high word of both encoders as a number |
| Evt2Stream.MergeKeepsBoth | standalone_samples/metavision_evt2_raw_file_encoder/metavision_evt2_raw_file_encoder.cpp:331-369 | the merge is a shuffle: both inputs come back whole and in order, sorted or not |
| Evt2Stream.MergeSorted | standalone_samples/metavision_evt2_raw_file_encoder/metavision_evt2_raw_file_encoder.cpp:331-369 | merging two sorted inputs gives a sorted list |
| Evt2Stream.InterleaveKeepsEvents | standalone_samples/metavision_evt2_raw_file_encoder/metavision_evt2_raw_file_encoder.cpp:331-369 | dropping the time-high words of a file leaves exactly the merged events |
| Evt2Stream.InterleaveTimeCount | standalone_samples/metavision_evt2_raw_file_encoder/metavision_evt2_raw_file_encoder.cpp:177-199 | the number of time-high words is the number of 16 us slots from the next time high to the last event |
| Evt2Stream.FileItemsConserve | standalone_samples/metavision_evt2_raw_file_encoder/metavision_evt2_raw_file_encoder.cpp:312-374 | nothing lost, nothing invented: the non-time words are the ordered merge of both inputs, and there is exactly one time-high word per 16 us up to the last event, from the first event on, or from time 0 on when there is no CD event |
| Evt2Stream.FirstTimeIs | standalone_samples/metavision_evt2_raw_file_encoder/metavision_evt2_raw_file_encoder.cpp:318-325 | the time taken as the first is that of the first merged event, but 0 when there is no CD event |
| Evt2FileEncoder.EncodeFile | standalone_samples/metavision_evt2_raw_file_encoder/metavision_evt2_raw_file_encoder.cpp:299-381 | the two-input loop fails only on two empty inputs, takes at each turn the branch of the source, and through the reused 1000-word buffer the file is, by the used fields of its words, the ordered merge with its time-high words; unsorted inputs included, for every input on which the loop ends |
| Evt2FileEncoder.EncoderEndsIff | standalone_samples/metavision_evt2_raw_file_encoder/metavision_evt2_raw_file_encoder.cpp:331-369 | over all 64-bit times, the loop ends if and only if every time is at most 2^64 - 17 |
| Evt2FileEncoder.EncodableIff | standalone_samples/metavision_evt2_raw_file_encoder/metavision_evt2_raw_file_encoder.cpp:184-198 | a time can be passed by the 64-bit clock, which ticks in multiples of 16, exactly up to that bound |
| Evt2FileEncoder.EncodeCd | standalone_samples/metavision_evt2_raw_file_encoder/metavision_evt2_raw_file_encoder.cpp:116-122 | changes one slot of the buffer, to the CD word over its old content |
| Evt2FileEncoder.EncodeTrigger | standalone_samples/metavision_evt2_raw_file_encoder/metavision_evt2_raw_file_encoder.cpp:167-173 | changes one slot of the buffer, to the trigger word over its old content |
| Evt2Decoder.Decoder.DecodeWord | standalone_samples/metavision_evt2_raw_file_decoder/metavision_evt2_raw_file_decoder.cpp:199-288 | one switch: the new variables and outputs are those of the specification's step on the word's fields |
| Evt2Decoder.Decoder.DecodeBuffer | standalone_samples/metavision_evt2_raw_file_decoder/metavision_evt2_raw_file_decoder.cpp:188-289 | both loops over a buffer refine one fold of the step function, although the first time high is read twice |
| Evt2Decoder.DecodeFile | standalone_samples/metavision_evt2_raw_file_decoder/metavision_evt2_raw_file_decoder.cpp:178-300 | reading 1000000 words at a time decodes like one pass over the whole file |
| Evt2Decoder.FileWithoutTriggers | standalone_samples/metavision_evt2_raw_file_decoder/metavision_evt2_raw_file_decoder.cpp:199-288 | without the trigger output no trigger comes out and every CD event is the same |
| Evt2Decoder.TriggersOptional | standalone_samples/metavision_evt2_raw_file_decoder/metavision_evt2_raw_file_decoder.cpp:199-288 | the same from any state, with the same clock |
| Evt2Decoder.LeadingWordsDropped | standalone_samples/metavision_evt2_raw_file_decoder/metavision_evt2_raw_file_decoder.cpp:184-197 | words before the first time high have no effect |
| Evt2Decoder.OtherWordsIgnored | standalone_samples/metavision_evt2_raw_file_decoder/metavision_evt2_raw_file_decoder.cpp:199-288 | a word of any other type can be taken out of a file anywhere |
| Evt2RoundTrip.DecodeAfterEncode | standalone_samples/metavision_evt2_raw_file_decoder/metavision_evt2_raw_file_decoder.cpp:188-289 | decoding the encoder's words gives back both sorted lists, in order, over any number of 34-bit wraps, with fields truncated to their widths and times moved back by the whole clock turns before the first event, and by none when there is no CD event |
| Evt2RoundTrip.RoundTripIff | standalone_samples/metavision_evt2_raw_file_encoder/metavision_evt2_raw_file_encoder.cpp:318-374 | the round trip is exact if and only if x, y < 2048, id < 32, polarities are 0 or 1 and, if there is a CD event, the first time of all is below 2^34 |
| Evt2RoundTrip.EncodeThenDecode | standalone_samples/metavision_evt2_raw_file_decoder/metavision_evt2_raw_file_decoder.cpp:178-300 | the two programs run one after the other return their inputs if and only if that condition holds |
| Evt2RoundTrip.DecodeAfterHalEncode | hal/cpp/src/decoders/evt2_encoder.cpp:23-82 | the words of the HAL encoder decode to the same events under the same truncation, for every polarity: 1 stays 1, anything else becomes 0 |
| Evt2HalEncoder.Evt2Encoder.ResetState | hal/cpp/src/decoders/evt2_encoder.cpp:17-21 | after it any event is accepted again; what was written stays |
| Evt2HalEncoder.Evt2Encoder.UpdateTimehigh | hal/cpp/src/decoders/evt2_encoder.cpp:71-82 | appends exactly the missing time highs up to the event's 16 us slot, or the first one; the last time high never goes back |
| Evt2HalEncoder.Evt2Encoder.EncodeEventCd | hal/cpp/src/decoders/evt2_encoder.cpp:23-29 | accepts if and only if the event is not earlier than the last accepted one; a rejected event changes neither the fields nor the stream; an accepted one appends its time highs and its word |
| Evt2HalEncoder.Evt2Encoder.EncodeEventTrigger | hal/cpp/src/decoders/evt2_encoder.cpp:31-37 | the same for triggers |
| Evt2HalEncoder.EncodeAll | hal/cpp/src/decoders/evt2_encoder.cpp:23-82 | feeding any list, in any order, writes exactly the words of the accepted events |
| Evt2HalEncoder.AcceptedIsSorted | hal/cpp/src/decoders/evt2_encoder.cpp:24-26 | what gets through is in time order |
| Evt2HalEncoder.AcceptsAllIff | hal/cpp/src/decoders/evt2_encoder.cpp:23-37 | nothing is rejected if and only if the list is in time order |
| Evt2HalEncoder.AcceptedAppend | hal/cpp/src/decoders/evt2_encoder.cpp:23-37 | exactly the events that are not earlier than any event before them get through |
| Evt2HalEncoder.HalItemsKeepEvents | hal/cpp/src/decoders/evt2_encoder.cpp:23-69 | the words other than time highs are one per event, in order |
| Evt2HalEncoder.HalItemsFromFirst | hal/cpp/src/decoders/evt2_encoder.cpp:71-82 | writing time highs lazily gives the words of a clock that ticks every 16 us from the first event's slot |
| Evt2HalEncoder.EncodersAgreeIff | hal/cpp/src/decoders/evt2_encoder.cpp:23-82 | on the merge of two sorted lists the HAL encoder writes the words of the standalone loop, field for field, if and only if every CD polarity is 0 or 1 and there is a CD event or the first trigger is before 16 us |
| Evt2HalEncoder.ExtraTimeHigh | standalone_samples/metavision_evt2_raw_file_encoder/metavision_evt2_raw_file_encoder.cpp:312-319 | with no CD event and a first trigger at 16 us or later the standalone file differs: its clock starts at 0 |
| Evt2HalEncoder.EncodeBothWays | hal/cpp/src/decoders/evt2_encoder.cpp:23-82 | both encoders run on the same lists produce the same words if and only if that condition holds |
| Evt3Decoder.Decoder.DecodeVector | standalone_samples/metavision_evt3_raw_file_decoder/metavision_evt3_raw_file_decoder.cpp:274-315 | the loop with its 16-bit counter ends after 12 or 8 turns, wrap of the counter included, and outputs one event per set bit in ascending x; the base moves by 12 or 8 modulo 2^16 |
| Evt3Decoder.Decoder.DecodeWord | standalone_samples/metavision_evt3_raw_file_decoder/metavision_evt3_raw_file_decoder.cpp:259-391 | one switch: the new variables and outputs are those of the specification's step |
| Evt3Decoder.Decoder.DecodeBuffer | standalone_samples/metavision_evt3_raw_file_decoder/metavision_evt3_raw_file_decoder.cpp:249-392 | both loops over a buffer refine one fold of the step function |
| Evt3Decoder.DecodeFile | standalone_samples/metavision_evt3_raw_file_decoder/metavision_evt3_raw_file_decoder.cpp:239-403 | where the read buffers end makes no difference |
| Evt3Decoder.FileWithoutTriggers | standalone_samples/metavision_evt3_raw_file_decoder/metavision_evt3_raw_file_decoder.cpp:259-391 | without the trigger output no trigger comes out and every CD event is the same |
| Evt3Decoder.TriggersOptional | standalone_samples/metavision_evt3_raw_file_decoder/metavision_evt3_raw_file_decoder.cpp:259-391 | the same from any state, for all other variables too |
| Evt3Decoder.LeadingWordsDropped | standalone_samples/metavision_evt3_raw_file_decoder/metavision_evt3_raw_file_decoder.cpp:245-258 | words before the first time high have no effect |
| Evt3Decoder.OtherWordsIgnored | standalone_samples/metavision_evt3_raw_file_decoder/metavision_evt3_raw_file_decoder.cpp:259-391 | a word of any unknown type can be taken out of a file anywhere |
| Evt3RoundTrip.DecodesToItsEvents | standalone_samples/metavision_evt3_raw_file_decoder/metavision_evt3_raw_file_decoder.cpp:249-392 | round trip: a file written in numbers for time-ordered pixels, vectors of pixels and triggers decodes to exactly their x, y, polarity, time, value and id, over any number of 24-bit wraps; time low and line words only where they change, vectors one after the other |
| Evt3RoundTrip.UnusedBitsIgnored | standalone_samples/metavision_evt3_raw_file_decoder/metavision_evt3_raw_file_decoder.cpp:75-116 | the bits of a word that no field covers make no difference |
| Evt3RoundTrip.DecodeWritten | standalone_samples/metavision_evt3_raw_file_decoder/metavision_evt3_raw_file_decoder.cpp:239-403 | the decoder program on such a file, with and without triggers |
| Evt3Vectors.ExpandWordIff | standalone_samples/metavision_evt3_raw_file_decoder/metavision_evt3_raw_file_decoder.cpp:274-327 | one vector word against its EVT_ADDR_X words and moved VECT_BASE_X: all other variables end alike, and the decoded CD events are the same if and only if every set bit has x below 2048 |
| Evt3Vectors.ExpandPreservesDecoding | standalone_samples/metavision_evt3_raw_file_decoder/metavision_evt3_raw_file_decoder.cpp:249-392 | for every file: replacing each vector word by its expansion never changes the decoded triggers and times, and keeps the decoded CD list if and only if no set bit of a vector word lies past column 2047, wherever the base goes; the whole final state is the same if and only if the last base fits 11 bits too |
| Evt3Vectors.ExpandIff | standalone_samples/metavision_evt3_raw_file_decoder/metavision_evt3_raw_file_decoder.cpp:249-392 | the same from any pair of states that agree on everything but the base's high bits and the CD lists |
| Evt3Vectors.ExpandedFileDecodesAlike | standalone_samples/metavision_evt3_raw_file_decoder/metavision_evt3_raw_file_decoder.cpp:249-392 | while the base stays below 2048, the expanded file decodes to the same final state |
| Evt3Vectors.ExpandRemovesVectors | standalone_samples/metavision_evt3_raw_file_decoder/metavision_evt3_raw_file_decoder.cpp:274-315 | no vector word is left in the expansion |
| Evt3Vectors.OverflowingVectorDiffers | standalone_samples/metavision_evt3_raw_file_decoder/metavision_evt3_raw_file_decoder.cpp:296-315 | a three-word file with a vector pixel at column 2048, which the expansion decodes at column 0 |
| StreamFrontEnd.StreamDecoder.Decode | hal/cpp/src/facilities/i_events_stream_decoder.cpp:59-113 | one buffer of any length: what the concrete decoder has seen plus what is carried is every byte received so far, the carry is shorter than one event, and events are flushed exactly when the pending event, if any, was completed |
| StreamFrontEnd.StreamDecoder.ResetLastTimestamp | hal/cpp/src/facilities/i_events_stream_decoder.cpp:133-136 | forgets the pending bytes, so that decoding starts afresh at an event boundary |
| StreamFrontEnd.DecodeStream | hal/cpp/src/facilities/i_events_stream_decoder.cpp:59-94 | every way of cutting a byte stream into calls ends in the same decoder state and carry: those of one pass over the longest whole-event prefix |
| StreamFrontEnd.CutIff | hal/cpp/src/facilities/i_events_stream_decoder.cpp:80-94 | two pieces are whole events and less than one event if and only if they are the longest whole-event prefix and the remainder |
| StreamFrontEnd.OneCallPerEvent | hal/cpp/src/facilities/i_events_stream_decoder.cpp:59-94 | the per-event decoder is called once for each whole event, in order |
| SeekIndex.AddBookmarks | hal/cpp/src/facilities/i_events_stream.cpp:105-118 | fills the slots up to an index with one bookmark, of which only the first keeps the event count |
| SeekIndex.BuildBookmarks | hal/cpp/src/facilities/i_events_stream.cpp:157-275 | one pass, any timestamps: one slot per period up to the running maximum plus one, each pointing at the latest running-maximum crossing up to it, slot counts that add up exactly to the stretches between crossings as the 32-bit counter holds them, and the timestamp shift that the decoder knew first |
| SeekIndex.CountedExactIff | hal/cpp/src/facilities/i_events_stream.cpp:198-264 | the counted events are the true number if and only if no stretch between two crossings has 2^32 CD events or more; otherwise they fall short by a multiple of 2^32 |
| Seeking.Seek | hal/cpp/src/facilities/i_events_stream.cpp:685-717 | not reachable, past the end, or the first valid slot from the target's slot on, with its offset and time; exactly when each happens |
| Seeking.GetSeekRange | hal/cpp/src/facilities/i_events_stream.cpp:757-781 | the first valid and the last slot's times, on the caller's clock; valid if and only if some slot is |
| Seeking.SeekInFile | hal/cpp/src/facilities/i_events_stream.cpp:685-717 | index and seek together, on the caller's clock: a word's time is its timestamp plus the first known shift unless time shifting is on; a target is reached exactly from the clock's zero to the period after the last word's; the offset and time are those of one word; every word at or after the target lies at or after the offset |
| Seeking.RangeOfFile | hal/cpp/src/facilities/i_events_stream.cpp:757-781 | index and range together: a range exactly if a word is dated, from the first dated word's time to that of the first word in the latest period |
| Seeking.ReachableIff | hal/cpp/src/facilities/i_events_stream.cpp:689-696 | a seek lands if and only if its target is at most one period after the latest one with a word |
| Seeking.RangeIs | hal/cpp/src/facilities/i_events_stream.cpp:757-780 | which words the advertised range starts and ends at |
| Seeking.SlotWord | hal/cpp/src/facilities/i_events_stream.cpp:243-267 | every valid slot i points at a crossing with a timestamp below i * 2000, and a slot is valid exactly if there is one |
| Seeking.SlotTimesGrow | hal/cpp/src/facilities/i_events_stream.cpp:243-267 | the valid slots' timestamps never go down, even when the stream's do |
| Seeking.NeverSkips | hal/cpp/src/facilities/i_events_stream.cpp:685-696 | for any timestamps, monotone or not, every indexed word at or after the target lies at or after the offset that seek jumps to |
| Seeking.ReachesTargetIff | hal/cpp/src/facilities/i_events_stream.cpp:685-717 | a seek that lands reaches a time at or before the target if and only if the target is not before the advertised start |
| Seeking.RangeIsSeekable | hal/cpp/src/facilities/i_events_stream.cpp:757-780 | every target in the advertised range passes the bounds test, ends its skip loop inside the list and is reached from a time at or before it, with time shifting on or off |
| Seeking.SkipLoopEndsIff | hal/cpp/src/facilities/i_events_stream.cpp:694-696 | the skip-invalid loop stays inside the list for every target if and only if the file holds a valid timestamp after the shift is known |
| Seeking.LagIsBounded | hal/cpp/src/facilities/i_events_stream.cpp:689-717 | for monotone timestamps with a word in the period before the target's, the time reached is less than 4000 us before the target |
| Seeking.CdCountsConserved | hal/cpp/src/facilities/i_events_stream.cpp:244-264 | the counts of the slots up to a valid one sum to the CD events of all words up to the one it points at if and only if no stretch between two crossings up to there overflows 32 bits, however long the recording |
| IndexFile.RecordRoundTrip | hal/cpp/src/facilities/i_events_stream.cpp:78-103 | a 20-byte record reads back as the bookmark written |
| IndexFile.WriteIndex | hal/cpp/src/facilities/i_events_stream.cpp:78-128 | the file is the records followed by the magic record |
| IndexFile.LoadBookmarks | hal/cpp/src/facilities/i_events_stream.cpp:277-302 | reads whole records and keeps those before a final magic record, or nothing |
| IndexFile.WriteThenLoad | hal/cpp/src/facilities/i_events_stream.cpp:277-302 | a complete file gives back the bookmarks written |
| IndexFile.LoadIff | hal/cpp/src/facilities/i_events_stream.cpp:277-302 | a file cut at any byte gives the bookmarks if it is complete and nothing otherwise |
| IndexFile.RecordLayout | hal/cpp/src/facilities/i_events_stream.cpp:78-90 | every byte of a record: timestamp, byte offset, count, each least significant byte first |
| IndexFile.LoadedIs | hal/cpp/src/facilities/i_events_stream.cpp:277-302 | for any bytes: the whole records before the last one if that one is the magic record, else nothing |
| TransferThread.InvStep | hal/cpp/src/utils/data_transfer.cpp:25-142 | every step of either thread keeps the invariant: inside run_impl running_ is true, no thread sleeps through its condition, callbacks are counted |
| TransferThread.InvAlways | hal/cpp/src/utils/data_transfer.cpp:25-142 | the invariant holds after every interleaving of start, stop, suspend, resume and the worker |
| TransferThread.SuspendReturnsOutsideRun | hal/cpp/src/utils/data_transfer.cpp:126-134 | when suspend() returns, stop_ is set or the producer is outside run_impl, in every interleaving |
| TransferThread.ParkedStaysOut | hal/cpp/src/utils/data_transfer.cpp:80-83 | a worker parked with suspend_ set does not enter run_impl before a resume or a new start, in every continuation |
| TransferThread.SuspendHoldsIff | hal/cpp/src/utils/data_transfer.cpp:126-134 | seen from its return: without a stop, the producer stays out until resume if and only if there is no thread or the worker is parked |
| TransferThread.SuspendHeardIff | hal/cpp/src/utils/data_transfer.cpp:57-83 | seen from the moment suspend_ is set: in every interleaving of the call a producer inside run_impl is told to return and a return without a stop keeps it out, if and only if the transfer is stopping or the worker is not on its way into run_impl |
| TransferThread.SuspendCanBeLost | hal/cpp/src/utils/data_transfer.cpp:57-60 | a reachable interleaving in which suspend() returns and the producer runs: the worker cleared the request |
| TransferThread.SuspendCanWaitUnheard | hal/cpp/src/utils/data_transfer.cpp:57-71 | a reachable state in which suspend() waits on a producer that was never told to return |
| TransferThread.StopStep | hal/cpp/src/utils/data_transfer.cpp:97-124 | after stop_ is set in stop(), every step of either thread lowers the rank |
| TransferThread.StopNeverStuck | hal/cpp/src/utils/data_transfer.cpp:97-124 | until stop() returns, some step other than a spurious wakeup is possible |
| TransferThread.StopReturns | hal/cpp/src/utils/data_transfer.cpp:97-113 | after stop_ is set in stop(), every interleaving of at most 18 steps joins the worker and returns |
| TransferThread.AtMostOneMoreRun | hal/cpp/src/utils/data_transfer.cpp:55-68 | once stop_ is set the worker enters run_impl at most once more, and not at all unless it had just passed its loop test |
| TransferProgress.ResumeReturnsToRun | hal/cpp/src/utils/data_transfer.cpp:136-142 | resume() on a parked worker: every interleaving without another call is back inside run_impl within 7 steps of suspend_ being cleared |
| TransferProgress.ResumeNeverStuck | hal/cpp/src/utils/data_transfer.cpp:80-83 | until then some step other than a spurious wakeup is possible |
| TransferProgress.StartReachesRun | hal/cpp/src/utils/data_transfer.cpp:25-95 | start() with no thread or a stopped one: every interleaving without another call has a new thread inside run_impl, with stop_ clear, within 23 steps, an ended thread being joined first |
| TransferProgress.StartOnRunningThread | hal/cpp/src/utils/data_transfer.cpp:25-34 | start() on a running thread changes nothing |
| TransferProgress.StartNeverStuck | hal/cpp/src/utils/data_transfer.cpp:25-95 | until then some step other than a spurious wakeup is possible |
| TransferProgress.SuspendReturns | hal/cpp/src/utils/data_transfer.cpp:126-134 | a suspend() that is heard returns: within 32 steps in every interleaving without spurious wakeups |
| TransferProgress.SuspendNeverStuck | hal/cpp/src/utils/data_transfer.cpp:126-134 | until then some step other than a spurious wakeup is possible |
| TransferProgress.StopCallReturns | hal/cpp/src/utils/data_transfer.cpp:97-124 | stop() from its call on, wherever the worker is: stop_ set, worker joined and returned within 141 steps in every interleaving without spurious wakeups |
| Roi.FindRuns | hal_psee_plugins/src/facilities/psee_roi.cpp:163-185 | the scan finds non-empty, separated runs that cover exactly the enabled entries |
| Roi.LinesToWindows | hal_psee_plugins/src/facilities/psee_roi.cpp:153-219 | windows in bounds, pairwise disjoint, and together exactly the pixels whose column and row are both enabled |
| Roi.LinesFromWindows | hal_psee_plugins/src/facilities/psee_roi.cpp:107-126 | a column or row is marked exactly if some window covers it |
| RoiWords.PackAllBit | hal_psee_plugins/src/facilities/psee_roi.cpp:21-40 | ceil(n / word_size) words; bit k of the vector is bit k % word_size of word k / word_size |
| RoiWords.BitValue | hal_psee_plugins/src/facilities/psee_roi.cpp:27-29 | bit b counts 2^b |
| RoiWords.GetRoiBitword | hal_psee_plugins/src/facilities/psee_roi.cpp:21-40 | the packing loop produces that packing, the short last word included |
| PseeRoi.CreateRois | hal_psee_plugins/src/facilities/psee_roi.cpp:128-151 | the words of exactly the bits covered by some clamped and shifted window, mirrored if flipped |
| PseeRoi.WordsOfWindows | hal_psee_plugins/src/facilities/psee_roi.cpp:128-151 | a register bit is set if and only if a clamped window covers its column or row; the number of words |
| PseeRoi.Clamping | hal_psee_plugins/src/facilities/psee_roi.cpp:133-139 | a window is moved by the offsets and cut off at the sensor's edges, less the offset on the far side |
| PseeRoi.RegisterOfWindows | hal_psee_plugins/src/facilities/psee_roi.cpp:128-151 | the register bit of a column, from the other end if flipped, or of a row is set exactly if some window, wherever it lies, covers it and it is not cut off |
| PseeRoi.LinesPackDirectly | hal_psee_plugins/src/facilities/psee_roi.cpp:221-225 | for all lines, the bits set through the windows are the columns, mirrored if flipped, followed by the rows, each all false if the other line is |
| PseeRoi.RegisterOfLines | hal_psee_plugins/src/facilities/psee_roi.cpp:87-96 | the register of two lines bit by bit: a column's bit, from the other end if flipped, is set exactly if the column is enabled and some row is; rows alike |
| PseeRoi.PseeROI.SetLines | hal_psee_plugins/src/facilities/psee_roi.cpp:87-96 | refuses lines of the wrong size and then changes nothing; otherwise writes the words packed directly from the lines |
| PseeRoi.PseeROI.SetWindows | hal_psee_plugins/src/facilities/psee_roi.cpp:71-78 | writes the words of the windows, remembers them and leaves line mode |
| PseeRoi.PseeROI.GetLines | hal_psee_plugins/src/facilities/psee_roi.cpp:98-105 | fails if lines were not set last; otherwise gives back the lines set if and only if both have an enabled entry or neither has, and all false in the other cases |
| RegisterFields.MakeField | hal_psee_plugins/src/utils/register_map.cpp:91-98 | the mask loop gives exactly the field's bits |
| RegisterFields.SetBits | hal_psee_plugins/src/utils/register_map.cpp:75-77 | the field's bits become the low bits of the value; every other bit stays |
| RegisterFields.GetIff | hal_psee_plugins/src/utils/register_map.cpp:78-80 | a field reads as v modulo 2^len if and only if its bits are the low bits of v |
| RegisterFields.SetThenGet | hal_psee_plugins/src/utils/register_map.cpp:75-80 | a field reads back what was written to it, modulo 2^len |
| RegisterFields.WritesCommuteIff | hal_psee_plugins/src/utils/register_map.cpp:75-77 | two field writes commute for all values if and only if the fields share no bit |
| RegisterFields.WrittenIsUnique | hal_psee_plugins/src/utils/register_map.cpp:312-324 | the result of writing several disjoint fields is determined, so their order does not matter |
| RegisterFields.WrittenReadsBack | hal_psee_plugins/src/utils/register_map.cpp:126-149 | after a write of several fields each reads back its own value modulo 2^len |
| RegisterAccess.Register.WriteFields | hal_psee_plugins/src/utils/register_map.cpp:312-324 | changes at most this register; with disjoint fields each known one holds its value, unknown names are skipped and all other bits are as before |
| RegisterAccess.Register.WriteOneByOne | hal_psee_plugins/src/utils/register_map.cpp:126-140 | writing the fields one by one, in any order, each known one holds its value, all other bits are as before, and the other registers are left alone |
| RegisterAccess.WriteBothWays | hal_psee_plugins/src/utils/register_map.cpp:126-140 | one multi-field write and one write per field, in any order, leave every register of two equal memories equal |
| RegisterAccess.Register.WriteThenRead | hal_psee_plugins/src/utils/register_map.cpp:126-149 | a value written through a field is read back through it modulo 2^len, and nothing else has changed |
| StreamFormats.StringStream.GetLine | hal_psee_plugins/src/utils/psee_format.cpp:24-35 | reads the next piece of the delimiter split, or nothing at the end of the stream |
| StreamFormats.Parse | hal_psee_plugins/src/utils/psee_format.cpp:19-41 | the first piece is the name; every further piece is an option, cut at its first '=', what follows a second '=' dropped, later options replacing earlier ones |
| StreamFormats.SegmentsMean | hal_psee_plugins/src/utils/psee_format.cpp:19-41 | every format string segment by segment: the name, then options with no '=', one, or more; an empty segment, as after a trailing ';', sets the option with the empty name |
| StreamFormats.ToString | hal_psee_plugins/src/utils/psee_format.cpp:64-70 | the name and then every option once, in ascending order of names |
| StreamFormats.ListingIsUnique | hal_psee_plugins/src/utils/psee_format.cpp:64-70 | there is one such order, so equal formats print alike |
| StreamFormats.ParsedIsClean | hal_psee_plugins/src/utils/psee_format.cpp:19-41 | no separator is left in anything parsed, whatever the string |
| StreamFormats.PrintThenParseIff | hal_psee_plugins/src/utils/psee_format.cpp:19-70 | printing and parsing gives a format back if and only if no ';' or '=' occurs in its option names and values and no ';' in its name |
| StreamFormats.ParsePrintParse | hal_psee_plugins/src/utils/psee_format.cpp:19-70 | for every string, parsing what to_string prints gives the same name and options |

Constructors, plain setters and helper lemmas have no row.

## Left out

Parts of the repository that are not modelled:

- File, CSV and RAW-header reading and writing, console output, timing, logging and environment variables: event lists, words and bytes are parameters and results.
- The HAL EVT2, EVT21, EVT3, EVT4, AER and MTR decoder classes; the front end is proved for any decoder that works event by event. The HAL EVT2 decoder looks at the last time high of a whole buffer to find a wrap and is not such a decoder.
- The buffer pools, the locks and the restart logic of `I_EventsStream::seek`, its index-status switch, and the abort flag, header and write failures of the index; the nested loop over buffers is one loop over words, as buffers hold whole events there.
- `DataTransfer::stop` with a connection exception (thread detach), several controllers at once, and callbacks that call back into the transfer.
- The forwarders behind the front end; `Decode` says when they are flushed.
- Alias values, the constructor of `RegisterMap` that groups generated tables, and the generated tables themselves.
- `StreamFormat::geometry`, `contains` and `operator[]`; `PseeROI::get_windows`: one-branch reads.
- Camera discovery, plugin loading, bias and ERC facilities, Python bindings, viewers.

What the models assume:

- Evt2FileEncoder.EncodeFile: times lie in 0 to 2^64 - 17, since a method has to end; EncoderEndsIff proves that on any other 64-bit time the loop of the source does not.
- Evt2FileEncoder.EventTimeEncoder.Encode: the time highs are written at 16 us steps, as the constants of the encoder say; the 4-fold redundancy is not a parameter.
- Evt2HalEncoder.EncodeAll: times are 64-bit signed; the encoder's own arithmetic on them is on unbounded integers, which differs only within 16 us of the largest value.
- TimeBase.UnwrapIsExactIff: true bases stay below 2^64 us in EVT2 and below 2^32 loops in EVT3, where the decoder's own variables end.
- TimeBase.BasesStayInLoop: in EVT3, fewer than 2^32 - 1 time-high words, since the loop counter has 32 bits and the base more; in EVT2 the base keeps the counter modulo 2^30, for any number of words.
- SeekIndex.BuildBookmarks: a timestamp is the default -1 or at least 0, on the shifted clock. Offsets and indices are unbounded; the event count has its 32 bits.
- Seeking.Seek: reading beyond the bookmark list, undefined in the source, is an outcome of its own.
- Seeking.GetSeekRange: the bookmark list is not empty, which every built index meets.
- IndexFile.LoadIff: the magic record, which the source draws from a seeded generator, is a parameter that is not itself a bookmark. The model does not cover the header before the records.
- TransferThread.StopReturns: `run_impl` returns once it is asked to. Every access to a flag and every critical section is one step; a wait tests its condition and falls asleep in one step, as it holds the mutex.
- TransferProgress.StopCallReturns: without spurious wakeups, as for SuspendReturns; a parked worker may wake spuriously any number of times before `stop_` is set, and a waiting `suspend()` too.
- Evt3RoundTrip.DecodesToItsEvents: the repository has no EVT3 encoder; the words come from a writer of the model, laid out as the decoder's structs say. Times are below 2^56, the range of the decoder's loop counter.
- TransferThread.StopNeverStuck: the step that exists may be the return of `run_impl`.
- PseeRoi.CreateRois: coordinates are unbounded integers and offsets are not negative; word sizes are 1 to 32.
- PseeRoi.PseeROI.constructor: the source does not initialise `is_lines`; its first value is a parameter.
- PseeRoi.PseeROI.SetWindows: models the implementation behind the check of the number of windows, which is not part of this model.
- RegisterFields.MakeField: start below 32 and start + len at most 32, as shifts of 32 or more are undefined.
- TransferThread.SuspendHeardIff: being told to return means that `should_stop()` holds, that is `suspend_` or `stop_`.
- RegisterAccess.Register.WriteFields: the read and write callbacks of the register map act like memory, in which unwritten registers read 0. Visits names in any order, the source in key order.
- StreamFrontEnd.StreamDecoder.ResetLastTimestamp: what the concrete decoder resets itself to is a parameter.
