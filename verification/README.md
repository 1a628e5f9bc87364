# ADTimePix3 driver: a verified model

The driver connects an EPICS control system to a Timepix3 or Medipix3 detector through the Serval
server. This project models the parts of it that compute or coordinate, and proves what they promise.

| file | models |
|---|---|
| `Symmetry.dfy`, `PixelMap.dfy` | the maps between image pixels and bytes of a pixel configuration (BPC) file, with a symbolic chip width |
| `Layout.dfy` | the rotation and flip requested from Serval for each orientation |
| `Raster.dfy` | pixel positions and row-by-row passes over an image buffer |
| `MaskIO.dfy` | drawing a mask, writing it into a file, loading it, counting masked pixels |
| `PixelConfig.dfy` | comparing the chips with the file, the difference image, the export of masked pixels |
| `Base64.dfy` | the decoder applied to a chip's configuration |
| `Readback.dfy` | the whole readback: replies decoded, compared and exported, with a status text for each chip |
| `Accumulation.dfy`, `HistogramChannel.dfy`, `ImageChannel.dfy` | running sums, counters and sliding windows of frames |
| `Pairing.dfy` | pairing threshold-0 and threshold-1 images and emitting their difference |
| `Interceptors.dfy` | the re-entrant interceptor chain of the bundled HTTP library |
| `Sse.dfy`, `Text.dfy` | the incremental parser of server-sent events (section 9.2.6 of the WHATWG HTML Living Standard) |
| `Ports.dfy`, `Decimal.dfy` | TCP paths and the rotation of preview channels to free ports |
| `Mpx3.dfy` | the configuration sent after parameter writes and the MPX3 exclusions |
| `Workers.dfy` | starting and stopping the stream workers, interleaved with their own steps |
| `Arith.dfy`, `Counting.dfy`, `Wrappers.dfy` | quotients by a symbolic width, cardinalities and sums, optional values |

Objects whose methods update fields are classes here, and loops that update buffers are loops. Each such
method is tied to a function of the old state, and the promises are proved about that function. Ghost
fields record the history that the promises speak about (frames since a reset, messages since a rewind).
The workers are a state machine whose steps are the locked sections and flag reads of the threads and the
instructions of the calling thread; the network, thread creation and the data decide which step is taken.
Answers of servers, the contents of files and the set of busy ports are inputs, quantified over everywhere.

Promises that the code keeps only under a condition are stated with the exact condition: the quad LEFT
layout (its two maps differ on one tile, as a comment at `tpx3App/src/serval_http.cpp:1139-1140` admits),
short chip answers in the difference image, interceptors that answer without proceeding, server-sent
events that cannot survive printing, rectangles with a negative left edge, differences of 32-bit
images, and refused MPX3 configurations; for each of them a lemma also gives an input at which the
promise fails. The base64 decoder accepts NUL, which no encoding contains (`NulCarries`). After a peer
has closed the PrvHst connection a start alone does not replace its worker, since only a stop (or a
failed start) joins it (`OnlyStopReplaces`); the model follows the code.

## Model

| member | source | states |
|---|---|---|
| PixelMap.Factorisation | tpx3App/src/mask_io.cpp:782-931 | for every chip width and all eight orientations the index of a pixel is the index that the UP formulas give to the pixel turned by one symmetry of the whole image; the symmetry is the same for one chip and for the 2x2 quad |
| PixelMap.IndexIsFlat | tpx3App/src/mask_io.cpp:771-954 | all 41 formulas (8 single-chip, 32 quad, 1 eight-chip) give chip * w * w + row * w + column of the place where an independent table of chip positions puts the turned pixel |
| PixelMap.PixelOfIndex | tpx3App/src/mask_io.cpp:771-954 | every pixel has an index inside the file and is recovered from it: the map is one-to-one into 0 .. chips * w * w - 1 |
| PixelMap.IndexOfPixel | tpx3App/src/mask_io.cpp:771-954 | every byte of the file is the index of a pixel inside the image: the map is onto |
| PixelMap.PelIndexBijective | tpx3App/src/mask_io.cpp:771-954 | range, injectivity and surjectivity together, for 1 and 4 chips in every orientation and for 8 chips UP in every full grid |
| PixelMap.QuadPixelFlat | tpx3App/src/mask_io.cpp:580-736 | each quad branch of the reverse map is the inverse symmetry of the chip table, except LEFT on chip 0, whose columns come out reversed |
| PixelMap.ReverseMap | tpx3App/src/mask_io.cpp:536-765 | for every byte of the file the reverse map gives the row-major position of the pixel that shows it, with chip 0's tile flipped in quad LEFT and only there |
| PixelMap.ReverseInverts | tpx3App/src/mask_io.cpp:536-765 | the reverse map undoes the index map at a pixel if and only if the pixel is outside the flipped tile of quad LEFT or on that tile's middle row |
| PixelMap.TwoSidedInverse | tpx3App/src/mask_io.cpp:536-954 | outside quad LEFT each map undoes the other, for every pixel and every byte |
| PixelMap.OffTheMap | tpx3App/src/mask_io.cpp:536-954 | what both maps give outside the layouts and files that are mapped; a byte beyond a quad's file is placed at pixel (0, 0), since the code overwrites its mark, and with eight chips it is skipped |
| Layout.CommandIsTurn | tpx3App/src/serval_http.cpp:617-649 | the rotation followed by the flip that is requested for an orientation, composed as maps on an arbitrary image, is the symmetry of the index map; values off the menu act as UP |
| Layout.LayoutAgreesWithMap | tpx3App/src/serval_http.cpp:603-649 | so turning the UP image of any file by the requested command shows at every pixel the byte that the index map of that orientation assigns to it |
| Layout.UrlDistinguishes | tpx3App/src/serval_http.cpp:608-649 | no two orientations send the same query, whatever the server version |
| Layout.UrlSaysCommand | tpx3App/src/serval_http.cpp:603-649 | read word by word, the query of each orientation says exactly the rotation and the flip of its command |
| Layout.HalfTurnWord | tpx3App/src/serval_http.cpp:608-649 | the word for a half turn is 180 for a server of version 3 and half for any other |
| MaskIO.MaskReset | tpx3App/src/mask_io.cpp:236-248 | stores the on/off value in every pixel of the image and leaves the rest of the buffer alone |
| MaskIO.ResetExact | tpx3App/src/mask_io.cpp:236-248 | a reset replaces whole words, in the image and nowhere else |
| MaskIO.ShapeExact | tpx3App/src/mask_io.cpp:251-291 | a rectangle or circle moves no bit but bit 0 of any word, and that bit exactly at the pixels it covers, to what its parameter says |
| MaskIO.MaskRectangle | tpx3App/src/mask_io.cpp:251-270 | sets or clears bit 0 exactly at the buffer positions that the rectangle, clipped at the right and below, reaches; other bits, positions and cells keep their value; for every size and corner whose writes stay inside the buffer, negative ones included |
| MaskIO.RectangleExact | tpx3App/src/mask_io.cpp:251-270 | what is drawn is the part of the rectangle inside the image if and only if the left edge is not negative or nothing is drawn; a negative left edge spills into the row above |
| MaskIO.RectangleWraps | tpx3App/src/mask_io.cpp:251-270 | a rectangle with a negative left edge that draws a pixel it does not contain |
| MaskIO.MaskCircle | tpx3App/src/mask_io.cpp:274-291 | the same for the pixels within the radius of the centre, wherever the centre is; a negative radius draws nothing |
| MaskIO.CircleRow | tpx3App/src/mask_io.cpp:274-291 | in each row a circle covers the columns no further from its centre than the whole square root of what the row leaves of the squared radius |
| MaskIO.Load | tpx3App/src/mask_io.cpp:133-154 | bit 1 alone is set at the pixels whose byte is masked; everything else in the waveform is cleared; an empty file changes nothing |
| MaskIO.ApplyMask | tpx3App/src/mask_io.cpp:156-171 | every byte whose pixel has bit 0 gains bit 0 and no other byte changes, although the loop runs over pixels and writes through the index map; for every file that reaches the drawn pixels, however short |
| MaskIO.CountMasked | tpx3App/src/mask_io.cpp:418-425 | the published number is the number of bytes with bit 0 |
| MaskIO.MaskChannel.ReadMask | tpx3App/src/mask_io.cpp:99-180 | at most one action runs, chosen in the order reset, rectangle, circle, load, write; the file written is the mask file (mask.bpc when unnamed), the name of the file read is restored, and the server is asked to load exactly the file written; nothing is written or loaded when the path is no directory or the file cannot be opened; the count is that of the file read |
| MaskIO.MaskChannel.WriteFile | tpx3App/src/mask_io.cpp:437-506 | the mask name, the file map and the list of uploads after a write, with and without a directory and a file that opens |
| MaskIO.WrittenByte | tpx3App/src/mask_io.cpp:156-171 | after load, any sequence of draws and write, a byte's bit 0 is set if and only if it was set before or the draws leave its pixel on; all other bits are unchanged and no bit is ever cleared |
| MaskIO.DrawWriteLoad | tpx3App/src/mask_io.cpp:129-171 | loading the written file gives bit 1 at a pixel exactly when the pixel was masked in the first file, or the draws left it on and the file reaches its byte, and nothing else |
| MaskIO.LoadThenShapes | tpx3App/src/mask_io.cpp:129-154 | the waveform after loading a file and drawing any shapes, word for word: bit 1 still shows what the file masks, bit 0 what the shapes leave on, and no other bit is set |
| MaskIO.FirstFlagChosen | tpx3App/src/mask_io.cpp:99-180 | the action of the first flag that is 1 runs, whatever the later flags are, and none without such a flag |
| MaskIO.CountIsPixels | tpx3App/src/mask_io.cpp:418-425 | for a full file the published count is the number of masked pixels |
| MaskIO.WrittenCount | tpx3App/src/mask_io.cpp:129-171 | the count of the written file is the size of the union of the masked and the drawn pixels |
| MaskIO.FullFileReaches | tpx3App/src/mask_io.cpp:156-171 | a file with a byte for every pixel reaches the byte of every drawn pixel of every image, so every full file can be written |
| MaskIO.EditMask | tpx3App/src/mask_io.cpp:99-180 | one session on a full file: load, any draws, write, choose the written file, load it; the image then shows exactly the pixels masked in the first file or left on by the draws, the count is their number, and no other file has changed |
| PixelConfig.CompareChips | tpx3App/src/serval_http.cpp:1145-1251 | every chip's length, match code and mismatch number, the linear copy and the decoded flags are right for every chip and byte, with and without a file |
| PixelConfig.CodeExact | tpx3App/src/serval_http.cpp:1153-1240 | the code says match if and only if the answer equals the chip's whole part of the file, difference if and only if a byte differs within the shorter of the two, no answer and no file in exactly those cases; the published number is the number of differing bytes |
| PixelConfig.MismatchExact | tpx3App/src/serval_http.cpp:1215-1223 | the published number counts, byte by byte, where the answer differs from the file |
| PixelConfig.Compare | tpx3App/src/serval_http.cpp:1145-1277 | the reports are those of the comparison, and the difference image holds at each pixel the absolute difference of the byte that the index map assigns to it, zero where nothing was compared; without a file the image keeps its contents |
| PixelConfig.DifferenceShown | tpx3App/src/serval_http.cpp:1253-1277 | the value of every pixel, as integers: added to the smaller of the answered byte and the file's byte it gives the larger; the file's byte where a short answer does not reach; zero where nothing was compared |
| PixelConfig.DiffImageConservation | tpx3App/src/serval_http.cpp:1211-1277 | the number of non-zero pixels is the sum of the mismatch counts plus the non-zero file bytes beyond short answers, in every orientation |
| PixelConfig.ConservationExact | tpx3App/src/serval_http.cpp:1211-1277 | image and counts agree if and only if no answer stops short of a non-zero byte of its chip's part of the file; full answers never do |
| PixelConfig.ExportMaskedPels | tpx3App/src/serval_http.cpp:1047-1096 | the loop lists the masked bytes, numbered from 1, with their chip, place and pixel, and the bad-pixel list names the same pixels in the same order; listed and skipped entries add up to the published count |
| PixelConfig.ExportedPixel | tpx3App/src/serval_http.cpp:1065-1071 | the pixel exported for a byte is the one that shows it, flipped in chip 0's tile of quad LEFT |
| PixelConfig.ExportedPlace | tpx3App/src/serval_http.cpp:1056-1063 | chip, lx and ly are the chip and the place that the byte has in the file |
| PixelConfig.ExportComplete | tpx3App/src/serval_http.cpp:1052-1089 | no byte of a full file is skipped: the list has as many entries as there are masked bytes |
| PixelConfig.ExportMembers | tpx3App/src/serval_http.cpp:1052-1089 | the entries are exactly those of the masked bytes |
| PixelConfig.ExportDistinct | tpx3App/src/serval_http.cpp:1052-1089 | the exported pixels are pairwise distinct and as many as the published count, in every layout |
| PixelConfig.ExportedWhere | tpx3App/src/serval_http.cpp:1052-1089 | a pixel is exported if and only if the byte at its (flipped) place is masked |
| PixelConfig.ExportAgreesWithLoad | tpx3App/src/serval_http.cpp:1052-1089 | the exported pixels are the pixels that load marks if and only if the layout is not quad LEFT or chip 0's part of the file reads the same with its columns reversed |
| PixelConfig.QuadLeftDisagrees | tpx3App/src/serval_http.cpp:1139-1140 | a quad LEFT layout and a file at which load and export mark different pixels |
| PixelConfig.ShortAnswerShows | tpx3App/src/serval_http.cpp:1215-1223 | a file and a short answer at which image and counts differ |
| Readback.Driver.Refresh | tpx3App/src/serval_http.cpp:1128-1297 | one refresh from the chips' raw replies: count of masked bytes, report and status text of every chip, difference image, and the export that follows; for every HTTP status, content and file, and without a file image and export stay as they were |
| Readback.CarriedAnswer | tpx3App/src/serval_http.cpp:1153-1191 | a reply whose text is the encoding of a configuration, however spaced, is compared as that configuration |
| Readback.StatusExact | tpx3App/src/serval_http.cpp:1153-1240 | the text of a match appears if and only if the decoded answer equals the chip's whole part of the file, and the text of a missing file if and only if there is an answer and no file |
| Readback.FailureSays | tpx3App/src/serval_http.cpp:1153-1188 | the text for every reply that brings no configuration: HTTP status, parse error (cut at 200 characters), no string, no base64 |
| Readback.ComparisonSays | tpx3App/src/serval_http.cpp:1190-1240 | the text for every configuration, by the lengths and the bytes that differ |
| Readback.StripExact | tpx3App/src/serval_http.cpp:968-976 | exactly one trailing .bpc, in any case, is taken off the name of the exported file |
| Readback.MismatchReadable | tpx3App/src/serval_http.cpp:1224-1229 | the number of differing bytes can be read back from the status text |
| Readback.FileRecognised | tpx3App/src/serval_http.cpp:1145-1277 | when the replies carry whole configurations, every chip reports a match if and only if the file is those configurations one after the other, and exactly then the difference image is blank |
| Readback.Driver.Export | tpx3App/src/serval_http.cpp:993-1126 | the file written, its name, and the published path, number and text; nothing is written without a file name or when the target does not open |
| Readback.ExportReadable | tpx3App/src/serval_http.cpp:1113-1122 | the numbers of written and skipped entries can be read back from the export text |
| Base64.Decode | tpx3App/src/serval_http.cpp:40-59 | accepts if and only if every character before the first padding is whitespace or found in the alphabet string, whose final NUL is found too; on every accepted text each character but the first of a quantum yields the eight bits of the whole number above those left over, although the accumulator keeps 32 bits |
| Base64.AccumulatorBits | tpx3App/src/serval_http.cpp:51-54 | the octets cut out of the wrapped accumulator are those cut out of the whole number |
| Base64.OctetsSnoc | tpx3App/src/serval_http.cpp:44-57 | reading one more character completes exactly the octet that the bit counter says |
| Base64.OctetsLength | tpx3App/src/serval_http.cpp:44-57 | n alphabet characters give floor(6n/8) octets |
| Base64.EmittedIsOctets | tpx3App/src/serval_http.cpp:44-57 | without NUL the octets that the decoder emits are those of section 4 of RFC 4648 |
| Base64.DecodedLength | tpx3App/src/serval_http.cpp:40-59 | on every accepted NUL-free text the output is that of the RFC and has floor(6n/8) octets for n alphabet characters |
| Base64.Alphabet | tpx3App/src/serval_http.cpp:41-42 | the alphabet, character by character |
| Base64.AlphabetFound | tpx3App/src/serval_http.cpp:49-50 | the search finds the characters of the alphabet and its final NUL, and no other |
| Base64.NulCarries | tpx3App/src/serval_http.cpp:49-51 | an accepted text with a NUL: it carries into the character before it |
| Base64.OctetsOfSextets | tpx3App/src/serval_http.cpp:40-59 | the decoding of an encoding without padding is the original, for every octet string |
| Base64.RoundTrip | tpx3App/src/serval_http.cpp:40-59 | any text that is the encoding of a string under section 4 of RFC 4648 once whitespace is removed is accepted and decoded to that string |
| Accumulation.WrapDetected | tpx3App/src/histogram_io.cpp:139-157 | adding modulo 2^64 and then testing for a smaller sum finds every overflow: the stored bin is min(2^64 - 1, exact sum) |
| Accumulation.RunningSum.Add | tpx3App/src/histogram_io.cpp:139-157 | every bin becomes its capped sum; a frame of another size is refused and changes nothing |
| Accumulation.FoldIsCappedSum | tpx3App/src/histogram_io.cpp:139-157 | one capped addition a frame is the same as capping the exact sum of all frames once |
| Accumulation.OrderIrrelevant | tpx3App/src/histogram_io.cpp:139-157 | the running sum does not depend on the order of the frames |
| Accumulation.TotalByBins | tpx3App/src/histogram_io.cpp:475-482 | summing by frames and by bins gives the same total |
| Accumulation.StoredTotalExact | tpx3App/src/histogram_io.cpp:399-482 | the stored bins add up to all counts received if and only if no bin has passed 2^64 - 1 |
| Accumulation.CountsConserved | tpx3App/src/histogram_io.cpp:475-482 | while fewer than 2^64 counts have arrived the total-counts field equals the sum over the stored bins |
| Accumulation.SumFrames | tpx3App/src/histogram_io.cpp:514-538 | the sum of at most 100000 buffered frames is exact in every bin and fits a signed 64-bit number |
| HistogramChannel.Channel.ProcessFrame | tpx3App/src/histogram_io.cpp:376-543 | one frame extends the history (restarted by a new bin size) and keeps the running sum and both counters equal to that history; the window is what is left of the history after the frames dropped so far, of which there are exactly as many as the limit now or before required; the bin-wise sum of the window is published exactly when the interval is reached, and the frame counter since then is kept |
| HistogramChannel.WindowIsLast | tpx3App/src/histogram_io.cpp:501-507 | the window is the last frames up to the limit if and only if no earlier, smaller limit dropped more |
| HistogramChannel.LimitExact | tpx3App/src/histogram_io.cpp:501-507 | a limit keeps as many of the newest frames as it allows: it drops no more than it must and brings nothing back |
| HistogramChannel.ClampNearest | tpx3App/src/ADTimePix.cpp:756-780 | a limit or an interval in range stays as written, any other becomes the nearest in range |
| HistogramChannel.Run | tpx3App/src/histogram_io.cpp:376-543 | over a whole run from a new channel, for every limit and interval: a sum is published at every interval-th frame and at no other, and it is the exact sum of the last frames up to the limit |
| HistogramChannel.RunCommands | tpx3App/src/histogram_io.cpp:376-543 | frames, limit changes, interval changes, resets and switches in any order on a new channel: what is published after each command, and whether, is a function of the commands so far; it is the exact sum of the window |
| HistogramChannel.WindowOfCommands | tpx3App/src/histogram_io.cpp:390-507 | after any commands the window is the end of the accepted frames, no longer than the limit, and all its frames have one bin size |
| HistogramChannel.ExactCounters | tpx3App/src/histogram_io.cpp:465-496 | for both kinds of channel: until 2^64 counts have arrived nothing saturates or wraps |
| HistogramChannel.Channel.SetFramesToSum | tpx3App/src/ADTimePix.cpp:756-769 | the limit is clamped to 1 .. 100000, the window becomes its last N frames, and the count of dropped frames is updated |
| HistogramChannel.Channel.SetUpdateInterval | tpx3App/src/ADTimePix.cpp:771-780 | the interval is clamped to 1 .. 10000 and counting starts again |
| HistogramChannel.Channel.Reset | tpx3App/src/ADTimePix.cpp:1255-1268 | sum, window, counters and history start over and the invariant holds again |
| HistogramChannel.Channel.SumWindow | tpx3App/src/histogram_io.cpp:514-538 | every buffered frame has the current bin size, so the size filter drops nothing and the sum is that of the whole window |
| HistogramChannel.Channel.CountersExact | tpx3App/src/histogram_io.cpp:465-496 | until 2^64 counts have arrived the frame counter is the number of frames since the last reset or bin-size change and the total is the sum of the stored bins |
| ImageChannel.Channel.ProcessFrame | tpx3App/src/serval_stream.cpp:1180-1344 | the running sum and its counters restart with a new image size while the window does not; the window is what is left of the images since the reset after those dropped so far, and the published sum is that of its images of the oldest one's size; published exactly at the interval, with the frame counter kept |
| ImageChannel.Run | tpx3App/src/serval_stream.cpp:1180-1344 | over a whole run of images of any sizes from a new channel, for every limit and interval: a sum is published at every interval-th image and at no other, and it is that of the last images up to the limit |
| ImageChannel.RunCommands | tpx3App/src/serval_stream.cpp:1180-1344 | images, limit changes, interval changes and resets in any order on a new channel: a sum is published exactly at an image that reaches the interval and at a new limit that finds images, and it is that of the window that the commands so far leave |
| ImageChannel.ImageSum.AddImage | tpx3App/src/img_accumulation.cpp:139-165 | every pixel becomes its capped sum; an image of another width or height is refused, even with as many pixels |
| ImageChannel.Channel.SetUpdateInterval | tpx3App/src/ADTimePix.cpp:746-754 | the interval is clamped to 1 .. 10000 and counting goes on |
| ImageChannel.Channel.CountersExact | tpx3App/src/serval_stream.cpp:1235-1251 | until 2^64 counts have arrived the frame counter is the number of images since the last reset or size change and the total is the sum of the stored pixels |
| ImageChannel.Channel.SetFramesToSum | tpx3App/src/ADTimePix.cpp:667-719 | clamps, trims and recomputes at once, and makes the next frame publish; nothing is published for an empty window |
| ImageChannel.Channel.Reset | tpx3App/src/serval_stream.cpp:1668-1674 | sum, window, counters and histories start over and the invariant holds again |
| ImageChannel.SumImages | tpx3App/src/serval_stream.cpp:1303-1344 | the recomputation on a new frame is exact, free of overflow, and limited to the images of the oldest one's size |
| ImageChannel.ResumImages | tpx3App/src/ADTimePix.cpp:679-715 | so is the separate recomputation on a new limit |
| ImageChannel.PixelsLikeSnoc | tpx3App/src/serval_stream.cpp:1321-1337 | an image is summed exactly when both its width and its height are those of the oldest one |
| ImageChannel.WindowSumExact | tpx3App/src/serval_stream.cpp:1321-1337 | with one image size the published sum is the exact pixel-wise sum of the window |
| ImageChannel.RecomputationsAgree | tpx3App/src/ADTimePix.cpp:676-717 | the two loops, on a new frame and on a new limit, publish the same sums for every window |
| Pairing.PairIsMatching | tpx3App/src/serval_stream.cpp:309-337 | greedy pairing never uses a message twice and pairs only neighbours of different thresholds; a message waits exactly when it is not in the last pair |
| Pairing.PairIsOptimal | tpx3App/src/serval_stream.cpp:309-337 | no set of disjoint pairs of neighbouring unequal messages is larger than the greedy one, for every message sequence |
| Pairing.Run | tpx3App/src/serval_stream.cpp:309-462 | a whole sequence of messages through a new stream: an image is emitted exactly for every completed pair whose slots match and whose id is new, it is the band-pass of the slots, and with frame numbers that never decrease the emitted ids strictly increase |
| Pairing.RunIsOptimal | tpx3App/src/serval_stream.cpp:309-337 | at any point of a run no disjoint pairing of neighbouring unequal messages since the last rewind has more pairs than the stream has completed |
| Pairing.SlotsHoldPair | tpx3App/src/serval_stream.cpp:309-337 | with thresholds 0 and 1 only, the slots hold the two messages of a completed pair, which came one after the other |
| Pairing.EmittedIsPair | tpx3App/src/serval_stream.cpp:353-462 | for the two messages of a completed pair an image is emitted exactly when both counters are on, sizes and formats agree and the id is new; it is the threshold-0 image minus the threshold-1 image under the id of the former, whichever came first |
| Pairing.OneMeasurement | tpx3App/src/serval_stream.cpp:309-337 | while no frame number falls back by more than ten, all messages take part in one pairing |
| Pairing.NewMeasurement | tpx3App/src/serval_stream.cpp:309-337 | one that falls back further leaves all before it out, completes no pair and forgets the last id |
| Pairing.Stream.Process | tpx3App/src/serval_stream.cpp:309-337 | keeps for every message sequence: never both flags; the flags say exactly whether the latest message waits; the completed pairs are the greedy pairs of the messages since the last rewind, held in the two slots; with non-negative non-decreasing frame numbers the emitted ids strictly increase; and an image is emitted exactly for a completed pair whose slots match |
| Pairing.Stream.Emit | tpx3App/src/serval_stream.cpp:353-462 | emits the band-pass of the two slots if and only if both counters are on, the id is new and sizes and formats match |
| Pairing.Stream.Reset | tpx3App/src/acquire.cpp:462-478 | a new acquisition forgets flags, frame numbers and ids but not the images in the slots |
| Pairing.DiffPixels | tpx3App/src/serval_stream.cpp:420-452 | every pixel is the wrapped and optionally clipped 32-bit difference |
| Pairing.BandPassExact | tpx3App/src/serval_stream.cpp:420-452 | clipped or not, the pixel is the true difference (or max(0, T0 - T1) when clipped) if and only if T0 - T1 fits 32 bits, as it always does for 16-bit images; otherwise it is off by exactly 2^32 before clipping |
| Pairing.WideDifferenceWraps | tpx3App/src/serval_stream.cpp:420-452 | a pair of 32-bit pixels whose difference wraps, clipped and unclipped |
| Interceptors.ChainIsNested | tpx3Support/cpr/session.cpp:264-273 | a request runs interceptors k+1 .. n-1 and the transport inside every proceed of interceptor k, repeated proceeds included, and restores both iterators, if and only if every interceptor that is called proceeds at least once; for every chain length and every pattern of proceed counts |
| Interceptors.ProceedingChain | tpx3Support/cpr/session.cpp:990-1010 | a chain whose interceptors always proceed behaves as nested calls and leaves the iterators where they were |
| Interceptors.RequestNested | tpx3Support/cpr/session.cpp:985-1010 | the same for a request made inside interceptor k: in step with the nested run, or astray for good once a called interceptor did not proceed |
| Interceptors.AnsweringInterceptorBypassed | tpx3Support/cpr/session.cpp:990-1010 | an interceptor that answers by itself is bypassed by the second proceed of the one before it, which goes straight to the network |
| Interceptors.Session.Intercept | tpx3Support/cpr/session.cpp:990-1010 | the iterators, the call count and the trace after one step of the chain are those of the recursive description; the recursion ends because fewer interceptors remain |
| Interceptors.Session.MakeRequest | tpx3Support/cpr/session.cpp:264-273 | a request handled by no interceptor reaches the transport exactly once |
| Interceptors.Session.AddInterceptor | tpx3Support/cpr/session.cpp:978-983 | the chain grows at its end and the next request starts at its first interceptor |
| Sse.Parser.Parse | tpx3Support/cpr/sse.cpp:13-34 | the loop over the buffer has the effect of one recursive description of the whole byte stream: same events in the same order, same buffer, same event under construction, same answer, for every callback |
| Sse.Parser.ProcessLine | tpx3Support/cpr/sse.cpp:41-100 | a non-empty line changes only the event under construction; an empty one dispatches it |
| Sse.Parser.DispatchEvent | tpx3Support/cpr/sse.cpp:102-116 | an event without data is dropped, any other is handed over, and the event under construction starts fresh in both cases |
| Sse.DrainAppend | tpx3Support/cpr/sse.cpp:13-34 | data that arrives later has the effect it would have had from the start, unless the callback has refused an event |
| Sse.ChunkInvariance | tpx3Support/cpr/sse.cpp:13-34 | how a stream is cut into chunks changes neither the events nor the final state, for every callback, with the rest unread after a refusal |
| Sse.NoLineLeft | tpx3Support/cpr/sse.cpp:13-34 | no newline is left in the buffer when the parser returns true |
| Sse.FieldReceived | tpx3Support/cpr/sse.cpp:51-85 | a line with a colon sets its field to the value character by character, with or without the space after the colon and the carriage return at the end; a field of another name changes nothing |
| Sse.RetryReceived | tpx3Support/cpr/sse.cpp:86-95 | a retry line takes the number its value starts with, whatever follows; without one, or beyond 64 bits, it is ignored |
| Sse.BareLine | tpx3Support/cpr/sse.cpp:57-60 | a line without a colon is a field with an empty value |
| Sse.CommentLine | tpx3Support/cpr/sse.cpp:46-49 | a line that starts with a colon changes nothing |
| Sse.DataAlone | tpx3Support/cpr/sse.cpp:102-116 | an event starts without the id, type and retry of the one before: data alone arrives with the type message |
| Sse.RoundTripExact | tpx3Support/cpr/sse.cpp:13-116 | printing an event and parsing it gives exactly that event if and only if no field line ends in a carriage return, the id has no NUL and the data starts with a non-empty line |
| Sse.GatherExact | tpx3Support/cpr/sse.cpp:75-80 | the data lines are joined back to the printed text if and only if the first is not empty and none ends in a carriage return |
| Sse.LeadingNewlineLost | tpx3Support/cpr/sse.cpp:75-80 | an event whose data starts with an empty line and does not come back |
| Sse.StreamRoundTrip | tpx3Support/cpr/sse.cpp:13-116 | a stream of printed events arrives complete, in order and unchanged however it is cut into chunks |
| Decimal.ValueOfPrint | tpx3App/src/acquire.cpp:107-109 | printing a number and reading the digits gives the number |
| Decimal.PrintCanonical | tpx3App/src/acquire.cpp:107-109 | no printed number starts with a zero but zero, and ten is the first of two digits |
| Decimal.ParseIntExact | tpx3App/src/serval_stream.cpp:678-679 | reading skips white space, takes a sign and the digits up to the first other character, and fails beyond 32 bits |
| Decimal.ParseIntNone | tpx3App/src/serval_stream.cpp:678-687 | without a digit there is no number |
| Ports.PathRoundTrip | tpx3App/src/acquire.cpp:107-109 | parsing a made path gives back host and port if and only if the host has no colon and the port is in 1 .. 65535 |
| Ports.PathParts | tpx3App/src/serval_stream.cpp:653-690 | every path tcp://host:rest or tcp://user@host:rest gives the host up to the first colon and the number the rest starts with, if it is a port, and nothing else |
| Ports.OtherPaths | tpx3App/src/serval_stream.cpp:653-690 | a path of another scheme, or without a colon after the host, gives no endpoint |
| Ports.ReprintStable | tpx3App/src/serval_stream.cpp:653-690 | for every path the parser accepts, printing the result and parsing again gives the same result |
| Ports.NextFreeTcpPort | tpx3App/src/acquire.cpp:111-121 | the least port from the start on that is neither reserved nor in use, and -1 if and only if there is none up to 65535 |
| Ports.Driver.RotatePorts | tpx3App/src/acquire.cpp:166-214 | a successful pass moves exactly the channels that must move, each to the least port its search allows; a failed one stops at a channel for which no port is left, earlier channels already moved |
| Ports.Driver.SyncTcpStreamEndpoints | tpx3App/src/acquire.cpp:125-147 | exactly the enabled synced channels whose path parses get its host and port |
| Ports.Driver.EnsurePreviewTcpPortsFree | tpx3App/src/acquire.cpp:153-224 | success means a complete pass with the endpoints read again; failure means no port was left (endpoints untouched) or a changed configuration was refused |
| Ports.ForcedPass | tpx3App/src/acquire.cpp:166-214 | after a complete forced pass every enabled parsable channel has a free port of its host, above its old one and at most 65535, and no two of them share a port |
| Ports.UnforcedPass | tpx3App/src/acquire.cpp:166-214 | after a complete unforced pass channels on free ports are untouched and every enabled parsable channel is on a free port of its old host |
| Ports.PassExact | tpx3App/src/acquire.cpp:166-214 | each channel after a complete pass: off, unparsable or (unforced) on a free port it keeps its path; any other listens on its host at the least port above its own that is free and that no enabled channel before it held or was given |
| Ports.EndpointsFollow | tpx3App/src/acquire.cpp:125-147 | the endpoints that the preview workers read are exactly the rotated ones |
| Mpx3.InitIsSafe | tpx3App/src/serval_http.cpp:2482-2652 | whatever the store holds and Serval answers, a configuration sent for MPX3 never pairs BothCounters with CONTINUOUS or depth 24, has a depth of 1, 6, 12 or 24, carries no TPX3-only key, and outside CONTINUOUS has a period of at least exposure + 0.003 |
| Mpx3.RunsAreSafe | tpx3App/src/ADTimePix.cpp:556-639 | the same for every configuration sent in any run of writes and readbacks |
| Mpx3.PreparedAt | tpx3App/src/serval_http.cpp:2520-2650 | where every key of a sent MPX3 configuration comes from that the driver does not compute; keys it does not know go back as they were received |
| Mpx3.DrivenAt | tpx3App/src/serval_http.cpp:2520-2650 | the values of the keys that the driver computes |
| Mpx3.OtherFamilyAt | tpx3App/src/serval_http.cpp:2520-2610 | every key of a configuration sent for another family: timing, the settings of all families and its own; all other keys go back as received |
| Mpx3.KeysOfGroups | tpx3App/src/serval_http.cpp:2550-2650 | which keys are sent for every family, for MPX3 alone and for the others alone |
| Mpx3.InitStores | tpx3App/src/serval_http.cpp:2508-2652 | before a configuration is sent the stored mode and depth are put on the menu, a depth in conflict becomes 12, and nothing else is touched |
| Mpx3.ConflictSendsNothing | tpx3App/src/serval_http.cpp:2508-2519 | a stored conflict of BothCounters with CONTINUOUS sends nothing and is reported |
| Mpx3.UnknownIsAsked | tpx3App/src/serval_http.cpp:2501-2503 | an unknown detector is asked for its parameters, and the call goes on with them |
| Mpx3.SentIsStored | tpx3App/src/serval_http.cpp:2508-2652 | after an accepted write the sent trigger mode, counters, depth, gain mode, number of images and exposure are those in the store, and the sent period is the exposure in CONTINUOUS and otherwise the larger of the stored period and exposure + 0.003 |
| Mpx3.WriteStores | tpx3App/src/ADTimePix.cpp:556-639 | for every parameter: the field that holds the written value afterwards, and that all other fields are unchanged; on the menu the value itself is stored, and off it or in conflict the one named |
| Mpx3.WriteSends | tpx3App/src/ADTimePix.cpp:556-639 | which writes send a configuration, and whether they succeed |
| Mpx3.WrittenIsSent | tpx3App/src/ADTimePix.cpp:1045 | the value sent under the key of each written parameter, once Serval accepts: for the period the larger of the written one and exposure + 0.003 |
| Mpx3.TriggerModeIndexFromServal | tpx3App/src/ADTimePix.cpp:892-899 | a reported name or label gives a mode it stands for, any other name the default |
| Mpx3.TriggerRoundTrip | tpx3App/src/ADTimePix.cpp:822-899 | each name that is sent, and each label, stands for one mode only |
| Mpx3.WriteKeepsExclusions | tpx3App/src/ADTimePix.cpp:556-639 | a write keeps both exclusions in the store if and only if it sends nothing by itself (refused at once, or only stored) or Serval's answer does not bring one back (an MPX3 detector found already in conflict, or a refused configuration with depth 24 read back) |
| Mpx3.EnablingRepairs | tpx3App/src/ADTimePix.cpp:587-614 | turning BothCounters on asks for both thresholds and establishes both exclusions from any store of a known MPX3 detector, unless the configuration is refused and depth 24 is read back |
| Mpx3.WriteKeepsSingleImage | tpx3App/src/ADTimePix.cpp:616-639 | every write to a known detector keeps a single-image mode at one image, whatever Serval answers |
| Mpx3.AcceptedRunsKeepExclusions | tpx3App/src/ADTimePix.cpp:556-639 | while Serval accepts what it is sent, any run of writes keeps the exclusions |
| Mpx3.RefusedWriteBreaks | tpx3App/src/serval_http.cpp:2656-2674 | a store and an answer at which a refused write ends with BothCounters and depth 24 |
| Mpx3.GainRoundTrip | tpx3App/src/ADTimePix.cpp:1931-1947 | a gain mode survives being sent and read back; anything off the menu becomes 0 |
| Mpx3.Driver.InitAcquisition | tpx3App/src/serval_http.cpp:2482-2684 | the parameters, the answer and the configurations sent are those of the description above, for every answer of Serval; no unsafe configuration is ever logged |
| Mpx3.Driver.WriteParam | tpx3App/src/ADTimePix.cpp:556-639 | the same for a write to any of the parameters that lead to a new configuration |
| Mpx3.DepthFromJson | tpx3App/src/serval_http.cpp:134-161 | every value read from Serval becomes a valid depth |
| Mpx3.DepthRead | tpx3App/src/serval_http.cpp:134-161 | a depth on the menu is read from a number, whatever its fraction, or from its digits, and anything else is 12 |
| Workers.StepKeeps | tpx3App/src/acquire.cpp:237-275 | every step of every interleaving of a call with the workers keeps the invariant that ties flags, recorded ids, joined ids and live workers together |
| Workers.WorkerKeeps | tpx3App/src/serval_stream.cpp:478-651 | a worker's own steps, including peer close, socket error and giving up, keep the invariant of its channel |
| Workers.ControlKeeps | tpx3App/src/acquire.cpp:380-457 | so do the steps of starting and stopping, whether thread creation works or not |
| Workers.AtMostOneWorker | tpx3App/src/acquire.cpp:489-563 | in every reachable state a channel has at most one live worker, and that one is recorded or being joined |
| Workers.CreatedOnlyWhenClear | tpx3App/src/acquire.cpp:660-673 | a worker is created only on a channel whose flag is clear, with no recorded id and no live worker; the flag is then set and the worker recorded |
| Workers.SpawnCreates | tpx3App/src/acquire.cpp:495-505 | with a clear flag, no recorded id and a creation that succeeds the channel gets one more worker, at the top of its loop, its id is recorded and the flag is set |
| Workers.CallCreates | tpx3App/src/acquire.cpp:237-275 | a start that runs to its return creates exactly one worker for every enabled preview channel, and one for PrvHst if and only if it is enabled and no id was recorded for it before; no other call creates any; whatever the workers do meanwhile |
| Workers.CallHalts | tpx3App/src/acquire.cpp:380-457 | a refused, failed or successful start and a stop leave no worker, flag or record on the channels they halt |
| Workers.WorkerReads | tpx3App/src/serval_stream.cpp:478-651 | from the top of its loop a worker whose flag is set reads its stream after six steps, or four when already connected, if the network lets it |
| Workers.WorkerFlags | tpx3App/src/serval_stream.cpp:478-651 | every step of a worker by what it changes: when the flag is cleared, when the connection is made and lost, and which place follows which |
| Workers.StopIsComplete | tpx3App/src/acquire.cpp:912-999 | when a stop returns no worker is live and every running and connected flag is clear, until the next call |
| Workers.JoinEnds | tpx3App/src/acquire.cpp:974-994 | while a call waits for a worker only workers can move, and the worker has ended after at most four steps of its own |
| Workers.ProjectStop | tpx3App/src/acquire.cpp:923-999 | what a stop does to one channel: clear the flag, then give up and join the id, then disconnect, in this order |
| Workers.OnlyStopReplaces | tpx3App/src/acquire.cpp:659-672 | once the id of a PrvHst worker is recorded no other worker is created before a stop or a failed start, even after its connection was closed, whatever starts and worker steps come in between |

## Left out

- MaskIO.MaskRectangle: corners whose writes leave the buffer (a negative top edge, or a left edge below minus the row's start) are required away, because the loop does not check them.
- MaskIO.ApplyMask: a file that ends before the byte of a drawn pixel, or a waveform shorter than the image, is required away, because the loop reads and writes unchecked.
- MaskIO.MaskChannel.ReadMask: the answer to the upload, memory errors and the paths in front of the names are not modelled; a file is present under its name or not.
- PixelMap.PelIndexBijective: integers are unbounded, so a width whose square overflows 32 bits is not covered.
- PixelMap.Factorisation: a quad has an even number of rows; with an odd number its image would not be square.
- PixelMap.ReverseMap: speaks about bytes inside the file; `OffTheMap` says what happens beyond it for a quad and for eight chips, and for one chip the formulas go on unchecked.
- Readback.Driver.Refresh: the JSON around the exported list (source, detector, acquisition, time) and the error messages of the log are left out; the text of a parse error is an input.
- HistogramChannel.Channel.ProcessFrame: bin edges and times (floating point), rates, memory figures and the averaging of work time are left out; frames are values, so copying and moving them is not visible.
- ImageChannel.Channel.ProcessFrame: 16-bit and 32-bit pixels are both numbers below 2^32; storage formats and the arrays handed to plugins are left out.
- Pairing.Stream.Process: thresholds other than 0 and 1 share the T0 slot; after one of them the slot no longer holds the waiting message, and the promise about its contents is dropped until the next threshold-0 message. Frame numbers are unbounded in the test for a rewind.
- Ports.Driver.EnsurePreviewTcpPortsFree: the path-exists and stream-kind parameters are left out; distinct ports after an unforced pass are not promised, since a later idle channel may hold the chosen one.
- Mpx3.Driver.WriteParam: the stop of a running acquisition by a write of the image mode or of a time, messages and HTTP codes are left out; an unparsable configuration answer, which makes the call throw, is not modelled. Times are real numbers and JSON keys an enumeration of the known ones with all others by name.
- Workers.StepKeeps: the threads are steps of a state machine on values, since methods of a class run one at a time; what happens inside one locked section is one step.
- Workers.StopIsComplete: calls come from outside the workers; flag reads are taken as atomic; the callback thread, the destructor and the network client objects are left out.
- Workers.JoinEnds: says nothing about a worker that is blocked in a receive call and takes no step.
- Non-square eight-chip layouts have only the index map: drawing and loading use different strides there.
- Two-slice MPX3 files are outside the index maps, as the header of the mask code says.
- The decoding of whole image and histogram streams: the bytes after a header line are kept although they were already used as pixels, so no round trip holds.
- EPICS callbacks, parameter registration, logging, time stamps, rates, NDArray pools, HTTP, sockets and TLS; the rest of the HTTP library.
