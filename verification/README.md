# Verified model of the JPEG compressor and the viewer's codecs

This Dafny project models the parts of the repository that are hardest to get right, and proves that they do what they
are for. Each module is named after the component it models.

* **Arithmetic coding** (`jcarith.c`, `jdarith.c`, `jaricom.c`). `IntervalCoder` is the interval coder of ITU-T T.81
  Annex D on unbounded integers. `ArithEncoder` is the encoder with its 28-bit register, buffered byte, stacked 0xFF
  bytes and pending zeros, proved to be an exact refinement of it; `ArithDecoder` is the decoder, proved to return every
  decision. `ArithMcuEncoder`, `ArithMcuDecoder` and `ArithScan` add the binarisations of T.81 sections F.1.4 and G.1.3,
  DC prediction and restart intervals; `ArithWholeScan` is a scan with all its MCUs, written and read back.
  `ArithDecisions` says what the decisions and the bins mean, `ArithRestarts` what restarts achieve.
* **Progressive images** (`jcmaster.c`, `jcparam.c`, `jdcoefct.c`). `ScanScript` is `validate_script`,
  `SimpleProgression` the generated script. `ProgressiveReplay` and `ProgressiveTransmit` show what an accepted script
  leaves in the decoder, `ProgressiveImage` the same with the MCUs that the coefficient controller makes.
* **Huffman coding** (`jchuff.c`, `jdhuff.c`). `HuffmanOptimal`, `HuffmanTree`, `HuffmanLimit` and `HuffmanLengths` are
  `jpeg_gen_optimal_table`; `DerivedTable` and `HuffmanBits` the canonical codes of both sides; `HuffmanBlock`,
  `HuffmanWriter`, `HuffmanScan` and `HuffmanRead` a scan written and read back; `HuffmanStatistics` and
  `HuffmanOptimize` the two-pass coding with generated tables.
* **Passes and MCUs** (`jcmaster.c`, `jccoefct.c`). `PassSchedule` is the pass machinery with the calls that drive it,
  `CoefController` the coefficient controller in single-pass and multi-pass mode, under suspension; `DummyBlocks` is
  what it fills up MCUs with at the edges.
* **Quantisation** (`jcdctmgr.c`). `Quantization` is division by multiplication with a reciprocal, for 16-bit and 32-bit
  DCTELEM.
* **The viewer** (`DesCipher.java`, `SessionRecorder.java`, `VncCanvas.java`). `Des` and `DesCipher` are DES with cipher
  block chaining, `DesStandard` compares them with FIPS 46-3; `SessionRecorder` is the record framing of session files,
  `VncCanvas` the decoding of rectangles.

`Numbers`, `Sums` and `ByteStuffing` hold what they share.

Objects that the source updates in place are classes here, and its loops are loops. The output destination is a byte
sequence that only grows. Inputs that the source cannot choose are parameters: the clock of the recorder, whether the
destination accepts a store, whether the entropy encoder takes an MCU, the S-boxes. `ERREXIT` and thrown exceptions are
failure results. Ghost state (a log of decisions, the bytes of a segment before stuffing, the records of a file) says
what the real state stands for.

Where a promise turned out not to hold of the code, its exact condition is stated instead:

* Timestamps of a recording are right exactly if its last record was begun in the first 2^31 ms, because of the cast to
  int (`SessionRecorder.StampsExact`). When they turn -1 is stated as exactly (`SessionRecorder.StampsMinusOne`), with a
  recording that fails (`SessionRecorder.StampsFail`). They never fall exactly if no record lies beyond the next wrap of
  the 32-bit clock, for recordings without a pause of 2^32 ms (`SessionRecorder.StampsNeverFall`).
* Flushing the recorder is safe for every fill exactly if the buffer size is a multiple of four
  (`SessionRecorder.PaddingFits`, `SessionRecorder.UnalignedFails`).
* The scale form of the division works exactly if the shift exceeds 16 bits, which is what `compute_reciprocal` reports
  (`Quantization.ScaleFits`).
* The arithmetic decoder rejects a DC difference exactly if it is outside [-0x8000, 0x8000]
  (`ArithMcuDecoder.DecodeDcDiff`), and a scan or a whole script exactly if it contains one
  (`ArithWholeScan.DecodeScan`, `ProgressiveTransmit.TransmitScript`, `ProgressiveImage.TransmitImage`). Coefficients
  that are given to `jpeg_write_coefficients` may contain one (`ArithWholeScan.FullSwingFails`).
* JERR_HUFF_CLEN_OVERFLOW occurs exactly if an optimal code length exceeds 32 (`HuffmanLimit.GenOptimalTable`). This
  takes Fib(35) counted symbols or more, and does happen (`HuffmanLimit.OverflowOccurs`).
* The divisor of a quantisation step is right exactly if the step is below 8192, and division by zero occurs exactly at
  multiples of 8192 (`Quantization.DivisorIsExact`, `Quantization.FillDivisors`).

`dafny verify dfyconfig.toml` checks the project.

## Model

| member | source | states |
|---|---|---|
| AritTable.Unpack | libjpeg-turbo-win/jaricom.c:30-34 | the shifts and masks of the coder recover the estimate, both successor indexes and the switch flag that the packing macro combined, for every statistics byte |
| AritTable.JpegAritabIsGood | libjpeg-turbo-win/jaricom.c:36-153 | every row of the packed table has an estimate between 1 and 0x7FFF and successors inside its 114 rows, so a coder never leaves the table |
| AritTable.EstimatesMove | libjpeg-turbo-win/jaricom.c:36-153 | how the estimates of all 114 rows move: an MPS lowers the estimate, an LPS raises it or exchanges the symbols, exchanges happen only above 2/3 of the least interval, and the fixed row is entered from no other |
| AritTable.StartingEstimates | libjpeg-turbo-win/jaricom.c:36-153 | row 113 is 0x5a1d and leads only to itself, and row 0, which zeroed areas start with, is 0x5a1d and leads to 0x2586 with either symbol |
| IntervalCoder.EveryDecisionDecodes | libjpeg-turbo-win/jcarith.c:142-162 | any number in the final interval of the unbounded interval coder makes the comparison of T.81 section D.2 return each coded decision, at every step of the run |
| IntervalCoder.RunContains | libjpeg-turbo-win/jcarith.c:225-317 | the interval after more decisions lies inside the interval after fewer |
| IntervalCoder.SymbolsShare | libjpeg-turbo-win/jcarith.c:241-263 | the two symbols divide the interval, the more probable one gets the larger part, and the lower one unless that is too small |
| IntervalCoder.ChangeAtRenorm | libjpeg-turbo-win/jcarith.c:241-263 | an estimate changes exactly when the interval is renormalised, which every LPS brings about |
| IntervalCoder.UnitIsWhole | libjpeg-turbo-win/jcarith.c:349-355 | coding starts from the interval of all byte strings |
| IntervalCoder.FixedEstimate | libjpeg-turbo-win/jcarith.c:930-931 | after any decisions and any clearing of areas, the estimate met in `fixed_bin` is 0x5a1d with MPS 0 |
| IntervalCoder.ClearedEstimates | libjpeg-turbo-win/jcarith.c:336-352 | in a new coder and in a cleared area every bin has the estimate 0x5a1d with MPS 0 and leaves it with its first decision |
| IntervalCoder.KeptEstimates | libjpeg-turbo-win/jcarith.c:336-352 | clearing keeps the statistics of all other areas |
| IntervalCoder.MostTrailingZeros | libjpeg-turbo-win/jcarith.c:149-156 | no value of the final interval has more trailing zero bits than the chosen one |
| IntervalCoder.ShortestFinal | libjpeg-turbo-win/jcarith.c:142-199 | "we always produce the shortest possible output": no byte string shorter than the one written lies in the final interval |
| ArithEncoder.Narrowed | libjpeg-turbo-win/jcarith.c:241-263 | the register update for either symbol is the choice of a subinterval of the exact interval, with conditional exchange |
| ArithEncoder.Encoder.ResolveCarry | libjpeg-turbo-win/jcarith.c:274-285 | the carry branch writes bytes whose number is one more than the pending bytes stood for, of the same length |
| ArithEncoder.Encoder.ResolveNoCarry | libjpeg-turbo-win/jcarith.c:294-310 | the branch without carry writes exactly the pending bytes |
| ArithEncoder.Encoder.ByteOut | libjpeg-turbo-win/jcarith.c:271-315 | taking a byte out of C leaves the exact interval unchanged and re-establishes all register bounds |
| ArithEncoder.Encoder.Renormalize | libjpeg-turbo-win/jcarith.c:268-316 | the renormalisation loop normalises the exact interval |
| ArithEncoder.Encoder.Encode | libjpeg-turbo-win/jcarith.c:225-317 | after every call, bytes written, pending zeros, buffered byte, stacked 0xFF bytes and C together are the low end of the unbounded interval coder run on exactly the decisions coded, with the same statistics |
| ArithEncoder.Encoder.FinishPass | libjpeg-turbo-win/jcarith.c:139-199 | the bytes of the segment denote exactly the terminating value of the exact interval and do not end in a zero byte |
| ArithEncoder.Encoder.Finish | libjpeg-turbo-win/jcarith.c:139-199 | the finished segment lies in the final interval, is the shortest that does, has every 0xFF followed by 0x00 and ends in no zero byte except a stuffed one |
| ArithEncoder.Encoder.EmitRestart | libjpeg-turbo-win/jcarith.c:325-359 | the segment is finished, 0xFF RSTn follows it, and a new segment starts with the statistics of the given tables cleared |
| ArithDecoder.Decoder.Fetch | libjpeg-turbo-win/jdarith.c:124-147 | the byte fetch removes stuffing, and supplies zeros once a marker has been met |
| ArithDecoder.Decoder.Renormalize | libjpeg-turbo-win/jdarith.c:123-155 | the loop at the head of the decoder reaches the renormalised interval |
| ArithDecoder.Decoder.Decode | libjpeg-turbo-win/jdarith.c:115-191 | the decision returned is the one that was coded at this place, for any segment in the final interval of its decisions |
| ArithDecoder.Decoder.Choose | libjpeg-turbo-win/jdarith.c:157-191 | the comparison with the split point, the conditional exchange and the new estimate: the register update and the bit that go with either answer |
| ArithDecoder.Decoder.NextMarker | libjpeg-turbo-win/jdmarker.c:888-929 | skips what is left of a segment, stuffed zeros included, and stops at the marker behind it |
| ArithDecoder.Decoder.ReadRestartMarker | libjpeg-turbo-win/jdmarker.c:1127-1155 | succeeds exactly if the marker behind the segment, already met or not, is the expected one |
| ArithDecoder.Decoder.ProcessRestart | libjpeg-turbo-win/jdarith.c:199-230 | goes on to the next segment with the statistics of the given tables cleared, exactly if the marker in between is the expected one |
| ArithRoundTrip.RoundTrip | libjpeg-turbo-win/jcarith.c:139-317 | for every sequence of contexts and bits: encoding, finishing, appending a marker and decoding with the same contexts returns the same bits; the bytes contain no marker and are trimmed |
| ByteStuffing.UnstuffStuff | libjpeg-turbo-win/jdhuff.c:285-382 | reading a stuffed segment up to the marker behind it recovers the bytes |
| ArithMcuEncoder.EncodeDcDiff | libjpeg-turbo-win/jcarith.c:393-450 | codes a DC difference as the decision tree of T.81 Figures F.4 to F.9 and leaves the conditioning category of section F.1.4.4.1.2 |
| ArithMcuEncoder.EncodeAcMagnitude | libjpeg-turbo-win/jcarith.c:519-541 | magnitude category and bits of an AC coefficient, in the bins that Kx selects |
| ArithMcuEncoder.EncodeAcFirst | libjpeg-turbo-win/jcarith.c:478-547 | codes a band of coefficients, shifted toward zero by Al, as the decisions of T.81 Figure F.5 up to the last nonzero one |
| ArithMcuEncoder.EncodeAcRefine | libjpeg-turbo-win/jcarith.c:612-675 | codes the next bit of a band as the decisions of T.81 Figure G.10, with no end-of-block decision up to the previous end of block |
| ArithMcuDecoder.DecodeDcDiff | libjpeg-turbo-win/jdarith.c:276-313 | returns the coded difference and the same conditioning category, and fails exactly when the difference is outside [-0x8000, 0x8000] |
| ArithMcuDecoder.DecodeAcMagnitude | libjpeg-turbo-win/jdarith.c:367-389 | returns the magnitude, and fails exactly if its category would overflow |
| ArithMcuDecoder.DecodeAcFirst | libjpeg-turbo-win/jdarith.c:346-392 | rebuilds every coefficient of the band without its low Al bits, leaves the others, and never fails on 16-bit coefficients |
| ArithMcuDecoder.DecodeAcRefine | libjpeg-turbo-win/jdarith.c:454-495 | from a band without its low Al + 1 bits, rebuilds it without its low Al bits |
| ArithDecisions.DcContextIs | libjpeg-turbo-win/jcarith.c:437-441 | T.81 section F.1.4.4.1.2 on the difference: the category is zero up to half of 2^L, small up to 2^U and large beyond, told apart by sign |
| ArithDecisions.DcSays | libjpeg-turbo-win/jcarith.c:405-446 | what the decisions of a DC difference say: whether it is zero, its sign, whether its magnitude exceeds one, comparisons of the magnitude with the powers of two, its low bits; and in which bins |
| ArithDecisions.AcSays | libjpeg-turbo-win/jcarith.c:516-542 | the same for an AC magnitude |
| ArithDecisions.DcRoles | libjpeg-turbo-win/jcarith.c:405-446 | no bin serves two purposes nor lies outside DC_STAT_BINS exactly if the decoder can represent the magnitude |
| ArithDecisions.AcRoles | libjpeg-turbo-win/jcarith.c:516-542 | the same for AC magnitudes and AC_STAT_BINS, in both areas |
| ArithDecisions.KxSelects | libjpeg-turbo-win/jcarith.c:528-529 | the upper area is used for coefficients above Kx only and the lower one for the others only |
| ArithDecisions.BandTells | libjpeg-turbo-win/jcarith.c:489-548 | a band sends for each coefficient up to the last nonzero one whether it is nonzero, the signs of those that are, and one decision for each run and at the end whether the block ends |
| ArithDecisions.RefinementTells | libjpeg-turbo-win/jcarith.c:621-680 | a refinement scan sends for each coefficient up to the last nonzero one its next bit, or whether it is nonzero now with its sign; whether the block ends is sent from Kex on only |
| ArithDecisions.PredictionIs | libjpeg-turbo-win/jcarith.c:398-404 | an MCU leaves the DC value of the last block of each component as its prediction, and the category of that block's difference |
| ArithDecisions.TruncDcIs | libjpeg-turbo-win/jcarith.c:398-399 | the point transform of a DC value keeps the multiple of 2^Al just below it |
| ArithDecisions.TruncAcIs | libjpeg-turbo-win/jcarith.c:496-513 | that of an AC coefficient keeps the multiple of 2^Al next to it on the way to zero |
| ArithScan.ScanEncoder.CheckRestart | libjpeg-turbo-win/jcarith.c:377-386 | a restart marker is emitted exactly when the interval is used up; numbering, counters and DC state are reset as required |
| ArithScan.ScanEncoder.EncodeDcBlocks | libjpeg-turbo-win/jcarith.c:686-820 | an MCU is coded as the decisions of its blocks in order, each with its component's tables and prediction |
| ArithScan.ScanEncoder.EncodeDcRefine | libjpeg-turbo-win/jcarith.c:558-585 | one decision for each block: bit Al of the two's complement DC value |
| ArithScan.ScanDecoder.CheckRestart | libjpeg-turbo-win/jdarith.c:514-519 | the restart check of the decoder: when the interval is used up it enters the next segment with statistics, DC state and counters reset, exactly if the marker is the expected one |
| ArithScan.ScanDecoder.DecodeDcBlocks | libjpeg-turbo-win/jdarith.c:505-624 | rebuilds the DC values (and in a sequential scan all coefficients) of an MCU, failing exactly when some DC difference is out of range |
| ArithScan.ScanDecoder.DecodeDcRefine | libjpeg-turbo-win/jdarith.c:403-428 | sets bit Al of every DC value |
| ArithScan.SetBitIs | libjpeg-turbo-win/jdarith.c:419-425 | the bit is set, also if it is set already, and all others are as they were |
| ArithScan.ShortDc | libjpeg-turbo-win/jdarith.c:312-318 | a DC prediction kept modulo 2^16, scaled by 2^Al and stored as a JCOEF, is the transmitted value rounded down to a multiple of 2^Al |
| ArithWholeScan.EncodeScan | libjpeg-turbo-win/jcarith.c:828-904 | a whole scan, coded by the procedure that `start_pass` selects with any restart interval, is a sequence of stuffed segments with restart markers numbered modulo 8 between them; each segment lies in the final interval of its own MCUs' decisions, from the statistics that the restart before it left |
| ArithWholeScan.DecodeRestart | libjpeg-turbo-win/jdarith.c:199-230 | between two MCUs of such a scan the decoder enters the next segment exactly where the encoder began it, with the same statistics, and never meets a wrong marker |
| ArithWholeScan.DecodeScan | libjpeg-turbo-win/jdarith.c:632-742 | decoding these bytes into the blocks received before adds exactly the scan's precision to every MCU, and fails exactly if some DC difference is out of range |
| ArithWholeScan.RoundTrip | libjpeg-turbo-win/jcarith.c:139-904 | a whole scan there and back, sequential or any progressive one, for any MCU layout and any restart interval |
| ArithWholeScan.SequentialIsExact | libjpeg-turbo-win/jdarith.c:505-624 | what a sequential scan leaves is exactly the MCUs sent |
| ArithWholeScan.FixedInScan | libjpeg-turbo-win/jcarith.c:930-931 | so in every segment of every scan |
| ArithWholeScan.FirstInSegment | libjpeg-turbo-win/jcarith.c:343-346 | in front of every segment predictions and contexts are zero: a component's first block is coded by its own value |
| ArithRestarts.SegmentsAreIndependent | libjpeg-turbo-win/jcarith.c:319-357 | what restarts are for: every segment is coded as by a coder that knows nothing of the others, for every kind of scan |
| ArithRestarts.IntervalBegins | libjpeg-turbo-win/jcarith.c:383-390 | segment k begins behind k intervals of MCUs |
| ArithRestarts.MarkersInScan | libjpeg-turbo-win/jcarith.c:319-335 | the bytes of a scan contain no markers but RST0, RST1, ... in turn between its segments |
| ScanScript.CheckBand | libjpeg-turbo-win/jcmaster.c:260-274 | accepts one component's band exactly if each coefficient continues what was sent (Al = Ah - 1), and records the new Al for the band only |
| ScanScript.CheckProgression | libjpeg-turbo-win/jcmaster.c:230-275 | a progressive scan is accepted exactly if its band is sound and every component's coefficients continue what was sent |
| ScanScript.CheckSequential | libjpeg-turbo-win/jcmaster.c:277-288 | a sequential scan is accepted exactly if it sends whole blocks of components not sent before |
| ScanScript.ValidateScript | libjpeg-turbo-win/jcmaster.c:179-310 | the verdict is progressive exactly for scripts in which every scan continues the ones before it and all DC values are sent, and sequential exactly for scripts that send every component once |
| SimpleProgression.FillDcScans | libjpeg-turbo-win/jcparam.c:440-459 | interleaved DC scan for up to four components, one scan each beyond |
| SimpleProgression.FillScans | libjpeg-turbo-win/jcparam.c:422-437 | one scan for each component in order |
| SimpleProgression.Generate | libjpeg-turbo-win/jcparam.c:468-539 | exactly the announced number of scans is written through the advancing pointer, and they are the recommended script |
| SimpleProgression.SimpleScriptIsComplete | libjpeg-turbo-win/jcparam.c:468-539 | for every component count the generated script is an accepted progressive one, and every coefficient of every component ends with Al = 0 |
| SimpleProgression.CountMatches | libjpeg-turbo-win/jcparam.c:478-488 | the scan count used for the allocation is the number of scans written |
| ProgressiveReplay.ScanIsDecodable | libjpeg-turbo-win/jcmaster.c:259-275 | in an accepted script every scan finds all blocks of its components in the precision its decoder presumes |
| ProgressiveReplay.ScanIsRecorded | libjpeg-turbo-win/jcmaster.c:235-275 | and leaves every coefficient truncated at the Al recorded for it: DC rounded down, AC toward zero |
| ProgressiveReplay.ReceivedExactly | libjpeg-turbo-win/jcmaster.c:235-275 | hence exactly what was sent wherever the last Al is 0 |
| ProgressiveReplay.ContinuesIsNeeded | libjpeg-turbo-win/jcmaster.c:259-275 | and no scan is refused without need: its bit positions continue what was sent exactly if its decoder finds what it presumes in every block |
| ProgressiveReplay.PointTransformLimit | libjpeg-turbo-win/jcmaster.c:235-247 | Al is at most 10 exactly if 8-bit DC values stay in their range when they are sent down to that bit |
| ProgressiveTransmit.Scatter | libjpeg-turbo-win/jdcoefct.c:192-247 | the decoded blocks of all MCUs go each to its own place; components that are not in the scan stay as they were |
| ProgressiveTransmit.TransmitScan | libjpeg-turbo-win/jcarith.c:828-904 | one scan of the script sent and received, for any placement of its blocks in MCUs and any restart interval; fails exactly on a DC difference out of range |
| ProgressiveTransmit.TransmitScript | libjpeg-turbo-win/jcarith.c:368-678 | the whole chain as one method: for every accepted script and every image, any placement of its blocks in MCUs (with dummy blocks in interleaved ones) and any restart intervals, encoding and decoding all scans leaves each coefficient truncated at its last Al; it fails exactly if some scan has a DC difference out of range |
| ArithWholeScan.FullSwingFails | libjpeg-turbo-win/jdarith.c:289-297 | an input that fails: two blocks with DC values -0x8000 and 0x7FFF, as `jpeg_write_coefficients` may be given them |
| ProgressiveTransmit.SmallScriptFits | libjpeg-turbo-win/jdarith.c:289-297 | no DC difference is out of range while DC values are within half the range of a JCOEF |
| ProgressiveImage.PlanIsGood | libjpeg-turbo-win/jccoefct.c:341-395 | the MCU geometry of every scan of the controller gives each block of each MCU a place of its own in the padded arrays |
| ProgressiveImage.PlanIsComplete | libjpeg-turbo-win/jccoefct.c:341-395 | every block of the image is in every scan of its component; scans of one component send no others |
| ProgressiveImage.GatheredIsRaster | libjpeg-turbo-win/jccoefct.c:341-395 | the blocks taken from those places are the MCUs that the coefficient controller hands on, in raster order |
| ProgressiveImage.TransmitImage | libjpeg-turbo-win/jdcoefct.c:192-247 | from image to image: for every frame, every image and every accepted script, the controller's MCUs of all scans, coded and decoded, leave each block of the image in its place of the decoder's arrays with each coefficient truncated at its last Al; it fails exactly if a scan has an MCU of more than ten blocks or a DC difference out of range |
| HuffmanOptimal.NoCheaperCode | libjpeg-turbo-win/jchuff.c:941-1003 | Huffman's theorem: what repeated merging pays is at most the cost of any code lengths that satisfy Kraft's inequality |
| HuffmanTree.Deepen | libjpeg-turbo-win/jchuff.c:988-1002 | walking a chain of `others` deepens exactly the symbols of one tree and returns the chain's last symbol |
| HuffmanTree.FindSmallest | libjpeg-turbo-win/jchuff.c:958-978 | the search finds the smallest nonzero count, the last one among equals |
| HuffmanTree.MergePair | libjpeg-turbo-win/jchuff.c:984-1002 | merging two trees adds the counts, deepens the symbols of both and links the chains |
| HuffmanTree.BuildLengths | libjpeg-turbo-win/jchuff.c:941-1003 | the merging loop ends with code lengths of minimal cost that fill code space exactly; a length d needs a total count of at least Fib(d + 2) |
| HuffmanLimit.CountLengths | libjpeg-turbo-win/jchuff.c:1005-1015 | fails exactly if some length exceeds 32, and otherwise counts the symbols of each length without byte overflow |
| HuffmanLimit.LimitRound | libjpeg-turbo-win/jchuff.c:1029-1038 | one round takes two codes of the greatest length i and one of the next shortest length in use, leaves all other lengths alone, and leaves a full code, in exact UINT8 arithmetic |
| HuffmanLimit.LimitLengths | libjpeg-turbo-win/jchuff.c:1028-1039 | the loop is a sequence of such rounds and ends with a full code of the same number of symbols, no length above 16; it changes nothing if nothing was longer |
| HuffmanLimit.LimitingDecides | libjpeg-turbo-win/jchuff.c:1028-1044 | this leaves no choice: the optimal lengths determine the numbers of codes in the table |
| HuffmanLimit.DropPseudo | libjpeg-turbo-win/jchuff.c:1041-1044 | one code of the greatest length is given up: the Kraft sum is then 1 - 2^-L |
| HuffmanLimit.SortSymbols | libjpeg-turbo-win/jchuff.c:1049-1062 | the symbol list holds every counted real symbol once, in order of code length and then of symbol |
| HuffmanLimit.OverflowNeedsFib35 | libjpeg-turbo-win/jchuff.c:1010-1011 | JERR_HUFF_CLEN_OVERFLOW cannot happen while the total count is below Fib(35) |
| HuffmanLimit.FibCountsOverflow | libjpeg-turbo-win/jchuff.c:957-1003 | 33 symbols counted as often as the Fibonacci numbers from Fib(3) on, with the pseudo-symbol, give an optimal length of 33 |
| HuffmanLimit.OverflowOccurs | libjpeg-turbo-win/jchuff.c:1005-1012 | so JERR_HUFF_CLEN_OVERFLOW does happen, contrary to what the comment there reports of the standard |
| HuffmanLimit.GenOptimalTable | libjpeg-turbo-win/jchuff.c:932-1066 | from optimal lengths to a table: one code for each counted symbol, lengths at most 16, all code space used but one slot, the numbers of codes as section K.2 limits them; overflow exactly if some length that the merging loop computes exceeds 32; without limiting, the lengths are the optimal ones |
| HuffmanLengths.FrequentNotLonger | libjpeg-turbo-win/jchuff.c:957-1003 | a symbol counted more often than another never has the longer optimal code |
| HuffmanLengths.NoLongerThanOptimal | libjpeg-turbo-win/jchuff.c:1005-1062 | when nothing had to be limited, every real symbol gets a code no longer than its optimal length |
| HuffmanLengths.TableIsCheapest | libjpeg-turbo-win/jchuff.c:932-1066 | so the table costs no more than any code for the same counts that satisfies Kraft's inequality |
| DerivedTable.ListSizes | libjpeg-turbo-win/jchuff.c:278-289 | Figure C.1: lists the code lengths, and fails exactly if there are more than 256 |
| DerivedTable.AssignCodes | libjpeg-turbo-win/jchuff.c:291-309 | Figure C.2: canonical codes, and failure exactly if they would use up all of code space |
| DerivedTable.FillTables | libjpeg-turbo-win/jchuff.c:311-334 | codes and sizes by symbol; fails exactly on a symbol out of range or listed twice |
| DerivedTable.MakeDerivedTable | libjpeg-turbo-win/jchuff.c:249-335 | accepts a definition exactly if it has at most 256 codes that leave code space over, symbols in range and none listed twice, and then codes each symbol canonically |
| DerivedTable.NoAllOnes | libjpeg-turbo-win/jchuff.c:249-335 | no code of an accepted table is all ones |
| DerivedTable.PrefixFree | libjpeg-turbo-win/jchuff.c:249-335 | no code of an accepted table is a prefix of another symbol's code |
| DerivedTable.GeneratedIsAcceptable | libjpeg-turbo-win/jchuff.c:932-1066 | every table of the generator is accepted, for DC if the symbols counted are at most 15 |
| DerivedTable.CountedIsCoded | libjpeg-turbo-win/jchuff.c:932-1066 | and gives codes to exactly the symbols counted |
| HuffmanBits.MakeDecodingTable | libjpeg-turbo-win/jdhuff.c:141-259 | accepts a definition exactly under the decoder's checks, and then holds greatest code and offset for every length |
| HuffmanBits.SymbolDecodes | libjpeg-turbo-win/jdhuff.c:434-469 | Figure F.16 reads back the symbol whose canonical code comes next, consuming exactly its bits |
| HuffmanBits.BitsOfBytes | libjpeg-turbo-win/jchuff.c:371-452 | bit strings go into bytes with the most significant bit first |
| HuffmanBlock.DcDecodes | libjpeg-turbo-win/jdhuff.c:570-595 | the DC difference procedure of section F.2.2.1 inverts the encoder's symbol and extra bits |
| HuffmanBlock.AcDecodes | libjpeg-turbo-win/jdhuff.c:599-622 | the AC procedure of section F.2.2.2 inverts runs, ZRL and EOB, for every block |
| HuffmanBlock.ExtraOrders | libjpeg-turbo-win/jchuff.c:583-607 | T.81 Table F.1: the extra bits number the values of one size from zero on, in order |
| HuffmanBlock.AcSpan | libjpeg-turbo-win/jchuff.c:610-660 | the runs in the high half of the AC symbols lead to the last nonzero coefficient |
| HuffmanBlock.AcValues | libjpeg-turbo-win/jchuff.c:610-660 | their sizes, with the extra bits, give the nonzero coefficients in order |
| HuffmanBlock.AcEnds | libjpeg-turbo-win/jchuff.c:655-660 | an EOB comes behind them exactly if zeroes do |
| HuffmanWriter.FlushMaskFindsOnes | libjpeg-turbo-win/jchuff.c:381-421 | the mask test of FLUSH() is nonzero exactly if some byte of the word is 0xFF, for any word size |
| HuffmanWriter.FlushMask64 | libjpeg-turbo-win/jchuff.c:383-384 | the same for the 64-bit expression as written |
| HuffmanWriter.FlushMask32 | libjpeg-turbo-win/jchuff.c:408-409 | and for the 32-bit one |
| HuffmanWriter.Writer.EmitByte | libjpeg-turbo-win/jchuff.c:371-375 | one byte, stuffed if it is 0xFF, whatever speculative zero was there |
| HuffmanWriter.Writer.Flush | libjpeg-turbo-win/jchuff.c:383-421 | all bytes of the accumulator are added to the segment, most significant first, stuffed |
| HuffmanWriter.Writer.PutAndFlush | libjpeg-turbo-win/jchuff.c:428-433 | a code that straddles the accumulator is split: its high bits complete the word, its low bits start the next |
| HuffmanWriter.Writer.PutBits | libjpeg-turbo-win/jchuff.c:439-445 | the bit string sent grows by exactly the code, although the high bits of the accumulator are stale |
| HuffmanWriter.Writer.PutCode | libjpeg-turbo-win/jchuff.c:447-452 | code and extra bits are sent as one unit |
| HuffmanWriter.Writer.FlushBits | libjpeg-turbo-win/jchuff.c:497-542 | the bit string is completed to bytes by fewer than eight ones, and the accumulator is left empty |
| HuffmanWriter.Writer.EncodeOneBlock | libjpeg-turbo-win/jchuff.c:565-627 | the bits of the block's symbols are sent in order, and the local buffer of 512 bytes never overflows |
| HuffmanScan.HuffEncoder.EmitRestart | libjpeg-turbo-win/jchuff.c:661-678 | the segment is padded and finished and its marker written, or the destination suspends |
| HuffmanScan.HuffEncoder.EncodeMcu | libjpeg-turbo-win/jchuff.c:686-750 | one more MCU is encoded, after a restart marker exactly where one is due; on suspension nothing of the state has changed, and it happens exactly when a store was refused |
| HuffmanScan.HuffEncoder.FinishPass | libjpeg-turbo-win/jchuff.c:758-778 | the output is a sequence of padded segments covering all MCUs without gap, separated by restart markers numbered modulo 8 |
| HuffmanScan.PredictedBy | libjpeg-turbo-win/jchuff.c:707-735 | a block is predicted by the block of its component before it in the MCU, the first one by the MCU before |
| HuffmanScan.IntervalStartsFresh | libjpeg-turbo-win/jchuff.c:657-679 | predictions are zero at the start of the scan and of every restart interval, and only there |
| HuffmanScan.MarkersBetween | libjpeg-turbo-win/jchuff.c:657-679 | the finished segments contain no markers but RST0, RST1, ... in turn behind each |
| HuffmanRead.McuDecodes | libjpeg-turbo-win/jdhuff.c:550-651 | an MCU encoded with paired tables is decoded to itself, with the same DC state |
| HuffmanRead.SegmentDecodes | libjpeg-turbo-win/jdhuff.c:550-651 | unstuffing a finished segment and decoding returns its MCUs, with fewer than eight padding bits left |
| HuffmanStatistics.CountAc | libjpeg-turbo-win/jchuff.c:826-861 | the AC half: zero runs, ZRL and EOB are counted like they are emitted |
| HuffmanStatistics.HtestOneBlock | libjpeg-turbo-win/jchuff.c:798-862 | raises the counts of the block's own tables by exactly the multiset of symbols `encode_one_block` emits, and fails exactly on a coefficient out of range |
| HuffmanStatistics.Gatherer.EncodeMcu | libjpeg-turbo-win/jchuff.c:871-899 | with restarts, the counts are those of all symbols of all MCUs so far |
| HuffmanOptimize.GenerateTable | libjpeg-turbo-win/jchuff.c:1074-1108 | the generated table is accepted and codes exactly the symbols counted; there is none exactly if an optimal code length exceeds 32 |
| HuffmanOptimize.CountedBlocksAreCoded | libjpeg-turbo-win/jchuff.c:784-899 | so every symbol of the output pass has a code |
| HuffmanOptimize.FinishPassGather | libjpeg-turbo-win/jchuff.c:1074-1108 | one table for every table number in use, generated once; failure exactly if some symbol of one of them has an optimal code length above 32 |
| HuffmanOptimize.OptimizedScan | libjpeg-turbo-win/jchuff.c:565-1108 | end to end: for every in-range scan, statistics, tables, output and decoding give back every segment's MCUs |
| PassSchedule.Compressor.InitMaster | libjpeg-turbo-win/jcmaster.c:591-640 | accepts exactly sound parameters and scripts, and starts the pass counters |
| PassSchedule.Compressor.SelectScan | libjpeg-turbo-win/jcmaster.c:316-352 | the scan parameters in force are those of the scan, and an MCU of more than ten blocks is refused |
| PassSchedule.Compressor.PrepareMain | libjpeg-turbo-win/jcmaster.c:454-478 | first scan selected; headers are postponed exactly when statistics come first |
| PassSchedule.Compressor.PrepareOutput | libjpeg-turbo-win/jcmaster.c:498-518 | the headers of the scan are written before its data |
| PassSchedule.Compressor.PrepareStatistics | libjpeg-turbo-win/jcmaster.c:468-489 | a Huffman DC refinement scan skips its statistics pass, with the pass number corrected |
| PassSchedule.Compressor.PrepareForPass | libjpeg-turbo-win/jcmaster.c:449-523 | pass type, pass number and scan number stay consistent; it fails exactly on an oversized MCU or arithmetic coding with optimisation |
| PassSchedule.Compressor.PassStartup | libjpeg-turbo-win/jcmaster.c:537-543 | frame header and scan header are written, once |
| PassSchedule.Compressor.FinishPass | libjpeg-turbo-win/jcmaster.c:551-583 | the next pass type and scan number follow |
| PassSchedule.Compressor.StartCompress | libjpeg-turbo-win/jcapistd.c:39-59 | succeeds exactly for sound parameters, an acceptable script, a first MCU that fits and no arithmetic optimisation |
| PassSchedule.Compressor.WriteCoefficients | libjpeg-turbo-win/jctrans.c:43-57 | transcoding starts without a main pass, for exactly the acceptable parameters |
| PassSchedule.Compressor.WriteScanlines | libjpeg-turbo-win/jcapistd.c:78-112 | headers are written before the first line; no more lines are taken than the image has |
| PassSchedule.Compressor.FinishCompress | libjpeg-turbo-win/jcapimin.c:162-196 | the run reaches the last pass and stops, with exactly the prescribed events, or fails exactly if lines are missing, an MCU is too big or optimisation meets arithmetic coding |
| PassSchedule.EachScanOnce | libjpeg-turbo-win/jcmaster.c:449-583 | in these events every scan is announced once and coded once, in order, after one frame header |
| PassSchedule.HeaderPrecedesData | libjpeg-turbo-win/jcmaster.c:449-543 | the scan header directly before a scan's data is its own, and statistics are those of the scan announced next |
| PassSchedule.StatisticsPrecedeHeader | libjpeg-turbo-win/jcmaster.c:484-500 | in an optimised run statistics are gathered in front of the header of a scan exactly if it codes AC coefficients or codes DC values for the first time |
| PassSchedule.NoStatistics | libjpeg-turbo-win/jcmaster.c:484-500 | and never in a run without optimisation |
| PassSchedule.WholeImageIsAccepted | libjpeg-turbo-win/jcmaster.c:334-352 | the scan that stands in for a missing script is an acceptable sequential script |
| CoefController.ComponentGrid | libjpeg-turbo-win/jcmaster.c:356-429 | padded to whole MCUs, a component has exactly as many MCU columns and rows as the image |
| CoefController.GreatestFactors | libjpeg-turbo-win/jcmaster.c:122-136 | the greatest sampling factors are those of some component |
| CoefController.BlocksCover | libjpeg-turbo-win/jcmaster.c:138-160 | a component has just enough blocks of eight for its ceil(X * H / Hmax) samples, in both directions |
| CoefController.Controller.StartImcuRow | libjpeg-turbo-win/jccoefct.c:70-90 | counters are reset, and the row holds as many MCU rows as the scan needs |
| CoefController.Controller.BuildMcu | libjpeg-turbo-win/jccoefct.c:165-200 | the MCU built from the input is the padded image's MCU, dummy blocks included |
| CoefController.Controller.BlockRow | libjpeg-turbo-win/jccoefct.c:172-199 | one row of a component's blocks in an MCU: present blocks, then dummies with the DC value of the block before |
| CoefController.Controller.CompressData | libjpeg-turbo-win/jccoefct.c:141-218 | each MCU is accepted once, in raster order, under any pattern of refusals; progress is kept across suspensions |
| CoefController.Controller.FillComponent | libjpeg-turbo-win/jccoefct.c:258-320 | the virtual array row holds the padded image: real blocks, right-edge and bottom-edge dummies |
| CoefController.Controller.StoreRealRow | libjpeg-turbo-win/jccoefct.c:280-295 | a stored block row with its right-edge dummies; other rows unchanged |
| CoefController.Controller.StoreDummyRow | libjpeg-turbo-win/jccoefct.c:301-318 | a bottom row of dummies takes, MCU by MCU, the last DC value of the row above |
| CoefController.Controller.ReadMcu | libjpeg-turbo-win/jccoefct.c:368-379 | the MCU read from the arrays is the padded image's MCU |
| CoefController.Controller.CompressFirstPass | libjpeg-turbo-win/jccoefct.c:245-327 | fills the arrays and emits the scan, also when called again after a suspension |
| CoefController.Controller.CompressOutput | libjpeg-turbo-win/jccoefct.c:341-395 | emits any scan from the arrays; all indexes are inside the padded arrays |
| CoefController.SinglePass | libjpeg-turbo-win/jccoefct.c:141-218 | a whole single-pass run hands on the raster of MCUs of the padded image |
| CoefController.MultiPass | libjpeg-turbo-win/jccoefct.c:245-395 | a first pass and an output pass hand on the same raster as the single pass would, for any scans and refusals |
| DummyBlocks.RealBlock | libjpeg-turbo-win/jccoefct.c:165-200 | a block of an MCU that lies in the image is the image's block at its place |
| DummyBlocks.DummyRepeats | libjpeg-turbo-win/jccoefct.c:180-198 | any other has 63 zero AC coefficients and the DC value of the block before it in the MCU, which belongs to the same component |
| DummyBlocks.DummySends | libjpeg-turbo-win/jccoefct.c:286-319 | so nothing is sent of it but a zero difference and the end of the block |
| Quantization.Flss | libjpeg-turbo-win/jcdctmgr.c:83-110 | binary search for the highest bit set |
| Quantization.ReciprocalWorks | libjpeg-turbo-win/jcdctmgr.c:192-208 | for every divisor and every magnitude, multiplying with the adjusted reciprocal and shifting is division with rounding, without overflow |
| Quantization.ScaleFits | libjpeg-turbo-win/jcdctmgr.c:212-220 | the two-step SIMD form gives the same quotient exactly if the shift exceeds 16 bits |
| Quantization.ComputeReciprocal | libjpeg-turbo-win/jcdctmgr.c:173-221 | fills the four entries of one coefficient with such values; in the 16-bit build the result is 1 exactly if the scale entry works for all magnitudes |
| Quantization.DivisorIsExact | libjpeg-turbo-win/jcdctmgr.c:270-274 | the divisor, cut to UINT16, is eight times the quantisation step exactly if the step is below 8192, and zero exactly if the step is a multiple of 8192 |
| Quantization.FillDivisors | libjpeg-turbo-win/jcdctmgr.c:266-274 | every coefficient gets the entries of its own quantisation step; a division by zero occurs exactly if a step is a multiple of 8192; the SIMD quantiser is kept exactly if it works for all 64 |
| Quantization.Quantize | libjpeg-turbo-win/jcdctmgr.c:408-438 | each coefficient becomes sign(x) * floor((\|x\| + floor(d/2)) / d) |
| Quantization.RoundedIsNearest | libjpeg-turbo-win/jcdctmgr.c:408-438 | the quantised value times the divisor is nearest to the coefficient, with halves away from zero |
| Quantization.ConversionsAre | libjpeg-turbo-win/jcdctmgr.c:192-221 | conversions to UINT16, DCTELEM and JCOEF keep the low bits and the range of the type |
| Des.DesInverse | JavaViewer/DesCipher.java:235-313 | the DES function with the reversed schedule inverts itself |
| DesCipher.DesCipher.Deskey | JavaViewer/DesCipher.java:113-160 | the internal keys are the cooked key pairs, in reverse order for decryption |
| DesCipher.DesCipher.Cookey | JavaViewer/DesCipher.java:162-183 | each pair of raw keys becomes the pair used by its round |
| DesCipher.DesCipher.DesInts | JavaViewer/DesCipher.java:235-313 | the step-by-step code computes the DES function, in place or not |
| DesCipher.DesCipher.SquashBytesToInts | JavaViewer/DesCipher.java:503-511 | two words from eight bytes, most significant byte first |
| DesCipher.DesCipher.SpreadIntsToBytes | JavaViewer/DesCipher.java:514-523 | eight bytes from two words; other bytes unchanged |
| DesCipher.DesCipher.Encrypt | JavaViewer/DesCipher.java:191-196 | one block through DES, in place or not, other bytes unchanged |
| DesCipher.DesCipher.Decrypt | JavaViewer/DesCipher.java:199-204 | one block through DES with the reversed schedule |
| DesCipher.BlockInverse | JavaViewer/DesCipher.java:191-204 | decrypting a block undoes encrypting it, for every key |
| DesStandard.InitialPermutation | JavaViewer/DesCipher.java:241-264 | the opening network is the permutation IP of FIPS 46-3 on the bits of the block's bytes, with both halves rotated by one bit |
| DesStandard.FirstChoice | JavaViewer/DesCipher.java:330-339 | the table of PC-1 is the standard's, and never takes the high bit of a byte |
| DesStandard.SecondChoice | JavaViewer/DesCipher.java:344-353 | PC-2 takes 24 bits from each half |
| DesStandard.Rotations | JavaViewer/DesCipher.java:340-343 | the rotations add up to one turn, by one bit in rounds 1, 2, 9 and 16 and by two in the others |
| DesStandard.IndexIs | JavaViewer/DesCipher.java:266-281 | the expansion E and the choice PC-2: each S-box looks up six adjacent bits of the right half, each exclusive-or its key bit |
| DesStandard.ParityIgnored | JavaViewer/DesCipher.java:108-158 | the high bit of every key byte is ignored |
| DesStandard.Complementation | JavaViewer/DesCipher.java:182-315 | complementing key and block complements the result, in either direction and for any S-boxes |
| DesCipher.DesCipher.EncryptText | JavaViewer/DesCipher.java:207-219 | cipher block chaining over the whole text, in place or not |
| DesCipher.DesCipher.DecryptText | JavaViewer/DesCipher.java:221-233 | from the last block to the first, so that chaining works in place |
| DesCipher.RoundTrip | JavaViewer/DesCipher.java:207-233 | for every key, initial vector and text of whole blocks, decryption after encryption restores the text, in place or not |
| SessionRecorder.PaddingFits | JavaViewer/SessionRecorder.java:165-172 | the padded length stays inside the buffer for every fill exactly if the buffer size is a multiple of four |
| SessionRecorder.Recorder.Flush | JavaViewer/SessionRecorder.java:165-178 | one record of the buffered bytes with the current time offset is added; it fails exactly when the padding would leave the buffer |
| SessionRecorder.Recorder.PrepareWriting | JavaViewer/SessionRecorder.java:185-190 | afterwards there is room for four bytes and a time offset is set |
| SessionRecorder.Recorder.WriteHeader | JavaViewer/SessionRecorder.java:72-74 | the file starts with the twelve bytes of the version string |
| SessionRecorder.Recorder.WriteByte | JavaViewer/SessionRecorder.java:80-83 | the bytes written grow by the low byte |
| SessionRecorder.Recorder.WriteShortBe | JavaViewer/SessionRecorder.java:89-93 | and by the two low bytes in network order |
| SessionRecorder.Recorder.WriteShortLe | JavaViewer/SessionRecorder.java:112-116 | or in little-endian order |
| SessionRecorder.Recorder.WriteIntBe | JavaViewer/SessionRecorder.java:99-106 | the bytes written grow by the value in network order |
| SessionRecorder.Recorder.WriteIntLe | JavaViewer/SessionRecorder.java:122-129 | and in little-endian order |
| SessionRecorder.Recorder.Write | JavaViewer/SessionRecorder.java:135-152 | the loop ends with exactly the given bytes added, the buffer never overflowing, all new records stamped with the offset of the first write |
| SessionRecorder.Recorder.Close | JavaViewer/SessionRecorder.java:56-66 | parsing the file gives back records whose payloads are exactly the bytes written |
| SessionRecorder.FileParses | JavaViewer/SessionRecorder.java:165-178 | parsing length, padded data and timestamp inverts the framing for every list of records |
| SessionRecorder.NetworkOrder | JavaViewer/SessionRecorder.java:165-170 | lengths and timestamps are written with the most significant byte first |
| SessionRecorder.RecordLayout | JavaViewer/SessionRecorder.java:165-170 | a record is the length of its data, the data, up to three bytes that fill it up to a multiple of four, and the time |
| SessionRecorder.StampsExact | JavaViewer/SessionRecorder.java:165-190 | all timestamps of a recording are its time offsets exactly if the last record was begun less than 2^31 ms after the start |
| SessionRecorder.StampsMinusOne | JavaViewer/SessionRecorder.java:165-172 | no timestamp is -1 exactly if no record was begun in the last millisecond of a period of 2^32 |
| SessionRecorder.StampsNeverFall | JavaViewer/SessionRecorder.java:165-172 | timestamps never fall exactly if no record lies beyond the point where the 32-bit clock next wraps after the first record, unless two records in succession are 2^32 ms or more apart; they do not fall if none does, even then |
| SessionRecorder.StampsInOrder | JavaViewer/SessionRecorder.java:165-190 | so in a recording shorter than 2^31 ms no timestamp is -1 and none falls |
| SessionRecorder.StampsFail | JavaViewer/SessionRecorder.java:165-190 | a recording of two bytes whose second timestamp is -1 |
| SessionRecorder.UnalignedFails | JavaViewer/SessionRecorder.java:165-170 | with any other buffer size, filling the buffer and flushing fails |
| VncCanvas.GradientInverse | JavaViewer/VncCanvas.java:1241-1290 | decoding inverts the clamped left + up - upper left filter modulo 256, for every picture |
| VncCanvas.DecodingInverse | JavaViewer/VncCanvas.java:1241-1290 | and the filter inverts decoding |
| VncCanvas.ClampIsNearest | JavaViewer/VncCanvas.java:1267-1271 | the prediction is clamped to the nearest byte |
| VncCanvas.EvenGradient | JavaViewer/VncCanvas.java:1241-1290 | nothing is left to send where a colour changes evenly in both directions |
| VncCanvas.RgbParts | JavaViewer/VncCanvas.java:1258-1259 | a pixel holds red, green and blue in this order, red in the high byte |
| VncCanvas.MonoByte | JavaViewer/VncCanvas.java:1185-1235 | eight pixels of a two-colour rectangle spell their byte, the first one its most significant bit |
| VncCanvas.Canvas.GradientPixel | JavaViewer/VncCanvas.java:1252-1276 | the three colours of one pixel from their neighbours |
| VncCanvas.Canvas.DecodeGradientData | JavaViewer/VncCanvas.java:1241-1290 | the rectangle holds the decoded pixels and every other pixel is unchanged |
| VncCanvas.Canvas.DecodeMonoData | JavaViewer/VncCanvas.java:1185-1235 | each pixel of the rectangle is the palette entry of its bit, and every other pixel is unchanged |
| VncCanvas.HandleHextileRect | JavaViewer/VncCanvas.java:698-719 | the tiles, at most 16 by 16, cover the rectangle exactly once |

## Left out

- SIMD code, the DCT kernels, colour conversion, downsampling and the main buffer controller: the coefficient controller takes quantised blocks as given.
- `jcphuff.c`, the progressive Huffman coder, is not part of this model; progressive scans are proved for the arithmetic coder.
- The memory manager, virtual-array paging, progress monitors, error messages and marker contents (`jcmarker.c`) are not modelled.
- The zigzag permutation: blocks are sequences in zigzag order on both sides.
- The lookahead tables and the bit reader of `jdhuff.c`: symbols are decoded bit by bit as in Figure F.16, from the unstuffed bits of a segment.
- Resynchronisation after a damaged or missing restart marker (`resync_to_restart`): a wrong marker is a failure here.
- The counters `sc` and `zc` and the restart counters are unbounded naturals; the source keeps them in 32-bit ints.
- Symbols without a code: the source emits zero bits for them silently, so coding requires a code for every symbol, and two-pass coding is shown to provide it.
- ArithEncoder.Encoder.Encode: the destination is assumed to accept every byte, as the source demands of it for arithmetic coding.
- ArithRoundTrip.RoundTrip: one segment; whole scans with restarts are in `ArithWholeScan`.
- ArithWholeScan.DecodeScan: a scan with a DC difference out of range is a failure; the source warns and decodes nothing more of its segment.
- ProgressiveTransmit.TransmitScript: which block goes where is given by a plan for each scan; `ProgressiveImage` takes it from the coefficient controller.
- ProgressiveImage.TransmitImage: a restart interval is given for each scan, and the decoder's controller stores blocks by their place, without suspension.
- ScanScript.ValidateScript: the image dimensions and the transcoding options that share its file are not part of it.
- HuffmanWriter.Writer.EncodeOneBlock: only the branch of LOAD_BUFFER with the local buffer, not the one that writes to a destination with at least 512 bytes free; the loop over coefficients stands for the unrolled macro, and the two loops of `Flush` for unrolled stores.
- HuffmanScan.HuffEncoder.EncodeMcu: a destination is a number of stores it accepts before it suspends.
- HuffmanOptimize.OptimizedScan: every component occurs in the MCU.
- HuffmanLimit.GenOptimalTable: frequencies are unbounded integers with the total limited as the source assumes, and at most 254 real symbols are counted.
- HuffmanLengths.TableIsCheapest: states optimality when no optimal length exceeds 16; the lengths that T.81 section K.2 produces beyond that are only shown to be a full code in the order of the optimal lengths.
- PassSchedule.Compressor.SelectScan: MCU geometry and `restart_in_rows` of `per_scan_setup` are not computed there; the geometry is in `CoefController`.
- PassSchedule.Compressor.WriteScanlines: how many lines the main controller takes is a parameter.
- CoefController.Controller.CompressOutput: pointers into the virtual arrays are modelled as block values.
- Quantization.FillDivisors: only the divisors of JDCT_ISLOW; those of JDCT_IFAST and JDCT_FLOAT carry scale factors.
- Quantization.Quantize: the 32-bit build stores the quotient in a 16-bit JCOEF, which is stated with its truncation.
- SessionRecorder.Recorder.Write: after a failed write the state is unspecified; buffer sizes below 4 and above 0x7ffffffc are excluded.
- DesCipher.DesCipher.DesInts: machine words are sequences of 32 bits, and the S-boxes (with the permutation P that is part of them) are parameters, so that nothing is said about their contents.
- VncCanvas.Canvas.DecodeGradientData: a rectangle of width 0 is excluded, since the source would read outside its row buffer.
- Graphical user interface, sockets, file transfer, zlib and JPEG decoding of the viewer are not modelled.
