# Verified models of the driver algorithms

Dafny models of the algorithms behind a collection of embedded drivers, with proofs of what each of them promises.
Peripherals appear only as what they do to the algorithm: a flash cell that can be programmed once, a stream of
edge times, three interrupts in any order, bytes in slices of any size.  Check everything with
`dafny verify dfyconfig.toml`.

| file | models |
|---|---|
| EepromLog.dfy, EepromFlash.dfy | the flash store of `eeprom_l4.c`: a log of records, and the part that holds it |
| DshotErps.dfy, DshotLine.dfy, EdgeRuns.dfy, RpmCapture.dfy | bidirectional DShot telemetry: period packing, line code, edges, and the way back |
| Bdma.dfy | delivery from a circular DMA buffer by half, full and timeout interrupts |
| Fnmatch.dfy, FnmatchPatterns.dfy | the glob matcher, and what patterns match from their text on |
| ChannelBits.dfy, ChannelPacking.dfy, Sbus.dfy, Fport.dfy | the S.Bus and F.Port receivers |
| DshotQuery.dfy | the two threads of serial DShot telemetry |
| DshotWave.dfy | DShot commands as pulse widths, and the decoder of such pulses |
| Fletcher.dfy, ModbusCrc.dfy, Hsv.dfy | three computations that avoid division, and what they compute |
| Division.dfy | facts about quotients the others share |

Code that works in place is a class or a method with loops, proved against functions; what the repository promises
is then proved about those functions.  Where the code does not keep a promise, the exact condition under which it
does is stated instead:

* a store into the flash log may be refused although a wipe would have made room, because the guard that decides on
  the wipe leaves out the 16-byte header (`StoreSucceedsIff`, `RefusedWithoutWipeExample`);
* a wipe loses a record that was stored with length 0 (`WipePreservesIff`, `WipeLosesEmptyRecord`, and over whole
  runs `RunRefinesMap`);
* periods 65536 to 66047 do not fit the three-bit exponent of a telemetry packet (`PackedAccurateIff`,
  `PackedMonotoneIff`, `PackedInHole`);
* a timeout served while the full interrupt is pending is ignored exactly when the controller's place in the buffer
  is not past the reader's, and hands out overwritten cells otherwise (`LateTimeoutIgnoredIff`,
  `LateTimeoutHandsOutOverwritten`);
* `fnmatch` forgets `FNM_PERIOD` behind a star, which matters for exactly the patterns that `PeriodHonouredIff`
  describes (`PeriodForgottenBehindStar`);
* the F.Port machine checks its whole buffer, however few bytes came, and stores every flag but the first while it
  waits for a length: whether a frame is delivered is `DeliveredIff`, for any number of flags and any bytes up to the
  next one (`BareLengthRepeatsMessage`, `NeverSentFrame`), and whether anything is stored behind the buffer are
  `SegmentOverrunsIff`, `WrongLengthOverrunsIff` and `FlagsOverrunIff`; a whole message behind two flags is already
  too much;
* an F.Port machine that takes a closing flag for an opening one gets back into step exactly when a message comes
  whose last byte had to be escaped (`BackInStepIff`);
* the length word overflows the Fletcher sums exactly for the lengths that `LengthFits` excludes, the first of which
  is 65026 (`ChecksumIff`, `FitsUpTo65025`, `TooLongMessage`);
* a DShot capture that begins late loses bits, an inverted check sum that is cut off entirely may pass, and the error
  value of the decoder is also a valid packet (`CommandRoundTrip`, `LateGapMisleads`, `BadFrameIsAPacket`).

## Model

| member | source | states |
|---|---|---|
| EepromLog.RunRefinesMap | eeprom_l4.c:285-464 | for every run of stores, wipes and erases of an erased part: a type is in the log exactly if some store of it succeeded with no later successful store of it and no later erase, and either its record is not empty or no wipe, explicit or inside a store, came later; then the log holds that store's bytes |
| EepromLog.RunWithoutEmptyRecords | eeprom_l4.c:285-464 | if no empty record is stored, wipes and refused stores change nothing at all |
| EepromLog.KeptAfter | eeprom_l4.c:416-464 | what one more operation does to the stores that count |
| EepromLog.RunIsValid | eeprom_l4.c:285-464 | every log a run can reach fits the part with room for the erased header that ends the chain |
| EepromLog.RunNonEmpty | eeprom_l4.c:416-464 | a run that stores no empty record never has one as a current record |
| EepromLog.StepMeaning | eeprom_l4.c:285-464 | one operation on the map the log stands for: a successful store overrides, an erase empties, a wipe drops the empty records, and nothing else changes it |
| EepromLog.StoreMeaning | eeprom_l4.c:302-354 | any store, also of empty records: the result is PROG_OK or SECTOR_FULL_ERR, and the map afterwards is the old one, without empty records if the store had to wipe, overridden on success |
| EepromLog.StoreSucceedsIff | eeprom_l4.c:302-308 | a record that would fit after a wipe is refused exactly when the free space lies between its length plus 8 and its whole size |
| EepromLog.RefusedWithoutWipeExample | eeprom_l4.c:302-308 | a concrete log and store for which that happens |
| EepromLog.WipeContents | eeprom_l4.c:416-464 | a wipe keeps the map but for records of length 0 |
| EepromLog.WipePreservesIff | eeprom_l4.c:423-425 | a wipe leaves the map unchanged if and only if no current record is empty |
| EepromLog.WipeLosesEmptyRecord | eeprom_l4.c:423-425 | a run that stores an empty record and loses it by a wipe |
| EepromLog.WipeNeverGrows | eeprom_l4.c:416-464 | the records a wipe writes back take no more room than the log they come from |
| EepromLog.LiveSizeAfterStore | eeprom_l4.c:285-354 | a store adds at most its own rounded size to the live records |
| EepromLog.RestoreFits | eeprom_l4.c:302-308 | while a wipe writes the live records back, in whatever reachable log, the guard never fires and no store is refused |
| EepromLog.LiveInOrder | eeprom_l4.c:444-452 | a wipe writes each non-empty current record once, in the order of the types |
| EepromLog.StoreKeepsValid | eeprom_l4.c:285-354 | a store, with or without a wipe inside, leaves a log that fits |
| EepromLog.WipeKeepsValid | eeprom_l4.c:416-464 | so does a wipe |
| EepromLog.ContentsIsLast | eeprom_l4.c:358-392 | the map holds a type exactly if the last-record walk finds one, and then that record's bytes |
| EepromFlash.RecordFields | eeprom_l4.c:323-331 | the four header words and the data read back from the image of a record |
| EepromFlash.WordIsLittleEndian | eeprom_l4.c:323-331 | words are stored lowest byte first |
| EepromFlash.HeaderAt | eeprom_l4.c:310-340 | the walk reads at every header the address of the next one, which is its own plus the rounded record size, and its type, length, RAM address and data |
| EepromFlash.HoldsAfterAppend | eeprom_l4.c:323-340 | programming a padded record behind the last one extends the chain by it and leaves the others as they were |
| EepromFlash.Partition.constructor | eeprom_l4.c:285-289 | an erased part is an empty log |
| EepromFlash.Partition.ProgramDword | eeprom_l4.c:213-231 | a double word is programmed exactly if it was not since the last erase |
| EepromFlash.Partition.ProgramAll | eeprom_l4.c:194-234 | the first loop succeeds exactly if all its double words are erased, and then they hold the image, zero-padded, and nothing else changed; otherwise it has written what comes before the first double word that is not |
| EepromFlash.Partition.VerifyAll | eeprom_l4.c:247-277 | the second loop answers whether the cells equal the padded image |
| EepromFlash.Partition.MemcopyToFlash | eeprom_l4.c:158-280 | when each result is returned; after PROG_OK the cells hold exactly the RAM bytes, padded; a refused copy changes nothing; after PROGRAM_ERR they hold the image up to the first double word that was not erased; VERIFY_READ_ERROR cannot occur |
| EepromFlash.Partition.FindTail | eeprom_l4.c:310-316 | the chain walk ends at the erased header behind the last record |
| EepromFlash.Partition.FindLast | eeprom_l4.c:361-384 | the walk finds the last record of a type, or none |
| EepromFlash.Partition.EepromStatus | eeprom_l4.c:497-513 | the free space is the size of the part less the rounded sizes of all records |
| EepromFlash.Partition.EepromGetLenOfType | eeprom_l4.c:467-493 | the length of the current record of a type, 0 if there is none |
| EepromFlash.Partition.EepromLoad | eeprom_l4.c:358-408 | NOT_FOUND and SIZES_DIFFER exactly when the map says so, and then the buffer is untouched; otherwise the current bytes, and PROG_OK exactly if they were stored from the same address |
| EepromFlash.Partition.AppendRecord | eeprom_l4.c:310-354 | a record that ends below the end of the part is appended to the chain, any other refused |
| EepromFlash.Partition.EepromStore | eeprom_l4.c:285-354 | the method on flash cells computes the store on logs, keeps the chain well formed, and its mutual recursion with the wipe ends |
| EepromFlash.Partition.LoadLive | eeprom_l4.c:421-441 | the first phase of a wipe copies the current record of every type and cannot fail |
| EepromFlash.Partition.StoreLive | eeprom_l4.c:444-452 | the last phase puts the live records back, each store succeeding without another wipe |
| EepromFlash.Partition.EepromWipe | eeprom_l4.c:416-464 | the method computes the wipe on logs and returns PROG_OK |
| EepromFlash.Partition.RunOps | eeprom_l4.c:285-464 | any list of operations on an erased part gives the log and the results of the run |
| EepromFlash.Partition.RunAndLoad | eeprom_l4.c:285-464 | a load after any run yields the bytes of the store of its type that counts, SIZES_DIFFER exactly if they are not as many as asked for, and NOT_FOUND exactly if there is no such store |
| DshotErps.PacketFields | dshot_erps.h:84-89 | the packet fields survive assembly with the check sum, which checks; when a packet passes for extended telemetry |
| DshotErps.PacketLayout | dshot_erps.h:84-89 | where exponent, mantissa and check sum lie in the 16 bits, and which two conditions on them mark an extended-telemetry frame |
| DshotErps.CrcLaw | dshot_erps.c:104-120 | the check succeeds exactly when the exclusive or of the four nibbles is all ones, and assembling a packet keeps its payload and makes it so |
| DshotErps.NibbleErrorRefused | dshot_erps.c:104-107 | damage inside one nibble of a good packet is always refused |
| DshotErps.RpmMeaning | dshot_erps.c:72-95 | a packet reads as 0 with all payload bits set, as the largest value with period 0, and as 60000000 divided by its period otherwise |
| DshotErps.RpmReadBack | dshot_erps.c:57-95 | for every speed, what its packet reads as: nothing below it and less than 1/255 above what its period allows up to 65407, 0 for longer periods but for the hole |
| DshotErps.PackedError | dshot_erps.c:129-142 | a packed period below 65536 loses less than one unit of its last place, and a mantissa with a positive exponent is at least 256 |
| DshotErps.PackedAccurateIff | dshot_erps.c:129-142 | the relative error is below 1/256 exactly for the periods below 65536 |
| DshotErps.PackedInHole | dshot_erps.c:134-138 | periods 65536 to 66047 come out as their distance from 65536 |
| DshotErps.PackedSaturates | dshot_erps.c:134-136 | longer periods come out as 511 times 128 |
| DshotErps.PackedMonotoneIff | dshot_erps.c:129-142 | packing keeps the order of two periods except in exactly one situation, with the longer in that hole |
| DshotErps.PackedIdempotent | dshot_erps.c:129-142 | packing what a packet stands for gives the same packet, for every period |
| DshotErps.PackedIsNeverEdt | dshot_erps.h:84-89 | the check sum of every packed period is right and none is classified as extended telemetry |
| DshotLine.GreyRoundTrip | dshot_erps.c:151-171 | level decoding undoes level coding for every 32-bit word |
| DshotLine.GcrRule | dshot_erps.c:8-19 | the sixteen code words by a rule that does not list them |
| DshotLine.GcrSymbols | dshot_erps.c:180-190 | each symbol of the code is that of the nibble at its own place |
| DshotLine.GcrRoundTrip | dshot_erps.c:180-214 | every 16-bit word survives GCR coding, in 20 bits and valid symbols only |
| DshotLine.GcrUnique | dshot_erps.c:199-214 | a word of valid symbols is the code of what it decodes to |
| DshotLine.GcrEncodeLoop | dshot_erps.c:180-190 | the loop over an accumulator computes the code |
| DshotLine.GcrDecodeLoop | dshot_erps.c:199-214 | the loop computes the decoded word, and 0 if any symbol is invalid |
| DshotLine.FrameRoundTrip | dshot_erps.c:223-238 | a packet comes back from its frame, which has 20 bits |
| DshotLine.AcceptedIff | dshot_erps.c:104-107 | a frame passes the check exactly if its transitions are the code of a packet with the right check sum, which is then the one delivered; a frame with an invalid symbol never passes; passing means that the nibbles of the packet add up to all ones |
| DshotLine.RefusedCaptureFails | dshot_rpmCapture.c:388-410 | the 0 that stands for a refused capture never passes the check |
| DshotLine.Erps.SetFromFrame | dshot_erps.c:44-49 | the driver object then holds the frame and the packet it decodes to |
| DshotLine.Erps.SetFromRpm | dshot_erps.c:57-62 | the driver object then holds the packet of the period and its frame; the packet passes the check, its nibbles adding up to all ones, is no extended telemetry, and is what the frame decodes to |
| EdgeRuns.IntervalRecovered | dshot_rpmCapture.c:401-406 | an interval of one to three bit times, off by up to half of one, and wrapped modulo 65536, is read as that number |
| EdgeRuns.EdgesListed | dshot_rpmCapture.c:400-416 | the edges of a line are all its level changes, in order |
| EdgeRuns.LevelsFromEdges | dshot_rpmCapture.c:411-419 | the distances between the edges, and idle high behind the last, give the levels back |
| EdgeRuns.RunsRecovered | dshot_rpmCapture.c:400-406 | a jittery capture of edges at most three bits apart yields their distances |
| RpmCapture.AppendRunIsWord | dshot_rpmCapture.c:412-413 | shift and mask append a run of equal bits |
| RpmCapture.WordBit | dshot_rpmCapture.c:388-420 | the word built from the levels has the first of them highest |
| RpmCapture.LevelsAreBits | dshot_rpmCapture.c:388-420 | the levels of a frame are its 21 bits, bit 20 first |
| RpmCapture.ProcessErpsDmaBuffer | dshot_rpmCapture.c:388-420 | the loop returns the frame of the runs it reads, and 0 exactly for the captures it has to refuse: too short or too long, an interval that is not one to three bit times, or more than 21 in all |
| RpmCapture.RefusedIff | dshot_rpmCapture.c:388-420 | a capture is refused exactly if it has less than 8 or more than 18 edges, an interval outside one to three bit times, or intervals of more than 21 bit times together |
| RpmCapture.FrameIsNotZero | dshot_rpmCapture.c:417-419 | no accepted capture is read as 0 |
| RpmCapture.WindowOfFrame | dshot_erps.c:8-19 | no frame of valid symbols has three bit times in a row without a level change |
| RpmCapture.EdgeCount | dshot_rpmCapture.c:391-394 | such a frame has between 9 and 18 edges, so no capture of it is refused for its length |
| RpmCapture.EdgesClose | dshot_rpmCapture.c:404-410 | and they are one to three bit times apart |
| RpmCapture.FrameRecovered | dshot_rpmCapture.c:388-420 | every frame of valid symbols is rebuilt from every capture within the tolerance |
| RpmCapture.TelemetryRoundTrip | dshot_rpmCapture.c:388-420 | end to end: every packet comes back from the edge times of its frame, each interval off by up to half a bit and the counter wrapping |
| Bdma.ServeKeepsExactlyOnce | hal_stm32_bdma.h:488-531 | one service by any of the three interrupts keeps the pieces handed out non-empty, contiguous, inside a lap, and equal to what was consumed |
| Bdma.FullEndsLap | hal_stm32_bdma.h:507-511 | at a full interrupt the pieces add up to the end of the lap, whatever came before |
| Bdma.HalfReachesMiddle | hal_stm32_bdma.h:499-511 | a half interrupt with no full one pending hands out one piece that ends at the middle of the buffer, or nothing if the reader is there |
| Bdma.FullReachesEnd | hal_stm32_bdma.h:499-511 | a full interrupt, half pending or not, hands out one piece that ends with the buffer, starts again at its beginning and clears both flags |
| Bdma.InterruptsRaised | hal_stm32_bdma.c:552-558 | when nothing is served, the half interrupt is pending from half of the buffer on, the full one from the whole of it |
| Bdma.PassedIsAnnounced | hal_stm32_bdma.h:499-530 | the cells passed start where the reader stands and are as many as the piece that is handed out |
| Bdma.AnyInterleavingExactlyOnce | hal_stm32_bdma.h:488-531 | for every sequence of services, with any counter values, every element is handed out exactly once and in order |
| Bdma.StepIsSound | hal_stm32_bdma.h:513-524 | with the controller writing in between and not overtaking the reader, every step keeps the invariant and hands out only elements still in the buffer |
| Bdma.EveryRunIsSound | hal_stm32_bdma.h:488-531 | so does every run, at each of its steps |
| Bdma.StepPassesStream | hal_stm32_bdma.h:528-530 | what a sound step passes to the callback, read from the cells at that moment, are the elements behind those consumed |
| Bdma.EveryRunPassesStream | hal_stm32_bdma.h:488-531 | end to end: in every run without overrun all that the callback was given, put together, is the stream written, up to the reading position |
| Bdma.CellHoldsIff | hal_stm32_bdma.h:490-496 | a cell still holds an element exactly until a buffer length more has been written |
| Bdma.IntactPieceReadsBack | hal_stm32_bdma.h:528-530 | the elements of an intact piece are what the callback reads at their cells |
| Bdma.TimeoutCatchesUp | hal_stm32_bdma.h:513-524 | a timeout with no full event pending hands out all that was written |
| Bdma.LateTimeoutIgnoredIff | hal_stm32_bdma.h:517-523 | with a full event pending, however many laps late, a timeout is ignored exactly if the controller's place is not past the read index, and otherwise hands out overwritten data; with less than two laps pending that place is not past it exactly if the reader has not been overtaken |
| Bdma.LateTimeoutHandsOutOverwritten | hal_stm32_bdma.h:517-523 | for every buffer of two or more elements, a run from the start in which that happens |
| Bdma.BdmaDriver.StartTransfer | hal_stm32_bdma.c:148-192 | a transfer starts active at the beginning of a lap |
| Bdma.BdmaDriver.CallEndCb | hal_stm32_bdma.h:488-531 | the pointer arithmetic computes the service on indices, and the callback gets the address and length of the piece, or is not called |
| Bdma.BdmaDriver.CallsMean | hal_stm32_bdma.h:528-530 | the callback gets the address of the first element of the piece and its count, and is not called for an empty one |
| Bdma.BdmaDriver.MovePointer | hal_stm32_bdma.h:499-526 | where each of the callers leaves the pointer |
| Bdma.BdmaDriver.ServeInterrupt | hal_stm32_bdma.c:512-558 | which service each combination of flags and state gets: full wins over half, an error serves nothing, a spurious interrupt does nothing; with the address and count the callback gets and where the driver stands afterwards |
| Bdma.BdmaDriver.ServeError | hal_stm32_bdma.h:619-639 | an error stops the stream, and the state is READY unless the error callback has left another one |
| Bdma.BdmaDriver.ServeTimeout | hal_stm32_bdma.c:566-576 | the timeout serves with the counter it reads: the callback gets the elements up to where the counter stands and the driver stands there, or neither happens if the counter has rolled over |
| Fnmatch.Fnmatch | fnmatch.c:58-161 | returns 0 if and only if the tokens of the pattern match the string, for every combination of flags; it terminates |
| Fnmatch.QuotedReadsAs | fnmatch.c:139-158 | under any flags that allow quoting, a fully quoted string matches exactly what equals it character by character, letters of either case with FNM_CASEFOLD, and with FNM_LEADING_DIR such a string followed by a slash |
| Fnmatch.PlainReadsAs | fnmatch.c:148-158 | the same for a string with nothing special in it, under any flags |
| Fnmatch.TrailingBackslash | fnmatch.c:139-147 | a backslash that ends the pattern stands for itself |
| Fnmatch.CaseBlind | fnmatch.c:151-154 | under FNM_CASEFOLD strings alike but for the case of letters match alike, whatever the pattern |
| Fnmatch.QuestionMatches | fnmatch.c:73-82 | a question mark matches one character, but for the protected slash and period |
| Fnmatch.BracketMatches | fnmatch.c:163-224 | for every list of characters and ranges, quoted or not, under all flags: a bracket matches exactly its members, and with either sign of negation exactly the others, but for the protected slash and period |
| Fnmatch.UnclosedBracket | fnmatch.c:118-158 | a bracket that is never closed is an ordinary character, and matches nothing if FNM_PATHNAME meets a slash behind it |
| Fnmatch.SlashInBracket | fnmatch.c:163-224 | under FNM_PATHNAME a slash among the items makes the pattern match nothing |
| FnmatchPatterns.PartsRead | fnmatch.c:58-224 | any list of question marks, stars, characters and brackets, quoted or not, is read back from its text as the tokens of these parts, in order |
| FnmatchPatterns.PatternMeaning | fnmatch.c:58-224 | from the text to the strings: such a pattern matches exactly the strings that can be cut into what each part stands for, said without tokens or folding, and a tail, for every flag, with FNM_PERIOD for the patterns that honour it |
| Fnmatch.MatchIsCut | fnmatch.c:58-161 | without FNM_PERIOD, matching means that the string can be cut into one admissible piece for each token, and a tail behind a slash under FNM_LEADING_DIR |
| Fnmatch.StrictIsCut | fnmatch.c:78-93 | with FNM_PERIOD as it is meant, the same with no piece of a star, a '?' or a bracket starting at a protected period |
| Fnmatch.PeriodHonouredIff | fnmatch.c:109-116 | the matcher agrees with that meaning on every string if and only if FNM_PATHNAME is clear, or the pattern can match nothing, or no star at which it recurses is followed by a slash and a token that takes a period; and it never refuses what FNM_PERIOD allows |
| Fnmatch.MatchIsCutWithPeriod | fnmatch.c:58-161 | for those patterns matching with FNM_PERIOD is the existence of such a cut |
| Fnmatch.RangeMatch | fnmatch.c:163-224 | the loop parses the bracket and tests membership: RANGE_ERROR exactly if the pattern ends first, no match if a slash comes first under FNM_PATHNAME, otherwise membership against negation and the position behind the bracket |
| Fnmatch.ReadRange | fnmatch.c:193-219 | one turn of that loop reads one range of the parse |
| Fnmatch.StarCase | fnmatch.c:84-117 | stars are collapsed, and the shortcuts at the end and before a slash give what the general case would |
| Fnmatch.TryAll | fnmatch.c:109-117 | trying the rest at every position up to the first slash decides a star |
| Fnmatch.OneCase | fnmatch.c:73-83 | a token for one character |
| Fnmatch.CollapseStars | fnmatch.c:86-88 | at the start of a pattern two stars are one, with every flag |
| Fnmatch.DoubleStar | fnmatch.c:86-88 | without FNM_PERIOD they are one anywhere in a pattern |
| Fnmatch.StarAtEnd | fnmatch.c:95-102 | what a star at the end matches |
| Fnmatch.StarBeforeSlash | fnmatch.c:103-107 | a star before a slash takes everything up to the first one |
| Fnmatch.QuotedMatchesItself | fnmatch.c:139-158 | with no flags, a string with every character quoted matches itself and nothing else |
| Fnmatch.PeriodForgottenBehindStar | fnmatch.c:110-116 | one pattern and string that FNM_PERIOD forbids and the matcher accepts |
| ChannelPacking.DecodeEncodeHalf | futabaSbusSio.cpp:211-264 | eight channels come back from eleven bytes, cut to 11 bits |
| ChannelPacking.EncodeDecodeHalf | futabaSbusSio.cpp:211-264 | every eleven bytes are the code of the channels they decode to |
| ChannelPacking.ChannelLayout | futabaSbusSio.cpp:211-233 | bit i of channel k is bit 11 k + i of the eleven bytes, the lowest bit of each byte first |
| ChannelPacking.SixteenChannelsLayout | futabaSbusSio.cpp:211-233 | the same for the sixteen channels in 22 bytes |
| Sbus.DecodeEncode | futabaSbusSio.cpp:211-264 | a frame comes back from its 25 bytes with its channels cut to 11 bits |
| Sbus.EncodeDecode | futabaSbusSio.cpp:211-264 | every 25 bytes with the right first and last byte are the code of what they decode to |
| Sbus.FrameLayout | futabaSbusSio.cpp:211-233 | of which bits of the frame each channel is made, and which byte holds the flags |
| Sbus.FlagBits | futabaSbusSio.cpp:80-92 | which flag bit tells of a lost frame and which of the failsafe |
| Sbus.DeliverMeaning | futabaSbusSio.cpp:80-92 | one report for a lost frame, else for the failsafe, else the frame, and nothing without a callback |
| Sbus.ScanConserves | futabaSbusSio.cpp:80-108 | bytes in are 25 for each frame, plus those skipped, plus at most 24 pending, which are the last ones |
| Sbus.ScanInSlices | futabaSbusSio.cpp:68-110 | callbacks, pending bytes and counts do not depend on how the stream is sliced |
| Sbus.FramesReceived | futabaSbusSio.cpp:68-110 | the bytes of any frames one after the other lead to the callback due for each, in order |
| Sbus.StreamReceived | futabaSbusSio.cpp:68-110 | the same behind bytes that hold no false frame, with one error report for each stray start byte |
| Sbus.CleanStreamReceived | futabaSbusSio.cpp:68-110 | frames with 11-bit channels and both error flags clear are delivered unchanged, in order and with no error report, behind any bytes other than 0x0F |
| Sbus.SlicesAreOneStream | futabaSbusSio.cpp:68-110 | any list of slices does what their concatenation does |
| Sbus.CleanSlicesReceived | futabaSbusSio.cpp:68-110 | however such a stream is cut into slices, the calls made are exactly one for each frame, in order, every other byte is skipped and none is left waiting |
| Sbus.Receiver.Turn | futabaSbusSio.cpp:80-107 | one turn of the inner loop makes the call due and moves the window, keeping what is still to come |
| Sbus.Receiver.Drain | futabaSbusSio.cpp:80-108 | the inner loop does the scan of the buffer |
| Sbus.Receiver.Push | futabaSbusSio.cpp:74-78 | a byte is appended, or a full buffer is emptied |
| Sbus.Receiver.RxCb | futabaSbusSio.cpp:68-110 | a slice does to the calls and the pending bytes what scanning both together does; a full buffer is never met |
| Sbus.Receiver.ReceiveSlices | futabaSbusSio.cpp:148-152 | the receiving thread, calling it for one slice after the other, does what the list of slices does |
| Fport.ChecksumMeaning | frskyFport_fsm.c:317-334 | up to 255 bytes the test accepts exactly the sums that are positive multiples of 255 |
| Fport.CalcChecksum8 | frskyFport_fsm.c:317-328 | the 16-bit loop computes the folded, complemented sum |
| Fport.ControlIsPacked | frskyFport_fsm.c:344-368 | the decoded frame is the message: its sixteen channels are below 2048 and pack into its 22 bytes, and the type, the flags and the signal strength are its other bytes |
| Fport.ControlLayout | frskyFport_fsm.c:344-368 | of which bits of the message each channel is made, and where type, flags and strength are |
| Fport.WireFormat | frskyFport_fsm.c:200-216 | 0x7E is sent as 0x7D 0x5E, 0x7D as 0x7D 0x5D, every other byte as it is |
| Fport.WireMessage | frskyFport_fsm.c:171-223 | a message is sent byte by byte between two bytes 0x7E |
| Fport.OutsideMessage | frskyFport_fsm.c:150-189 | outside messages only 0x7E is heard, and behind it more of them or a length byte, 0x19 or 0x08; anything else is malformed |
| Fport.PlainFed | frskyFport_fsm.c:222-229 | any other byte is stored, and the first one behind 27 ends the message |
| Fport.EscapeFed | frskyFport_fsm.c:203-217 | inside a message 0x7D and 0x5E store 0x7E, 0x7D and 0x5D store 0x7D, and anything else behind 0x7D drops the message as malformed |
| Fport.RadioErrorBits | frskyFport_fsm.c:237-305 | which flag bit tells of a lost radio link and which of the failsafe |
| Fport.FinishMeaning | frskyFport_fsm.c:237-305 | what the closing flag makes of any buffer, with the sums that are checked and the errors that are reported |
| Fport.FeedInChunks | frskyFport_fsm.c:81-86 | feeding in chunks is feeding at once |
| Fport.StuffedByteStored | frskyFport_fsm.c:200-222 | a stuffed byte is stored as the byte it stands for |
| Fport.StuffedStored | frskyFport_fsm.c:200-222 | stuffed bytes are stored in order and nothing else changes |
| Fport.BodyFed | frskyFport_fsm.c:200-228 | any bytes without a flag, inside a message: the bytes they stand for are stored, the index going round at 32, unless an escape was bad or an unescaped byte fell behind the buffer |
| Fport.FlagsFed | frskyFport_fsm.c:170-191 | waiting for a length, every flag is stored |
| Fport.SegmentFed | frskyFport_fsm.c:140-265 | flags, a length byte, any bytes and the next flag: the message is checked with all that was stored, or nothing comes of it |
| Fport.BytesFed | frskyFport_fsm.c:140-229 | for one flag and up to 27 stuffed bytes: they end up at the start of the buffer, the rest of which is what it was, and then the buffer is checked |
| Fport.DeliveredIff | frskyFport_fsm.c:170-252 | for any number of flags and any bytes up to the next flag: a frame is delivered exactly if the escapes were good, nothing unescaped fell behind the buffer, the length is that of a control message and the whole buffer, with what was left in it, checks; and frames come of whole messages only if and only if the message is whole or none is delivered |
| Fport.StuffedDeliveredIff | frskyFport_fsm.c:170-252 | the same for stuffed bytes, with the buffer written out |
| Fport.WrongLengthDelivers | frskyFport_fsm.c:183-186 | without a length byte nothing is delivered |
| Fport.MessageAccepted | frskyFport_fsm.c:140-265 | a control message with a right check sum, stuffed and delimited, is accepted once, the buffer holds its bytes, and the error mask is cleared or gets its radio errors |
| Fport.StreamAccepted | frskyFport_fsm.c:81-265 | so is every message of a sequence, in order |
| Fport.BareLengthRepeatsMessage | frskyFport_fsm.c:217-220 | a length byte between two flags, right after a message, delivers that message again |
| Fport.NeverSentFrame | frskyFport_fsm.c:170-252 | a whole message that, behind two flags, is delivered shifted by one byte |
| Fport.ShiftedMessage | frskyFport_fsm.c:170-252 | what becomes of any whole message behind two flags |
| Fport.BackInStepIff | frskyFport_fsm.c:152-229 | after any stream of control messages, a machine that was out of step is in step exactly if one of them had a last byte that had to be escaped, and otherwise has delivered nothing |
| Fport.SegmentOverrunsIff | frskyFport_fsm.c:170-227 | flags, a length byte and any bytes make the machine store behind its buffer exactly if all that they stand for, but the first flag, is more than 27 bytes |
| Fport.MessageOverrunsIff | frskyFport_fsm.c:170-227 | so for stuffed bytes behind any number of flags |
| Fport.FlagsOverrunIff | frskyFport_fsm.c:170-191 | flags alone do so exactly if more than 28 come in a row |
| Fport.WrongLengthOverrunsIff | frskyFport_fsm.c:170-191 | and what follows them without a length byte adds nothing |
| Fport.Context.ManageReceivedMsg | frskyFport_fsm.c:237-305 | a complete message is checked, a control message decoded into lastFrame, and the error mask changed and returned |
| Fport.Context.FeedOneByte | frskyFport_fsm.c:140-234 | one byte moves the context, and returns the errors, as the machine does |
| Fport.Context.FeedFsm | frskyFport_fsm.c:81-86 | a buffer moves it as its bytes one after the other, and the collected error mask is returned |
| DshotQuery.EveryRunIsSound | esc_dshot.c:372-401 | under every interleaving of the two threads: onGoingQry is up exactly while a query is being made, is in the mailbox or is held by the receiver; the mailbox never refuses; the k-th query, counted from 0, goes to channel k + 1 modulo the number of channels; the cache is the last good reply of every channel |
| DshotQuery.StepKeepsInv | esc_dshot.c:705-748 | every single step of either thread keeps that |
| DshotQuery.WriteGoesToLastQueried | esc_dshot.c:744-746 | a reply is written only to the channel of the last query, which had no other answer |
| DshotQuery.EveryChannelOnce | esc_dshot.c:381-382 | any n consecutive queries ask each of n channels exactly once |
| DshotQuery.TurnOrder | esc_dshot.c:378-384 | the turn begins with channel 1, goes to the next one each time, and from the last to the first |
| DshotQuery.CacheHoldsLastGood | esc_dshot.c:720-746 | a failed query leaves the cached sample of its channel, and no query touches another's |
| DshotQuery.FrameAsksAtMostOne | esc_dshot.c:353-386 | with all telemetry bits cleared before, a frame asks at most one channel, the next in turn, and does ask it if no query was going on |
| DshotQuery.PlainAsksNobody | esc_dshot.c:353-360 | the packets of a list of throttles keep those up to 2047 and have no telemetry bit |
| DshotQuery.ThrottlesFrame | esc_dshot.c:353-360 | after such a call, whatever the receiver does meanwhile, the frame sent has these throttles and at most one telemetry bit, that of the next channel in turn, which is set if no query was going on |
| DshotQuery.DshotDriver.constructor | esc_dshot.c:200-221 | the state dshotStart leaves |
| DshotQuery.DshotDriver.SendFrame | esc_dshot.c:372-390 | the call does the steps of the sending thread |
| DshotQuery.DshotDriver.SendThrottles | esc_dshot.c:353-360 | the throttles are set with all telemetry bits down, and a frame is sent |
| DshotQuery.DshotDriver.Fetch | esc_dshot.c:713-714 | taking a query is a step of the receiving thread |
| DshotQuery.DshotDriver.Finish | esc_dshot.c:717-747 | what follows the read are its other steps |
| DshotWave.SetCrc4 | esc_dshot.c:596-608 | the loop over the 4-bit field computes the sealed packet |
| DshotWave.SealedIsValid | esc_dshot.c:596-608 | sealing keeps throttle and telemetry bit, and the check sum is right exactly without the inversion |
| DshotWave.CrcLaw | esc_dshot.c:596-608 | a command passes the check exactly when its nibbles add up to 0 without carry |
| DshotWave.SealedLaw | esc_dshot.c:596-608 | sealing keeps the payload and makes the nibbles add up to 0 |
| DshotWave.InvertedLaw | esc_dshot.c:596-608 | inverted sealing keeps the payload and makes them add up to all ones |
| DshotWave.CommandFields | esc_dshot.c:610-630 | throttle and telemetry bit can be read off the sealed packet at their places |
| DshotWave.MasksInOrder | esc_dshot.c:632-659 | the pulses are the bits of the packet, the highest first |
| DshotWave.WaveRows | esc_dshot.c:632-659 | a column is two silent rows, sixteen pulses with the long one for a set bit, and silence |
| DshotWave.BadFrameIsAPacket | decode_dshot.c:200-203 | the error value of the decoder is a valid packet |
| DshotWave.DshotSender.BuildDshotDmaBuffer | esc_dshot.c:632-659 | every packet is sealed and every column holds the pulses of its packet between silent rows |
| DshotWave.GuessDshot | decode_dshot.c:191-228 | what is decoded: behind the first gap, at most 16 pulses against half the first period, and the error value if the check sum is wrong or there is no gap early enough |
| DshotWave.ZeroStaysBelow | decode_dshot.c:205-209 | at readable timings, a pulse of a zero, measured to within one count, stays below the threshold |
| DshotWave.OneReaches | decode_dshot.c:205-209 | and a pulse of a one reaches it |
| DshotWave.ReadableIff | decode_dshot.c:205-209 | a receiver that counts a whole number of times as fast reads every bit right, whatever the error of one count, exactly at the readable timings |
| DshotWave.UsualTimings | esc_dshot.c:49-58 | duty ratios from 333 to 373 with at least 50 ticks and 16 counts in a period are readable |
| DshotWave.CaptureFollows | decode_dshot.c:205-209 | a capture of a sent column at readable timings shows each bit as a pulse above or below half the first period |
| DshotWave.CaptureDecodes | decode_dshot.c:191-228 | a capture that shows the bits of a packet decodes to it, those cut off by a late gap counting as zero, if the check sum is right |
| DshotWave.GuessMeaning | decode_dshot.c:191-251 | the same in terms of the two registers captured on either channel, with the limit of 1000 for the gap and half the following period for the pulses |
| DshotWave.NoGapMeaning | decode_dshot.c:195-204 | without a gap early enough the result is the error value |
| DshotWave.CommandRoundTrip | decode_dshot.c:191-228 | for every throttle and telemetry bit the packet comes back if the gap is at index 15 or before, and for a later gap under the exact condition stated; an inverted check sum is refused unless the gap is at index 19 or later and what is left has check sum 0 |
| DshotWave.LateGapMisleads | decode_dshot.c:191-228 | two captures with late gaps, one read as another packet, one with an inverted check sum accepted |
| Fletcher.ChecksumIff | cryptoSerialMessage.c:192-199 | the 16-bit start gives the check sum as defined exactly for the lengths that fit, whatever the data |
| Fletcher.NaiveMeaning | cryptoSerialMessage.c:192-215 | the check sum in closed form: the low byte is the length and all bytes, the high byte weighs each byte by the number of bytes from it on, both modulo 255 |
| Fletcher.StartIff | cryptoSerialMessage.c:194-199 | which lengths fit |
| Fletcher.FitsUpTo65025 | cryptoSerialMessage.c:194-199 | all up to 65025 do, none from 65026 to 16711424, and 16711425 does again |
| Fletcher.TooLongMessage | cryptoSerialMessage.c:192-215 | a message of 65026 bytes with the wrong check sum |
| Fletcher.AddBlock | cryptoSerialMessage.c:202-207 | in a block of up to 20 bytes no 16-bit sum wraps |
| Fletcher.StartFromSame | cryptoSerialMessage.c:201-210 | sums stay congruent modulo 255 exactly if they start so, so that reducing them late does no harm |
| Fletcher.Fletcher16WithLen | cryptoSerialMessage.c:192-215 | the result is the naive check sum of length and data modulo 255 if and only if the length fits, in particular up to 65025 bytes |
| ModbusCrc.TableIsBitwise | crc16_modbus.c:7-39 | every table entry is eight shifts of its index |
| ModbusCrc.TableStep | crc16_modbus.c:44-48 | one step by table is eight bitwise steps |
| ModbusCrc.ModbusCrc16 | crc16_modbus.c:4-51 | the result is the bit-by-bit check sum of every message |
| ModbusCrc.CheckValue | crc16_modbus.c:4-51 | the check sum of the nine digits is 0x4B37 |
| ModbusCrc.AppendedGivesZero | crc16_modbus.c:4-51 | a message followed by its check sum, low byte first, has check sum 0 |
| ModbusCrc.ZeroIffChecksum | crc16_modbus.c:4-51 | and no other two bytes do that |
| ModbusCrc.DamageDetected | crc16_modbus.c:4-51 | damage to two neighbouring bytes always changes the check sum |
| Hsv.Extremes | fast_hsv2rgb_32bit.c:31-71 | at every hue the largest component is v and the smallest the whole part of v * (255 - s) / 255 |
| Hsv.SextantColours | fast_hsv2rgb.h:92-134 | in each sextant, which of red, green and blue is v, which is at the bottom, and that the third is within 1 of the rising or falling slope |
| Hsv.ClampMeaning | fast_hsv2rgb.h:81-89 | a hue of the wheel is itself, any other is taken at the same place of the last sextant |
| Hsv.WaveBetween | fast_hsv2rgb_32bit.c:31-71 | every component, so also the third, lies between the two |
| Hsv.HueStep | fast_hsv2rgb_32bit.c:31-71 | one step of the hue moves no component by more than 1, also across sextants and from 1535 to 0 |
| Hsv.SlopeAccurate | fast_hsv2rgb_32bit.c:59-71 | the slope is the exact quotient rounded down, or exceeds it by less than 1/256 |
| Hsv.GreyIsFlat | fast_hsv2rgb.h:73-79 | the early return for s = 0 gives the colour of the general case |
| Hsv.DivideBy255 | fast_hsv2rgb_32bit.c:50-54 | two shifts in 16 bits divide by 255, without overflow |
| Hsv.SlopeLevel | fast_hsv2rgb_32bit.c:59-71 | the computation with its 16- and 32-bit casts gives the slope, without overflow |
| Hsv.PointerSwap | fast_hsv2rgb.h:117-134 | which cell is the slope, the top and the bottom in each sextant |
| Hsv.FastHsv2Rgb32 | fast_hsv2rgb_32bit.c:31-71 | the three cells get the components of the colour, the hue clamped to the last sextant, and no other cell changes |

## Left out

- Flash store: failures of malloc, of an erase, and of programming an erased double word; a part is a range of 8-aligned addresses, headers have 16 bytes (four 32-bit words), types are below the number of types and differ from the erased pattern. The sibling `eeprom_f4.c` is not modelled.
- EepromFlash.Partition.EepromWipe: the RAM copies a wipe makes are values, not malloc'd blocks, and its two loops are methods of their own.
- EepromFlash.Partition.EepromStore: data are at most 2147483392 bytes long, since the guard casts lengths to a signed 32-bit number.
- RpmCapture.ProcessErpsDmaBuffer: asks that the buffer hold the edges the DMA counted, as the DMA guarantees; ERPS_BIT1_DUTY is any number from 1 to 16384 for the round trips.
- DshotLine.Erps.SetFromRpm: a speed of 0 is excluded, since the code divides by it.
- Bdma: one-shot and half-buffer-copy modes, the cache, the rearming of the timeout, the error counters, the wake-up of a waiting thread, and calls of the driver from inside the callbacks. A service is atomic, as the interrupts exclude each other.
- Bdma.StepIsSound: that data are still in the buffer needs that the controller does not overtake the reader; delivery of every index exactly once does not.
- Fnmatch: characters are ASCII for case folding; collation and character classes are not in the code.
- S.Bus: channels 17 and 18, the start-up of the serial port, and memory errors.
- Fport.Context.ManageReceivedMsg: does not model the reply to a downlink message, which is built in msgBuf and so changes the buffer when tlmSendCb is set; nor do FeedOneByte and FeedFsm.
- Fport.Context.FeedOneByte: as ManageReceivedMsg, the buffer after a downlink message is the one without a reply.
- Fport.Context.FeedFsm: likewise.
- F.Port: the telemetry slots, the other users of the error mask, which is shared by all contexts, and what a store behind the buffer overwrites. The mask is read after the call that may change it, an order C leaves open. Neither are the configuration without data ids, which ignores downlink messages, and the other F.Port variants.
- DshotQuery: time, thread priorities, and the bidirectional mode, in which extended telemetry also writes the cache. The class runs its thread undisturbed; interleavings are the steps of `Step`.
- DshotWave: the two timer widths hold the same values, and a duty fits 16 bits; timer start-up, DMA and the other ESC protocols guessMode tells apart.
- Hsv.FastHsv2Rgb32: the three pointers are different cells, and the AVR assembly is not modelled.
- The sections of `cryptoSerialMessage.c` other than the check sum, `hal_stm32_crc_v1.c`, and all UI, I2C, ADC, PWM and PID code.
