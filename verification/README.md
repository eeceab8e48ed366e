# SnapDesk and beacon-sniffer: a verified model

The repository has two programs. `beacon-sniffer` is a modified wireless driver; `SnapDesk` is a desktop program that
fingerprints the beacon frames the driver captures and logs the fingerprints. This project models their algorithmic
cores and proves what they do.

- **Radar detection** (`DfsModel`, `DfsSoundness`, `DfsDetection`, `DfsHistory`, `DfsTrains`, `DfsLateTrains`,
  `DfsTrainMemory`, `DfsCompleteness`, `DfsNoisyTrains`, `DfsListing`, `DfsAccounting`, `DfsTables`, `PatternModel`,
  `PatternSafety`, `PatternSoundness`, `PatternHistory`, `PatternCompleteness`, `PatternAccounting`, `PoolVisits`,
  `PoolInterleaving`). A detector for each radar type keeps a queue of pulse time stamps and a list of candidate pulse
  trains. The operations are functions on values, and the theorems are about them. `DfsPools`, `PriDetector` and
  `PatternDetector` hold the classes that update their lists and counters in place; each method is proved to compute its
  function.
- **Numbers and fingerprints** (`Numerals`, `BigNumber`, `HexStrings`, `Fingerprint`, `Evaluator`, `Compiler`). Bit
  slices of big-endian byte strings, the fingerprint language and its parser.
- **Key cache** (`KeyCacheModel`, `KeyCache`). Which slot of the hardware key cache a key gets.
- **Beacons** (`BeaconModel`, `Beacon`). Decoding of beacon frames; the element format is section 9.4.2.1 of IEEE
  Std 802.11-2016.
- **Store** (`TextFile`, `CsvModel`, `StoreModel`, `Store`). The log of fingerprints as a table in a text file.
- **Radio arithmetic** (`RxBuffer`, `IqCalibration`, `OffsetDac`). Bit fields across words, each word taken as its 32
  bits, the magnitude approximation, and the search for offset settings.

An exception of SnapDesk is an `Err`. Allocation is an oracle: `Kmalloc` says for each call whether it succeeds, and
the theorems hold for every oracle. Evaluation takes the decoded frame and the hash as functions.

## Assumptions

- Time stamps are 64 bits wide and computed modulo 2^64; distances between pulses are truncated to 32 bits where the
  program does so. A report is sound exactly if its pulse came less than 2^32 microseconds after the newest queued one
  (`ReportIsSoundExactly`, `RunReportsExactly`); `TruncationForgesDetection` is an input where it is not. The queue
  invariant, quiescence, completeness and the accounting hold without such a bound. A sequence forged by an old queue is
  past its deadline at once, and the next accepted pulse drops it.
- A train near the end of the 64-bit range has deadlines that wrap around. It is reported in time all the same, but
  needs an allocation with every pulse (`TrainIsReportedExactly`).
- The products of the calibration are computed in signed 32-bit arithmetic that wraps around.
- Each visit to the object pools is one step, as its lock makes it. Taking from the pool and allocating are two steps.
- The key cache has 128 slots, and default keys use indices 0 to 3. A run may delete live keys only;
  `DeleteKeepsTidyExactly` says what any other index does.
- Whole runs of the log are about outputs and dates that contain neither the delimiter nor a newline, and dates that are
  not empty. The header is the one the program writes.
- The two DAC bits read back as written.

## Where the code and its documentation differ

The model follows the code.

- The user's guide says a script ends at its first blank line. Directly after the opening line of a function the
  parser skips one blank line (`BlankAfterOpening`), and after a file of comments only, further lines are an error
  (`BlankAfterComments`). The sentence holds exactly for the scripts that do not break off at such a place
  (`ScriptEndsAtBlank`).
- The guide says comments are ignored. A comment behind the last line of a complete script is too much code; all others
  are ignored (`CommentsIgnoredExactly`).
- The guide calls a function `cut_Byte`; the parser knows `Cut_byte`.
- Replacing a line is meant to keep the other lines. A last line without a newline is lost (`ReplaceLineUpdates`).
- An element whose end lies exactly one byte behind the body is an error, one that ends later just ends the parsing
  (`ParseFailsExactly`).
- An empty cell is not read back as empty (`CellReadBack`), and the empty number is not read back from its print
  (`HexRoundTrip`).
- The magnitude of the calibration is zero exactly for the zero vector (`MagZeroExactly`), but the guard against
  dividing by it also fires for measurements that differ by multiples of 2^24, because their product wraps around
  (`GuardFiresExactly`, `WrapFiresGuard`).
- A fingerprint that is empty cannot be logged once the log has entries (`RunRefinesExactly`).
- Cuts that ask for bits behind the end are an error. If `from + size` wraps around 2^64 the check can miss it
  (`CutByReach`).

## Model

| member | source | states |
|---|---|---|
| DfsMultiple.GetMultipleDecides | beacon-sniffer/Ath9k/ath/dfs_pri_detector.c:44-70 | the loop-free test answers the existential: it returns a positive factor if and only if the distance is within the tolerance of some positive multiple of the fraction, and that factor is such a multiple |
| DfsDetection.DetectionIsSound | beacon-sniffer/Ath9k/ath/dfs_pri_detector.c:224-415 | a reported sequence has at least `ppb_thresh` hits, enough of them against its misses, a last pulse of the right width and chirp, and evidence among the accepted pulses: every earlier hit near a positive multiple of the PRI before the creating pulse, every later one near a multiple after the previous hit |
| DfsDetection.ReportIsSoundExactly | beacon-sniffer/Ath9k/ath/dfs_pri_detector.c:224-415 | in every state that pulses lead to, forged sequences listed or not: a reported sequence is accounted for by the accepted pulses if and only if the newest queued pulse was less than 2^32 microseconds old |
| DfsDetection.AllSupportedExactly | beacon-sniffer/Ath9k/ath/dfs_pri_detector.c:224-415 | after an accepted pulse all listed sequences are accounted for if and only if the newest queued pulse was less than 2^32 microseconds old or no sequence is left; a refused pulse changes nothing |
| DfsSoundness.AddPulseKeepsInv | beacon-sniffer/Ath9k/ath/dfs_pri_detector.c:381-415 | every pulse, whatever the age of the queue, keeps the queue invariant and leaves each listed sequence accounted for or past its deadline; what is reported is a listed sequence that meets the detection test |
| DfsSoundness.AddPulseKeepsQueue | beacon-sniffer/Ath9k/ath/dfs_pri_detector.c:168-222 | the queue stays strictly decreasing with gaps of at least the tolerance, a contiguous newest part of the queued history, within the window, and shorter than twice the burst length |
| DfsHistory.WholeQueueExactly | beacon-sniffer/Ath9k/ath/dfs_pri_detector.c:201-222 | after a pulse that reports nothing the queue is a contiguous part of all pulses accepted since the reset, newest first, and its newest element is `last_ts`, if and only if no allocation of a queue element failed |
| PatternHistory.PulseWholeExactly | beacon-sniffer/Ath9k/ath/dfs_pattern_detector.c:272-312 | a pulse through the pattern detector, also on time-stamp wraparound, keeps all queues of all channels such parts of their histories if and only if no allocation of a queue element failed |
| PatternHistory.RunWholeExactly | beacon-sniffer/Ath9k/ath/dfs_pattern_detector.c:256-343 | over every stream of pulses and domain changes: all queues are such parts at all times if and only if no allocation of a queue element failed |
| DfsSoundness.LookBackCounts | beacon-sniffer/Ath9k/ath/dfs_pri_detector.c:257-278 | the search through older pulses counts the hits and the misses between them exactly, and stays inside the time window |
| DfsSoundness.LookBackIsExhaustive | beacon-sniffer/Ath9k/ath/dfs_pri_detector.c:257-278 | the search misses no pulse: inside the window, nothing older than the first hit is near a multiple |
| DfsDetection.PulseConservation | beacon-sniffer/Ath9k/ath/dfs_pri_detector.c:253-333 | `count + count_falses` is the number of queued pulses from the first one to the base and of accepted ones from the creating one to now, and these are a tolerance apart |
| DfsDetection.PulsesAccountedExactly | beacon-sniffer/Ath9k/ath/dfs_pri_detector.c:253-333 | `count + count_falses` is the number of accepted pulses in `[first_ts, base]` and from the creating one to now if and only if every accepted pulse from the first one to the base was queued |
| DfsDetection.MembersFitWindow | beacon-sniffer/Ath9k/ath/dfs_pri_detector.c:303-333 | every member lies in `[first_ts, first_ts + dur]` if and only if bursts have at least two pulses, a pulse followed the creating one, or the sequence is at most 32 microseconds long; then `(count + count_falses - 1) * tolerance <= dur` |
| DfsDetection.NewSequenceInWindowExactly | beacon-sniffer/Ath9k/ath/dfs_pri_detector.c:243-297 | a new sequence lies in its own window exactly when `ppb >= 2` or its base is at most 32 microseconds old |
| DfsDetection.TruncatedTestIsTrueExactly | beacon-sniffer/Ath9k/ath/dfs_pri_detector.c:233-241 | the 32-bit PRI test on a queued pulse is true of the real distance exactly when this is below 2^32 |
| DfsDetection.TruncationForgesDetection | beacon-sniffer/Ath9k/ath/dfs_pri_detector.c:233-241 | without that bound a report can rest on two pulses more than 71 minutes apart |
| DfsCompleteness.NoEarlyReport | beacon-sniffer/Ath9k/ath/dfs_pri_detector.c:224-354 | no pulses whatever make a detector report before pulse max(2, `ppb_thresh`) after a reset |
| DfsCompleteness.TrainIsReportedExactly | beacon-sniffer/Ath9k/ath/dfs_pri_detector.c:224-354 | an exactly periodic train of acceptable pulses on a reset detector is reported at pulse max(2, `ppb_thresh`), with every pulse counted, and not before, if and only if the pools hold, or kmalloc will give, the elements its pulses need, as told from the pools before its first pulse |
| DfsCompleteness.RoomyServed | beacon-sniffer/Ath9k/ath/dfs_pri_detector.c:224-354 | unless its deadlines pass 2^64, a train needs just a queue element for its first pulse and a sequence for its second |
| DfsTrainMemory.LateDraws | beacon-sniffer/Ath9k/ath/dfs_pri_detector.c:224-354 | a pulse of a train whose deadlines pass 2^64 takes its queue element and, as long as another multiple of the period is in the PRI range, one more sequence, and fails if and only if one of them is not to be had |
| DfsCompleteness.TrainIsReported | beacon-sniffer/Ath9k/ath/dfs_pri_detector.c:224-354 | when all allocations succeed every such train is reported at that pulse and not before, up to the end of the 64-bit time stamps |
| DfsNoisyTrains.NoisyTrainIsReported | beacon-sniffer/Ath9k/ath/dfs_pri_detector.c:224-354 | a train among other acceptable pulses is reported, by its pulse max(2, `ppb_thresh`), if the strays are at most `num_pri` times its pulses and the queue has room for them; the last pulse must come a full train's length after time zero, since before that the start of the search window is computed modulo 2^64 and lies in the future |
| DfsNoisyTrains.EarlyTrainIsMissed | beacon-sniffer/Ath9k/ath/dfs_pri_detector.c:243-278 | an input 16 microseconds short of that: five train pulses and a stray, allowed otherwise, of which none is reported |
| DfsTrains.ReportedExactly | beacon-sniffer/Ath9k/ath/dfs_pri_detector.c:336-354 | an accepted pulse whose sequences can be allocated reports if and only if a sequence listed after it has `count >= ppb_thresh` and `count * num_pri >= count_falses`, and then the first such one |
| DfsListing.AcceptedExactly | beacon-sniffer/Ath9k/ath/dfs_pri_detector.c:381-415 | exactly the pulses in the width range, chirped if asked for, and a tolerance after the last one modulo 2^64 move the time; the others change nothing; a failed allocation of a sequence empties the detector, otherwise the pulse is queued unless reported or not allocated |
| DfsListing.EnqueuedExactly | beacon-sniffer/Ath9k/ath/dfs_pri_detector.c:181-222 | queued pulse k stays if and only if it is at most `pri_max * ppb * num_pri` old and among the newest `2 * ppb - 1` |
| DfsListing.CandidateExactly | beacon-sniffer/Ath9k/ath/dfs_pri_detector.c:243-297 | every field of a new sequence in numbers: PRI, duration, deadline, first pulse; of the older pulses up to the first one outside of the time window all near a multiple are its hits, and the others up to the oldest hit its misses |
| DfsListing.ListedExactly | beacon-sniffer/Ath9k/ath/dfs_pri_detector.c:224-333 | the list after a pulse: one sequence for each queued pulse in the PRI range with none beyond it in between and more hits than any sequence that goes on, oldest base first, then the old sequences not past their deadline, in order, with a hit or a miss more |
| DfsListing.FitsSpecExactly | beacon-sniffer/Ath9k/ath/dfs_pri_detector.c:28-35 | the periods that trains may have for a radar type: those in its PRI range, and only the middle one if the range is twice the tolerance |
| PatternCompleteness.TrainIsAnswered | beacon-sniffer/Ath9k/ath/dfs_pattern_detector.c:272-312 | with all allocations succeeding, a train of any radar type, on a channel whose detector for that type is fresh, is answered with a report of some type by pulse max(2, `ppb_thresh`) of it, whatever pulses on other frequencies come in between in the order of time |
| PatternCompleteness.NewChannelIsFresh | beacon-sniffer/Ath9k/ath/dfs_pattern_detector.c:241-250 | on a channel not seen before every detector is fresh exactly from time stamp 16 on |
| PatternCompleteness.LostExactly | beacon-sniffer/Ath9k/ath/dfs_pattern_detector.c:197-250 | a pulse on a new channel is lost, unanswered and without a trace, if and only if one of the allocations for the channel, its list of detectors or a detector fails |
| PatternCompleteness.WrapIsFresh | beacon-sniffer/Ath9k/ath/dfs_pattern_detector.c:286-293 | after a time-stamp wraparound every detector of the pulse's channel is fresh exactly if the pulse is a tolerance past the last time stamp, modulo 2^64, so that a train may begin with a wraparound |
| PatternModel.RewindRestarts | beacon-sniffer/Ath9k/ath/dfs_pattern_detector.c:168-176 | when time goes back every detector of every channel restarts, empty, at the last time stamp before; otherwise none changes |
| DfsAccounting.AddPulseAccounts | beacon-sniffer/Ath9k/ath/dfs_pri_detector.c:86-222 | one pulse moves the pool counters by exactly the change of the detector's own lists, whatever other detectors hold |
| DfsAccounting.ExitAccounts | beacon-sniffer/Ath9k/ath/dfs_pri_detector.c:357-379 | an exiting detector gives back all it holds, and the last one leaves both pools empty |
| PoolVisits.OperationLeads | beacon-sniffer/Ath9k/ath/dfs_pri_detector.c:86-222 | whatever its pool requests meet, each operation of a detector (add_pulse, reset, exit) puts only objects that it holds, and ends holding exactly the elements of its two lists; after an exit, nothing |
| PoolVisits.AddPulseReplays | beacon-sniffer/Ath9k/ath/dfs_pri_detector.c:381-415 | these visits are those of add_pulse: with nobody else about they give the detector and the pool counters of the specification |
| PoolInterleaving.RunKeepsBalance | beacon-sniffer/Ath9k/ath/dfs_pri_detector.c:86-222 | in every state of every interleaving of the pool visits of any number of detectors at work: allocated = used + pooled, used = what all detectors hold together, references = live detectors, and every detector is on its way to hold exactly the elements of its lists |
| PoolInterleaving.PutsAreOwned | beacon-sniffer/Ath9k/ath/dfs_pri_detector.c:119-134 | every put in an interleaving gives back an object that this detector holds and the pools count as used |
| PoolInterleaving.UsedIsListed | beacon-sniffer/Ath9k/ath/dfs_pri_detector.c:86-222 | whenever no operation is under way, the used pulse objects are as many as the elements of all queues, the used sequence objects as many as the elements of all sequence lists |
| PoolInterleaving.NothingOutlivesDetectors | beacon-sniffer/Ath9k/ath/dfs_pri_detector.c:97-120 | whenever no detector is left, the counters are zero and the pools are empty |
| DfsPools.Pool.DeregisterRef | beacon-sniffer/Ath9k/ath/dfs_pri_detector.c:97-120 | the last reference frees every pooled object and counts each one down |
| DfsPools.Pool.GetPulseElem | beacon-sniffer/Ath9k/ath/dfs_pri_detector.c:146-158 | found exactly when the pool is not empty; one object moves from the pool to use |
| PriDetectors.PriDetector.CheckWindow | beacon-sniffer/Ath9k/ath/dfs_pri_detector.c:181-199 | drops exactly the queued pulses older than the window, and gives them back |
| PriDetectors.PriDetector.Enqueue | beacon-sniffer/Ath9k/ath/dfs_pri_detector.c:201-222 | the queue, the time stamp and the pool counters after an enqueue or a failed allocation |
| PriDetectors.PriDetector.CreateSequences | beacon-sniffer/Ath9k/ath/dfs_pri_detector.c:224-300 | lists exactly the candidate sequences with more than `min_count` hits, newest base last, until an allocation fails |
| PriDetectors.PriDetector.BuildSequence | beacon-sniffer/Ath9k/ath/dfs_pri_detector.c:243-278 | the in-place search for one base gives the candidate of the specification |
| PriDetectors.PriDetector.AddToExistingSeqs | beacon-sniffer/Ath9k/ath/dfs_pri_detector.c:303-333 | expired sequences go back to the pool, the others count a hit or a miss; the result is the largest count among those hit |
| PriDetectors.PriDetector.CheckDetection | beacon-sniffer/Ath9k/ath/dfs_pri_detector.c:336-354 | the first listed sequence that meets the detection test; found if and only if some sequence has `count >= ppb_thresh` and `count * num_pri >= count_falses` |
| PriDetectors.PriDetector.Reset | beacon-sniffer/Ath9k/ath/dfs_pri_detector.c:358-372 | empties both lists into the pools and restarts the time |
| PriDetectors.PriDetector.Exit | beacon-sniffer/Ath9k/ath/dfs_pri_detector.c:374-379 | a reset and one pool reference less |
| PriDetectors.PriDetector.AddPulse | beacon-sniffer/Ath9k/ath/dfs_pri_detector.c:381-415 | the new detector state, pool counters and report are those of the value-level specification the theorems are about |
| DfsTables.PpbThreshInRange | beacon-sniffer/Ath9k/ath/dfs_pattern_detector.c:36-39 | for any rate up to 100 the threshold lies between 1 and the burst length, and is one more than that percentage of all pulses but one, rounded down |
| DfsTables.EtsiInNumbers | beacon-sniffer/Ath9k/ath/dfs_pattern_detector.c:46-69 | all fields of all ETSI radar types in numbers |
| DfsTables.FccInNumbers | beacon-sniffer/Ath9k/ath/dfs_pattern_detector.c:71-101 | all fields of all FCC radar types in numbers |
| DfsTables.JpInNumbers | beacon-sniffer/Ath9k/ath/dfs_pattern_detector.c:103-126 | all fields of all JP radar types in numbers |
| DfsTables.KnownRegions | beacon-sniffer/Ath9k/ath/dfs_pattern_detector.c:128-149 | the three regions with a table |
| DfsTables.TablesAreValid | beacon-sniffer/Ath9k/ath/dfs_pattern_detector.c:46-126 | every entry of the ETSI, FCC and JP tables has the relations that the detector theorems assume |
| PatternSafety.PatternAddPulseOk | beacon-sniffer/Ath9k/ath/dfs_pattern_detector.c:272-312 | every pulse, also on time-stamp wraparound, keeps every queue sound and behind the last time stamp, channel frequencies distinct, and no live sequence anywhere that meets the detection test |
| PatternSafety.ReporterIsEmpty | beacon-sniffer/Ath9k/ath/dfs_pattern_detector.c:296-310 | with a domain set, the detector that reports is empty afterwards and restarted at the pulse's time |
| PatternSafety.MatchOk | beacon-sniffer/Ath9k/ath/dfs_pattern_detector.c:296-310 | a pulse stops at the first detector that reports; detectors behind it are not touched |
| PatternSafety.SetDomainOk | beacon-sniffer/Ath9k/ath/dfs_pattern_detector.c:320-343 | a change of domain, accepted or refused, keeps the invariant |
| PatternSafety.Run | beacon-sniffer/Ath9k/ath/dfs_pattern_detector.c:256-343 | the invariant holds after every stream of pulses and domain changes |
| PatternSoundness.ReportIsJustifiedExactly | beacon-sniffer/Ath9k/ath/dfs_pri_detector.c:381-415 | when a detector reports, its own queue and its accepted pulses account for some sequence that meets the detection test if and only if its newest queued pulse was less than 2^32 microseconds old |
| PatternSoundness.PatternAddPulseSound | beacon-sniffer/Ath9k/ath/dfs_pattern_detector.c:272-312 | for queues of any age: with a domain set, a report is justified, that is, the reporting detector's own queue and accepted pulses account for a sequence that meets the detection test, if and only if its queue was recent; every live sequence of every channel stays accounted for or expired |
| PatternSoundness.RunSound | beacon-sniffer/Ath9k/ath/dfs_pattern_detector.c:256-343 | over every run all live sequences of all channels are accounted for by accepted pulses or past their deadline; over every run with recent queues all are accounted for |
| PatternSoundness.RunReportsExactly | beacon-sniffer/Ath9k/ath/dfs_pattern_detector.c:256-343 | over every run, with queues of any age, each single report is justified if and only if the queue of the detector that reports was recent |
| PatternAccounting.RunAccounts | beacon-sniffer/Ath9k/ath/dfs_pattern_detector.c:167-343 | over every run, next to any other users, the pool counters equal what the detectors of all channels hold |
| PatternAccounting.RunThenExitLeavesNothing | beacon-sniffer/Ath9k/ath/dfs_pattern_detector.c:264-343 | after any run and the destructor all counters but the error counts are zero and both pools are empty |
| PatternDetectors.ChannelDetector.Match | beacon-sniffer/Ath9k/ath/dfs_pattern_detector.c:295-310 | the channel's detectors, the pools and the index that fired are those of the specification |
| PatternDetectors.ChannelDetector.Reset | beacon-sniffer/Ath9k/ath/dfs_pattern_detector.c:168-176 | all detectors of the channel restart at the last time stamp |
| PatternDetectors.ChannelDetector.Exit | beacon-sniffer/Ath9k/ath/dfs_pattern_detector.c:179-195 | all detectors of the channel give back what they hold and drop their references |
| PatternDetectors.PatternDetector.CreateChannel | beacon-sniffer/Ath9k/ath/dfs_pattern_detector.c:197-229 | lists a new channel with one fresh detector for each radar type, or undoes everything if an allocation fails |
| PatternDetectors.PatternDetector.GetChannel | beacon-sniffer/Ath9k/ath/dfs_pattern_detector.c:241-250 | the channel of this frequency, created if there is none |
| PatternDetectors.PatternDetector.AddPulse | beacon-sniffer/Ath9k/ath/dfs_pattern_detector.c:272-312 | pattern state, pools and verdict after a pulse are those of the specification; without a domain every pulse is radar and changes nothing |
| PatternDetectors.PatternDetector.RewindTo | beacon-sniffer/Ath9k/ath/dfs_pattern_detector.c:290-293 | the new state and pools are those of the specification, by which detectors restart exactly when time went back (`RewindRestarts`) |
| PatternDetectors.PatternDetector.SetDomain | beacon-sniffer/Ath9k/ath/dfs_pattern_detector.c:320-343 | for the three known domains: the channels of the old one are destroyed, and the last time stamp stays; any other unsets the domain and keeps the rest; the same domain again changes nothing |
| PatternDetectors.PatternDetector.ExitAll | beacon-sniffer/Ath9k/ath/dfs_pattern_detector.c:264-270 | the destructor gives everything back |
| BigNumbers.BigNumber.CutBit | SnapDesk/src/decoder/big_number.cpp:82-129 | a cut of `size > 0` bits that fits leaves exactly ceil(size/8) bytes whose value is (V / 2^from) mod 2^size; otherwise the number is unchanged and the error is told, but for sums that wrap around 2^64 and pass the check: these leave null, no bits, or an undefined erase, as specified |
| BigNumbers.BigNumber.CutByte | SnapDesk/src/decoder/big_number.cpp:67-80 | keeps exactly the bytes asked for; a sum that wraps around and passes the check leads to an undefined erase |
| BigNumbers.CutBytesIsCutBits | SnapDesk/src/decoder/big_number.cpp:67-129 | cutting bytes is cutting eight times as many bits, errors and null results included, exactly unless the sum of the bits wraps around and passes the check |
| BigNumbers.BigNumber.MaskTop | SnapDesk/src/decoder/big_number.cpp:101-107 | the mask loop reduces the value modulo a power of two |
| BigNumbers.BigNumber.ShiftRight | SnapDesk/src/decoder/big_number.cpp:110-125 | one pass of the carry loop halves the value, over all bytes |
| BigNumbers.BigNumber.TrimBits | SnapDesk/src/decoder/big_number.cpp:98-129 | masking, shifting and dropping the leading byte leave the minimal number of bytes |
| BigNumbers.BigNumber.ToSizeT | SnapDesk/src/decoder/big_number.cpp:52-65 | the big-endian value of up to eight bytes |
| Numerals.SliceOfSlice | SnapDesk/src/decoder/big_number.cpp:82-129 | a slice inside a slice is one slice |
| HexStrings.HexRoundTrip | SnapDesk/src/decoder/big_number.cpp:24-36 | printing and reading back a number gives the number exactly if it has bytes: the empty number reads back as null |
| HexStrings.HexStringInjective | SnapDesk/src/decoder/big_number.cpp:24-36 | different byte strings print differently |
| HexStrings.PrintedDigits | SnapDesk/src/decoder/big_number.cpp:24-36 | characters 2i and 2i + 1 are the upper-case digits of byte i, the high one first |
| HexStrings.HexCharacters | SnapDesk/src/decoder/big_number.cpp:190-208 | the characters read as digits are those of both letter cases, each with its value |
| HexStrings.PairIsStoul | SnapDesk/src/decoder/big_number.cpp:190-208 | two characters are read as the C++ library reads a base-16 number with white space and sign, modulo 256 |
| HexStrings.DecimalReadBack | SnapDesk/src/compiler/function_node.cpp:64-101 | behind white space and a sign a decimal numeral is read as its number, modulo 2^64 if negated; numbers from 2^64 on are an error |
| HexStrings.NoNumeral | SnapDesk/src/compiler/function_node.cpp:64-101 | every other text is refused |
| Evaluators.HexStringOf | SnapDesk/src/decoder/big_number.cpp:24-36 | prints every byte as two upper-case digits, or fails on the null number |
| Evaluators.FromHexString | SnapDesk/src/decoder/big_number.cpp:190-208 | the number or error of the parsing specification, two characters a byte |
| Fingerprints.CutsFuse | SnapDesk/src/compiler/function_node.cpp:64-101 | two nested bit cuts give the same text or error as one if and only if the inner cut fits into the number or the inner and the single cut go wrong in the same way |
| Fingerprints.CutOfCut | SnapDesk/src/compiler/function_node.cpp:64-101 | cutting the printed result of a cut is the single cut if the inner one fits, else what goes wrong in the inner one, with all cases |
| Fingerprints.CutByReach | SnapDesk/src/compiler/function_node.cpp:64-101 | the outcome of a cut by where its bits lie: inside, behind the end, or wrapped around |
| Fingerprints.EvalCut | SnapDesk/src/compiler/function_node.cpp:64-148 | a well-formed cut of bits or bytes evaluates its three arguments in order and cuts |
| Fingerprints.ByteCutByReach | SnapDesk/src/compiler/function_node.cpp:112-148 | the outcome of a cut of bytes in numbers: the bytes kept, or which error |
| Fingerprints.ByteCutIsBitCut | SnapDesk/src/compiler/function_node.cpp:64-148 | a Cut_byte node gives the text or error of the Cut_bit node of eight times its numbers, exactly unless the sum of the bits wraps around and passes the check |
| Fingerprints.CutArity | SnapDesk/src/compiler/function_node.cpp:64-148 | a cut with fewer or more than three arguments, the first three good, is the error for too few or too many |
| Fingerprints.HashOfParts | SnapDesk/src/compiler/function_node.cpp:14-53 | the hash is that of the texts of all arguments, first one first |
| Evaluators.GetValue | SnapDesk/src/compiler/node.cpp:89-119 | the evaluator of a tree computes its specified meaning |
| Evaluators.HashOfArgs | SnapDesk/src/compiler/function_node.cpp:14-53 | hashes the joined texts of all arguments |
| Evaluators.CutOfArgs | SnapDesk/src/compiler/function_node.cpp:64-101 | the argument loop of the cuts, with its errors for too few and too many arguments |
| Compilers.ReadLineLoop | SnapDesk/src/compiler/compiler.cpp:5-58 | the reading loop and its recursion terminate and give the tree or error that the grammar gives |
| Compilers.GetExecutableTree | SnapDesk/src/compiler/compiler.cpp:60-71 | compiles the lines of the file; left-over code is an error |
| Compilers.OpeningLines | SnapDesk/src/compiler/compiler.cpp:5-58 | in letters: the three opening lines and what they open, any other one is an error; comment, getter and closing line |
| Compilers.CompileInvertsRender | SnapDesk/src/compiler/compiler.cpp:5-71 | a file without blank lines compiles to a tree exactly when its lines without comments are the tree's rendering, the tree is well formed, and the last line is not a comment |
| Compilers.CommentsIgnoredExactly | Readme.md:31 | a file without blank lines compiles as it does without its comments, if and only if not its last line is a comment behind a complete tree |
| Compilers.CompilesToNothing | SnapDesk/src/compiler/compiler.cpp:5-71 | a file without blank lines gives no tree exactly when it is all comments |
| Compilers.TreeIsRendered | SnapDesk/src/compiler/compiler.cpp:5-58 | whatever is read is a rendering: the lines consumed, without comments, print the tree that was built |
| Compilers.ReadsTree | SnapDesk/src/compiler/compiler.cpp:5-58 | a rendering, with comments anywhere before its last line, is read back completely |
| Compilers.ScriptEndsAtBlank | Readme.md:31-32 | whatever follows the first blank line changes nothing if and only if the code before it does not break off right behind an opening line or before its first token, as a single pass over its lines tells |
| Compilers.BlankAfterOpening | SnapDesk/src/compiler/compiler.cpp:31-40 | directly after any opening line of a function, at any depth, a blank line is skipped and the arguments go on behind it |
| Compilers.BlankIsSkipped | SnapDesk/src/compiler/compiler.cpp:5-71 | where that fails, closing lines behind the blank line change what is compiled |
| Compilers.BlankAfterComments | SnapDesk/src/compiler/compiler.cpp:60-71 | after comments only, lines behind a blank line are too much code |
| KeyCacheModel.RunIsOwned | beacon-sniffer/Ath9k/ath/key.c:549-617 | after any run of stores, failed stores and deletions: live keys own disjoint slots, `keymap` and `tkip_keymap` are exactly the slots of live keys and of live TKIP keys, and no slot is marked both TKIP and CCMP, outside of the groups of default keys |
| KeyCacheModel.StoreKeepsTidy | beacon-sniffer/Ath9k/ath/key.c:561-575 | storing a key where the policy allots it keeps bitmaps and live keys in step, and takes no slot of another key |
| KeyCacheModel.DeleteKeepsTidy | beacon-sniffer/Ath9k/ath/key.c:584-617 | deleting a live key frees exactly its slots |
| KeyCacheModel.DeleteKeepsTidyExactly | beacon-sniffer/Ath9k/ath/key.c:584-617 | deleting an arbitrary index keeps bitmaps and live keys in step if and only if it is the index of a live key, is not a usable slot, or is free |
| KeyCacheModel.DeleteUndoesStore | beacon-sniffer/Ath9k/ath/key.c:561-617 | deleting a key straight after storing it gives back all three bitmaps |
| KeyCacheModel.BitsExactly | beacon-sniffer/Ath9k/ath/key.c:561-617 | bit by bit, for any slot and index: what storing a key sets and deleting one clears in each bitmap |
| KeyCacheModel.OpenSlots | beacon-sniffer/Ath9k/ath/key.c:386-468 | in numbers: the slots open to TKIP keys and to others, and the groups partly used, with and without combined MIC keys |
| KeyCacheModel.BestFitIsBest | beacon-sniffer/Ath9k/ath/key.c:413-464 | no other free slot would leave more places for TKIP keys |
| KeyCacheModel.BestFitCost | beacon-sniffer/Ath9k/ath/key.c:413-464 | another cipher costs a TKIP place exactly when no group is partly used |
| KeyCaches.KeyCache.ReserveTkip | beacon-sniffer/Ath9k/ath/key.c:386-403 | the first wholly free group; if there is none, no index of a group |
| KeyCaches.KeyCache.ReservePartial | beacon-sniffer/Ath9k/ath/key.c:413-446 | the first free slot of the first partly used group, in both layouts |
| KeyCaches.KeyCache.ReserveOther | beacon-sniffer/Ath9k/ath/key.c:405-468 | the best fit, and failure exactly when every usable slot is taken |
| KeyCaches.KeyCache.Config | beacon-sniffer/Ath9k/ath/key.c:473-578 | in fields of the request: which keys are stored at the slot they name and which get one of the cache, which requests are not supported, which are refused, and that the others succeed exactly if the hardware can take the key and there is room; a stored key goes to the allotted slot and sets exactly its bits; on every failure no bit changes |
| KeyCaches.KeyCache.Delete | beacon-sniffer/Ath9k/ath/key.c:584-617 | for every index: clears the bits that the specification clears, which are exactly those of the key if the index is live |
| BeaconModel.ParsesExactly | SnapDesk/src/decoder/management_body.cpp:24-41 | parsing gives exactly the elements, none of length zero, whose encoding starts the bytes and after which no further element can be parsed |
| BeaconModel.ParseFailsExactly | SnapDesk/src/decoder/management_body.cpp:43-45 | parsing fails exactly when such elements are followed by one that ends one byte late |
| BeaconModel.BodyDecodesExactly | SnapDesk/src/decoder/management_body.cpp:5-41 | a body decodes to given fields and elements exactly when it starts with their encoding and parsing stops there |
| BeaconModel.BodyRoundTrip | SnapDesk/src/decoder/management_body.cpp:5-41 | encoding and decoding a body gives back its fields and elements in order |
| BeaconModel.FrameRoundTrip | SnapDesk/src/decoder/frame.cpp:58-104 | an encoded frame decodes to itself if its Frame Control says beacon, and is refused if not |
| BeaconModel.FieldsOnTheAir | SnapDesk/src/decoder/frame.cpp:127-151 | for every frame that decodes: which bytes, last one first, each of the seven header names and the three body names gives, and from where to where the elements are parsed |
| BeaconModel.RefusedExactly | SnapDesk/src/decoder/frame.cpp:58-104 | when a frame is refused, and with which error, from its length, its first byte and its elements |
| BeaconModel.ElementsOnTheAir | SnapDesk/src/decoder/management_body.cpp:24-57 | an element is its id, the number of its bytes and these in order; where parsing ends |
| BeaconModel.BeaconByFirstByte | SnapDesk/src/decoder/frame.cpp:92-101 | type 0 and subtype 8 (Frame Control, section 9.2.4.1 of IEEE Std 802.11-2016) are decided by the first byte sent alone: 0x80 to 0x83 |
| BeaconModel.FirstOfIsFirst | SnapDesk/src/decoder/ie.cpp:41-54 | lookup gives the first element with the id, or null exactly if there is none |
| BeaconModel.LookupById | SnapDesk/src/decoder/ie.cpp:41-54 | looking up a printed id finds the first element with this id |
| BeaconModel.IdReadBack | SnapDesk/src/decoder/ie.cpp:41-46 | further digits in front of the two of an id are cut off unless the number no longer fits an int |
| BeaconModel.GetterSeesElement | SnapDesk/src/compiler/node.cpp:108-119 | a getter on a sent and decoded beacon prints the first element with the id as it was before |
| Beacons.FromBuffer | SnapDesk/src/decoder/big_number.cpp:174-188 | the bytes in opposite order, or an error if the buffer is too small |
| Beacons.FromBufferInv | SnapDesk/src/decoder/big_number.cpp:158-172 | the bytes in buffer order, or an error if the buffer is too small |
| Beacons.IeNode.Add | SnapDesk/src/decoder/ie.cpp:29-39 | appends to the end of the linked list |
| Beacons.IeNode.GetValue | SnapDesk/src/decoder/ie.cpp:41-54 | the recursive lookup along the list |
| Beacons.BeaconBody.Decode | SnapDesk/src/decoder/management_body.cpp:5-41 | the body's fields and list of elements after decoding, or the error, are those of the specification |
| Beacons.BeaconBody.DecodeElements | SnapDesk/src/decoder/management_body.cpp:24-41 | the cursor loop builds exactly the parsed elements and never reads behind the byte that follows the body |
| Beacons.BeaconBody.AddIe | SnapDesk/src/decoder/management_body.cpp:43-57 | appends one element, or fails if it ends outside of the body |
| Beacons.BeaconBody.GetValue | SnapDesk/src/decoder/management_body.cpp:83-98 | field or element by name |
| Beacons.Frame.UpdateRawData | SnapDesk/src/decoder/frame.cpp:33-42 | reads the frame as far as the buffer goes |
| Beacons.Frame.Decode | SnapDesk/src/decoder/frame.cpp:58-104 | the decoded frame or the error of the specification; decoding again changes nothing |
| Beacons.Frame.GetValue | SnapDesk/src/decoder/frame.cpp:127-151 | header field by name, then the body's, and an error before decoding |
| TextFiles.LinesOfUnlines | SnapDesk/src/os_communicator/os_communicator.cpp:55-76 | reading the lines of joined lines gives the lines back |
| TextFiles.UnlinesOfLines | SnapDesk/src/os_communicator/os_communicator.cpp:55-76 | joining the lines gives the text back exactly for texts that end with a newline |
| TextFiles.AddLineAppends | SnapDesk/src/os_communicator/os_communicator.cpp:78-88 | adding a line appends to the lines of the file exactly if the file is empty or ends with a newline |
| TextFiles.AddLineContinues | SnapDesk/src/os_communicator/os_communicator.cpp:78-88 | a line added to a file that does not end with a newline is joined to the last line |
| TextFiles.ReplaceLineUpdates | SnapDesk/src/os_communicator/os_communicator.cpp:90-132 | replacing a line changes just that line exactly if no unterminated line follows: such a line is lost |
| TextFiles.TextFile.GetLine | SnapDesk/src/os_communicator/os_communicator.cpp:55-76 | the n-th line, or the empty string behind the end |
| TextFiles.TextFile.AddLine | SnapDesk/src/os_communicator/os_communicator.cpp:78-88 | a file that is empty or ends with a newline gets the line as its new last one; another file has its last line continued; afterwards the file ends with a newline |
| TextFiles.TextFile.ReplaceLine | SnapDesk/src/os_communicator/os_communicator.cpp:90-132 | the new text, or an error and no change if the line is missing or empty |
| CsvModel.CellReadBack | SnapDesk/src/database/csv.cpp:101-115 | a cell is read back from its row exactly if it is not empty; an empty one is read as the rest of the row |
| Stores.Csv.GetCellFromRow | SnapDesk/src/database/csv.cpp:101-115 | the cell of the specification |
| Stores.Csv.GetAllKeysWithValue | SnapDesk/src/database/csv.cpp:179-200 | the keys of the matching rows in order, up to the first blank line |
| Stores.Csv.GetColumnNumber | SnapDesk/src/database/csv.cpp:169-173 | the first column of the header with this name, or -1 |
| Stores.Csv.GetKeyPosition | SnapDesk/src/database/csv.cpp:67-75 | the first row with this key, or -1 |
| Stores.Csv.GetCell | SnapDesk/src/database/csv.cpp:148-163 | the cell, or an error for a bad row or column |
| Stores.Csv.PushRow | SnapDesk/src/database/csv.cpp:125-134 | appends the row, or refuses wrong sizes and keys that exist and changes nothing |
| Stores.Csv.ReplaceRow | SnapDesk/src/database/csv.cpp:136-146 | replaces the row, or refuses wrong sizes, taken keys and missing lines and changes nothing |
| Stores.Csv.Create | SnapDesk/src/database/csv.cpp:32-55 | a new table is its header line |
| StoreModel.StepRefinesExactly | SnapDesk/src/main.cpp:71-82 | for any output and dates, one round on the file of a store, in which the first output may be empty, updates the store, raises no error, and notifies exactly if the output is new, if and only if the output is not empty when the store has entries, and is not the text of a row with an empty output |
| StoreModel.RunRefinesExactly | SnapDesk/src/main.cpp:59-82 | for dates that are read back and outputs that hold no delimiter or newline: a run over a new table ends without an error, with the unchanged header and one row per entry of the final store, and one notification sent for each, if and only if no output after the first one is empty |
| StoreModel.LastRefinesExactly | SnapDesk/src/main.cpp:59-82 | one more sighting with any output and dates still refines, exactly unless its output is empty and not the first, or the text of a row with an empty output |
| StoreModel.FinalLogs | SnapDesk/src/main.cpp:71-82 | the final store has one entry per distinct output, in first-seen order, with the dates of its first and last sightings |
| StoreModel.FileInLetters | SnapDesk/src/database/csv.cpp:32-55 | the text of the table file: its header, and the line that one more entry adds |
| Stores.Database.Record | SnapDesk/src/main.cpp:71-82 | the add-or-update round on the table file is the specified one |
| Stores.Database.RecordInStore | SnapDesk/src/database/database.cpp:90-104 | on the file of a store the round refines the insertion-ordered map for any output and dates, but for an empty output on a store with entries, which fails and changes nothing, and the text of a row with an empty output, which rewrites that row |
| RxBuffers.ReverseBits | beacon-sniffer/Ath9k/ath/ath9k/hw.c:154-164 | bit k of the result is bit n - 1 - k of the value |
| RxBuffers.ModifyRxBuffer | beacon-sniffer/Ath9k/ath/ath9k/ar5008_phy.c:111-135 | the buffer with the field put into the byte column, the whole buffer stated |
| RxBuffers.WriteSetsField | beacon-sniffer/Ath9k/ath/ath9k/ar5008_phy.c:111-135 | after a write the field holds the value's bits in opposite order and no other bit of the buffer has changed |
| RxBuffers.WritesCommute | beacon-sniffer/Ath9k/ath/ath9k/ar5008_phy.c:111-135 | writes to fields that do not overlap can be done in either order |
| RxBuffers.LastWriteWins | beacon-sniffer/Ath9k/ath/ath9k/ar5008_phy.c:111-135 | writing a field again leaves only the last value |
| IqCalibration.MagApproxBounds | beacon-sniffer/Ath9k/ath/ath9k/ar9003_calib.c:599-614 | the approximation lies between 19/20 z - 2 and 26/25 z + 1 for the true magnitude z |
| IqCalibration.MagZeroExactly | beacon-sniffer/Ath9k/ath/ath9k/ar9003_calib.c:599-614 | it is zero exactly for the zero vector |
| IqCalibration.UnscaledExactly | beacon-sniffer/Ath9k/ath/ath9k/ar9003_calib.c:726-740 | what is passed in is eight times the difference of two measurements, modulo 2^24 with its sign |
| IqCalibration.GuardFiresExactly | beacon-sniffer/Ath9k/ath/ath9k/ar9003_calib.c:726-746 | in 32-bit arithmetic the guard against dividing by zero fires if and only if the differences of both pairs of measurements are multiples of 2^24, which for smaller differences means that both pairs agree |
| IqCalibration.WrapFiresGuard | beacon-sniffer/Ath9k/ath/ath9k/ar9003_calib.c:726-746 | four measurements that pass the checks before and differ, with the guard firing all the same |
| IqCalibration.MagApproxFits | beacon-sniffer/Ath9k/ath/ath9k/ar9003_calib.c:599-614 | for components up to 2^30 the approximation stays inside of 32 bits; those passed in are at most 2^26 |
| OffsetDacs.Radio.DynamicOsdacSelection | beacon-sniffer/Ath9k/ath/ath9k/ar9003_calib.c:383-532 | for any readings the loop runs at most ten rounds less the initial settings, ends in the first round in which all chains are done or the hardware does not finish, and leaves each setting raised once per round out of range, up to 3; on success each chain's setting is 3 or all its six last offsets are from 7 to 24 |
| OffsetDacs.RaisedExactly | beacon-sniffer/Ath9k/ath/ath9k/ar9003_calib.c:470-524 | from one round to the next a setting below 3 rises by one if and only if one of the chain's six offsets is below 7 or above 24, and stays otherwise |
| OffsetDacs.RoundDoneExactly | beacon-sniffer/Ath9k/ath/ath9k/ar9003_calib.c:470-532 | a round is the last one if and only if each chain's setting is 3 or all its six offsets are from 7 to 24 |
| OffsetDacs.TenRounds | beacon-sniffer/Ath9k/ath/ath9k/ar9003_calib.c:383-532 | ten rounds are reached, and a chain that was done can fall back to not done |

## Left out

- DfsNoisyTrains.NoisyTrainIsReported: requires allocations to succeed and the last pulse to come a full train's length after time zero, because with a search window computed to begin in the future no earlier pulse is found (`EarlyTrainIsMissed`).
- DfsDetection.DetectionIsSound: requires the newest queued pulse to be less than 2^32 microseconds old; `ReportIsSoundExactly` is the exact form.
- PatternCompleteness.TrainIsAnswered: requires allocations to succeed, because the detectors of a channel share one source of memory; `TrainIsReportedExactly` is the exact form for one detector.
- StoreModel.RunRefinesExactly: requires outputs and dates that hold no delimiter or newline, and dates that are not empty, because other cells are not read back by later rounds; the last sighting of a run is free of this in `LastRefinesExactly`.
- KeyCaches.KeyCache.Delete: does not model what lies behind the bitmap, which the index of another slot of a TKIP key can reach.
- Kernel lists and C++ vectors are sequences held by the object that owns them; sharing of list nodes between lists is not modelled.
- Program trees are values; deleting nodes and printing them are left out.
- Pool statistics and sequence counters are unbounded integers; a wrap of the 32-bit statistics is not modelled.
- Unlocked increments of the pool statistics after an allocation are taken as atomic with it.
- BigNumbers.BigNumber.CutByte: does not model what an erase that begins behind the end of a vector does, which C++ leaves undefined; it is the error `PastTheEnd`.
- Cursor sums in buffers, and eight times the length of a number, are taken not to wrap around 2^64.
- Beacons.Frame.Decode: requires that frames of 24 to 27 bytes do not call themselves beacons, because the program then computes with a body of negative length.
- Beacons.Frame.Decode: does not model a frame object that is decoded again after a failed decode, because the program then deletes its old body twice.
- BigNumbers.BigNumber.ToSizeT: does not model the width of shifted bytes; the intended value is stated.
- Parsing of numbers follows the C++ library for the characters that occur; locale and errno are not modelled.
- The scratch buffer of `from_hex_string` and `front()` on an empty line are modelled by what they are meant to give.
- KeyCaches.KeyCache.ReserveTkip: the scan without combined MIC reads behind the bitmap once no whole group is free; what is read there is a parameter, and the key is then refused by the hardware check.
- Register writes of the key cache, of the radio and of the calibration, and what the hardware does with them.
- The rest of the I/Q calibration: solving for the mismatch, quantisation and the validity checks of its inputs.
- Metadata files of a table: the number of columns and the key column are fields.
- Files of different networks and scripts, folders, the hash of the script, dates, notifications' text, sleeping and restarting after an exception.
- Interference detection by other parts of the driver, regulatory code, transmission, antenna diversity and noise immunity, which depend on hardware state or tables outside of these files.
- SHA-256 is an arbitrary function; no property of it is used.
