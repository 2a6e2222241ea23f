# OBDentic: verified model of the diagnostic core

OBDentic reads vehicles through an ELM327-style adapter. This project models what
happens between the adapter's text and the facts shown to a user, and proves what
that code is meant to guarantee:

- **Reassembly** (`IsoTp`, `ReassemblyTable`, `Accounting`, `Reassembly`,
  `CompleteMessages`, `WholeMessages`, `StrayLines`, `Conversations`, `Interruptions`,
  `ArrivalOrder`, `TargetedReads`, `Normalizers`). The two ISO-TP normalizers read lines
  of several ECUs in any interleaving and keep a vector of partial messages that they
  update in place. `Normalizers` holds the loops, with a class for the three vectors;
  they are proved equal to a step function over frames (`IsoTp`), and everything else is
  proved about that function: it inverts segmentation (section 9.6 of ISO 15765-2:2016)
  for every merge of the responders' transmissions, responders do not influence each
  other, no line with data is lost silently, the vector refines a map, an answer free of
  issues holds complete messages only, and among issues it is known exactly which bytes
  were whole (`WholeMessages`). `StrayLines` and `Conversations` describe every line of
  a responder by its bytes and the frames before it, without the receiver's buffer, and
  the receiver agrees on all inputs; `Interruptions` says which lines leave a message
  whole and which destroy it.
- **Text** (`ElmText`, `Transcripts`, `ReplyLines`, `LineLayout`, `TextInterruptions`).
  The same down to characters: headers, hexadecimal pairs, echoes, progress and status
  lines, broken lines, blanks, prompts, upper and lower case.
- **Trouble codes** (`Dtc`, `DtcScan`, `DtcEvidence`). Decoding a Mode 03 payload, the
  scan from text to the sorted observations, end to end, and which lines make it decode
  something that was not whole.
- **The session** (`Adapter`, `ElmSession`, `Exchanges`, `ReadCosts`, `SupportChain`,
  `Addressing`, `Discipline`, `Targeting`, `TransportFailures`, `SessionActor`,
  `ActorRuns`, `ActorAnswers`). The adapter is an oracle: a list of fates decides for
  every command whether it is answered, answered badly or fails at the transport, and
  whether it took effect although it failed. `ElmSession` caches the adapter's
  addressing; `SessionActor` decides when a session is dead. Both are classes proved
  equal to state functions, about which is proved what every operation sends and when it
  succeeds (`Exchanges`), safety over all runs, and what every client is told
  (`ActorAnswers`).
- **Decoders and discovery** (`PidSupport`, `Mode01`, `SupportPages`, `SupportTexts`,
  `Identification`, `IdentificationDiscovery`), from the text of replies to support data
  and identifications.
- **Offline engines** (`Knowledge`, `Timeline`, `Replay`, `Navigation`,
  `CaptureReport`, `InventoryFacts`), over records that are already parsed.

`Prelude` and `Ordering` hold filters and a stable insertion sort by a lexicographic
key; the sort stands for `sort`, `sort_by` and `sort_unstable`, which agree wherever
the key decides equality.

## What the model shows about the code

- A headerless data line can equal the echo of the request and is then dropped
  (`ElmText.HeaderlessFrameTakenForEcho`); `ElmText.ClassifyRendered` gives the exact
  condition and `ElmText.HeaderedIsNeverEcho` shows that headers rule it out.
- Targeted identifier, multi-PID and session reads select the expected responder's
  bytes without looking at the issues (src/elm.rs:1158-1164). The bytes of an answer cut
  off after any number of frames are returned (`TargetedReads.TruncatedAnswerIsSelected`).
  An issue beside the answer does not settle it: a stray line after a whole answer is
  blamed too (`WholeMessages.StrayLineIsBlamed`). The exact condition can be read off the
  result: a selected answer was whole if and only if its responder has more matches than
  issues that come with incomplete bytes (`WholeMessages.SelectedIsWholeIff`). The
  identification classifier does look at the issues, and what it calls supported is
  exactly what it should be (`Identification.SupportedIffComplete`).
- The readers differ in what a stray line of the same ECU costs: UDS keeps a message in
  flight over undecodable and flow-control lines (`Interruptions.MuteLinesAreHarmless`),
  Mode 03 drops it and reports nothing of the ECU (`Interruptions.InterruptedScanIsEmpty`).
- Only complete messages are meant to enter trouble-code decoding
  (docs/research/obdium-communication-reference.md:316-317). The Mode 03 reader hands on
  what it has of a line that was cut off, and it is decoded
  (`DtcEvidence.TruncatedSingleIsDecoded`). What is decoded of an ECU was whole if and
  only if no line of it was a single frame cut off after a 43, a line that stops being
  hexadecimal and leaves a 43, or a full line without a well-formed answer
  (`DtcEvidence.DecodedIsWholeIff`). The last kind is reported as an error, so the codes
  reported come from whole messages if and only if no line of the first two kinds reads
  like an answer from its 43 on (`DtcEvidence.CodesAreWholeIff`).
- Functional operations re-initialize first when a targeted operation ran before
  (src/elm.rs:802-806), so that they only meet an initialized adapter. That holds for
  every run of the session actor (`ActorRuns.ActorIsSafe`) and for callers that stop
  using a session whose direct re-initialization failed (`Addressing.GuardedRunSafe`).
  For all callers, `Discipline.AllowedIffDisciplined` gives the exact condition: no
  functional request may follow such a failure on a session not marked dirty before a
  re-initialization succeeds or a targeted operation runs.
- The comment on the cached target says that it is empty whenever the adapter's headers
  are unknown or functional (src/elm.rs:807-810). The code keeps it when a
  re-initialization fails after its reset. `Targeting.StepTuned` proves that this is
  the only way in which the cache becomes wrong, `Targeting.StaleTargetIsBroadcast`
  what the next read then does, and `ActorRuns.ActorReadsStale` a run of the session
  actor on which it happens. `Targeting.TunedIffNoStaleRead` gives the exact condition
  for all callers, `ActorRuns.ActorTunedIff` for the actor: no read of the cached target
  may follow such a failure before the cache is dropped or set again.
- The responder label of a Mode 01 line is cut from the token list by a byte index. It
  is out of range exactly when a recognized frame is preceded by more bytes than the
  line has words (`Mode01.LabelOutOfRange`), never with a header or with one byte per
  word (`Mode01.LabelInRange`).
- A length-prefixed Mode 01 frame is misread in one case only, length 41 hexadecimal
  for PID 41 (`Mode01.PrefixedFrameDecodes`).
- The visible window of the capture viewer has its exact width unless the capture is as
  long as the clock can count (`Navigation.BoundsContainCursor`).

## Model

| member | source | states |
|---|---|---|
| `Normalizers.NormalizeIsotpResponses` | src/elm.rs:2683-2965 | The loop over raw lines with its three vectors computes, for any text, exactly the fold of the per-line step, the reports for unfinished messages and the final "not found" issue. |
| `Normalizers.NormalizeMode03Responses` | src/elm.rs:2082-2397 | The same for the Mode 03 reader, whose error and flow-control branches drop partial messages and whose garbled lines leave evidence. |
| `Normalizers.DecodeTokens` | src/elm.rs:2736-2765 | Token by token and pair by pair, decoding gives the bytes of the tokens before the first malformed one and says whether there was one. |
| `Normalizers.Reader.Forget` | src/elm.rs:2162-2167 | `position` then `remove` deletes exactly the one entry of the responder and keeps the order of the others. |
| `Normalizers.Reader.UdsSingleFrame` | src/elm.rs:2793-2826 | Zero length, truncation, bad padding and a good single frame: new matches and issues, table untouched. |
| `Normalizers.Reader.FirstFrame` | src/elm.rs:2827-2866 | Short, badly sized, duplicate (which drops the partial message) and good first frames, in place. |
| `Normalizers.Reader.ConsecutiveFrame` | src/elm.rs:2867-2936 | Orphan, short, out of sequence, overlong, partial and completing consecutive frames: the new table and either issues or the completed payload. |
| `Normalizers.Reader.UdsFrame` | src/elm.rs:2792-2944 | Dispatch on the high nibble, as one step of the whole state. |
| `Normalizers.Reader.UdsLine` | src/elm.rs:2693-2945 | One raw line, from trimming to the updated vectors, is one step on its classification. |
| `Normalizers.Reader.Mode03SingleFrame` | src/elm.rs:2188-2232 | The same for Mode 03, with its stricter padding and its search for the service byte. |
| `Normalizers.Reader.Mode03Frame` | src/elm.rs:2187-2376 | Mode 03 dispatch: flow control and unframed lines end a partial message. |
| `Normalizers.Reader.Mode03Garbled` | src/elm.rs:2160-2185 | A line that stops being hexadecimal drops the partial message of a segment, or keeps what follows a 43 as evidence. |
| `Normalizers.Reader.Mode03Line` | src/elm.rs:2087-2377 | One raw line of a Mode 03 answer is one step. |
| `Normalizers.Reader.ReportTruncated` | src/elm.rs:2947-2957 | Unfinished messages are reported in table order; UDS also hands over their bytes. |
| `ReassemblyTable.RunKeeps` | src/elm.rs:2827-2936 | Over any input the table has pairwise distinct responders, declared lengths from 3 to 4095, fewer bytes received than declared, and sequence numbers below 16. |
| `ReassemblyTable.AlwaysRoomForConsecutive` | src/elm.rs:2899-2911 | The "exceeded" branch for a message that is already complete is unreachable and the remaining length never underflows. |
| `ReassemblyTable.TrailGathers` | src/elm.rs:2924-2931 | A frame that keeps a message open extends the frames accepted so far: the bytes are theirs and the next sequence number is their count modulo 16. |
| `ReassemblyTable.RunGathers` | src/elm.rs:2827-2936 | Over any run and any interleaving a partial message of a responder consists of the last first frame that this responder sent and every consecutive frame it sent after it: none was passed over, they are numbered 1, 2, ... modulo 16, the bytes are theirs, and the next sequence number is one plus their count modulo 16. |
| `ReassemblyTable.LookupPut` | src/elm.rs:2847-2865 | Writing one responder's slot changes that responder's slot and no other. |
| `ReassemblyTable.RunRefinesMap` | src/elm.rs:2827-2936 | The association list refines a map from responder to partial message: every run on the list is the run on the map. |
| `ReassemblyTable.CollectedOnly` | src/elm.rs:2693-2957 | Whatever the other responders send and however lines interleave, table, matches and issues of a responder are those of its own lines alone. |
| `ReassemblyTable.NonInterference` | src/elm.rs:2693-2964 | The same after the final "not found" issue, with the exact condition under which that anonymous issue differs. |
| `ReassemblyTable.SelectedMeans` | src/elm.rs:647-666 | A targeted read succeeds exactly when the expected responder answered and all its answers carry the same bytes, which are the result. |
| `ReassemblyTable.FailureMeans` | src/elm.rs:647-666 | And how it fails: nobody answered, only others answered (the first of them is named), or the expected responder contradicts itself. |
| `ReassemblyTable.TargetedPayloadIsLocal` | src/elm.rs:1518-1539 | Whether a targeted read succeeds, and with which bytes, depends on the expected responder's lines only. |
| `Accounting.NothingLost` | src/elm.rs:2792-2944 | A line leaves neither match nor issue exactly when it is blank or lets a partial message begin or grow. |
| `Accounting.NoSilentLoss` | src/elm.rs:2683-2957 | Over any input an answer holds nothing of a responder exactly when that responder sent blank lines only. |
| `Reassembly.ReassemblyInvertsSegmentation` | src/elm.rs:2792-2957 | For any responders, any messages of 1 to 4095 bytes each, any padding allowed by the reader and any merge of their frames: one match per message, in completion order, equal to its payload, nothing left and no issue. |
| `Reassembly.FaithfulIsExact` | src/elm.rs:2683-2965 | If each responder's own frames are received cleanly, so is every interleaving, and the matches are the labelled payloads in the order of their last frames. |
| `CompleteMessages.FaithfulIffComplete` | src/elm.rs:2082-2965 | For both readers, reception without complaint is the same as complete messages, described without the receiver: exact single frames, and a lane of first frames, each followed by its own numbered consecutive frames up to the declared length; unframed lines stand anywhere for UDS and between messages for Mode 03, whose payloads must be well-formed answers. |
| `CompleteMessages.CleanIffComplete` | src/elm.rs:2082-2965 | No silent truncation, in both readers: no issue names a responder if and only if it sent nothing but complete messages. |
| `CompleteMessages.CompleteMatches` | src/elm.rs:2792-2957 | And then its matches are exactly those messages, in order of completion. |
| `TargetedReads.TargetedReadSurvivesNoise` | src/elm.rs:1518-1539 | If the expected responder sends one message, a targeted read returns exactly its payload, whatever other responders, status lines and garbage come between its frames. |
| `TargetedReads.TruncatedAnswerIsSelected` | src/elm.rs:2947-2957 | Cut off after any number of its frames, a segmented answer is selected like a whole one: the read returns exactly the bytes that arrived, with one truncation issue beside them, whatever other lines there are. |
| `TargetedReads.FirstFrameIsSelected` | src/elm.rs:2947-2957 | The same for a lone first frame of any size. |
| `TargetedReads.SelectedFromCleanResponder` | src/elm.rs:1518-1539 | Of everything the responder sent: no issue names it if and only if it sent nothing but complete messages, and then all of them equal the selected answer. |
| `WholeMessages.CleanIffWhole` | src/elm.rs:2792-2944 | For both readers a line hands over a payload without an issue exactly when it completes a message with that payload: a frame that stands alone, an unframed line, or the last frame after the responder's last first frame and all consecutive frames since, carrying the missing bytes. |
| `WholeMessages.CleanIsWhole` | src/elm.rs:2792-2944 | Over any lines, the payloads handed over without an issue are exactly those completed by some line. |
| `WholeMessages.MatchesAreWholeOrSalvaged` | src/elm.rs:2792-2957 | For any UDS input a responder has one match for every whole message and one for every issue of a truncated, trailing or unfinished frame that comes with bytes, and no others. |
| `WholeMessages.SelectedIsWholeIff` | src/elm.rs:1158-1164 | A selected answer was completed by some line of the expected responder if and only if the responder has more matches than issues that come with incomplete bytes. |
| `WholeMessages.SelectedFromTextIsWholeIff` | src/elm.rs:1518-1539 | The same of any reply text. |
| `WholeMessages.AllWholeIffNotSalvaged` | src/elm.rs:2683-2965 | Everything handed over of a responder was whole if and only if no such issue names it. |
| `WholeMessages.StrayLineIsBlamed` | src/elm.rs:2937-2943 | A whole answer followed by a flow-control line is selected, whole, and yet has an issue that names its responder. |
| `Conversations.ConversationIsExact` | src/elm.rs:2792-2957 | For both readers, any responder and any other traffic: when each of its lines is labelled with what it adds, judged by the line's bytes and the raw frames in flight, the answer holds exactly these payloads and issues, and the truncated rest. |
| `Conversations.EveryConversation` | src/elm.rs:2082-2397 | Every sequence of lines can be labelled so; together: the receiver with its buffer, length and number refines the one that keeps the frames. |
| `StrayLines.PassiveHeard` | src/elm.rs:2792-2944 | Reports, undecodable lines (for Mode 03 unless they start like a segment), single frames and nonsensical first frames, and for UDS flow control and unframed lines, add what their bytes say and leave the message in flight alone. |
| `StrayLines.BreaksHeard` | src/elm.rs:2187-2376 | Another first frame, an empty, misnumbered or overlong consecutive frame and, for Mode 03, flow control, unframed and undecodable segment lines end the message in flight with the issue that belongs to each. |
| `Interruptions.CompleteWithAsides` | src/elm.rs:2792-2957 | Complete messages of a responder with passive lines of its own anywhere among their frames: the answer holds all of them and what each passive line adds, in order. |
| `Interruptions.MuteLinesAreHarmless` | src/elm.rs:2766-2769 | UDS: if a responder's lines are the frames of one message with undecodable and flow-control lines anywhere among them, the answer holds exactly the payload, the read selects it, and there is exactly one issue for each such line, in order. |
| `Interruptions.InterruptedIsLost` | src/elm.rs:2827-2936 | A message interrupted after any number of its frames leaves nothing but the issue that says why, and what follows is read as if the responder had said nothing before. |
| `Interruptions.InterruptedScanIsEmpty` | src/elm.rs:2350-2376 | Mode 03: a flow-control, unframed, empty or undecodable segment line between the frames of an ECU's message leaves no match of that ECU; the issues are the reason and one orphan for each remaining frame. |
| `Interruptions.InterruptedScanReportsNothing` | src/elm.rs:2350-2376 | So the scan reports no code and no error of that ECU. |
| `Interruptions.CutOffMessage` | src/elm.rs:2947-2957 | Cut off after any number of frames, with other lines among them: UDS hands over the bytes that arrived, Mode 03 nothing, and both report the truncation. |
| `ArrivalOrder.TruncatedInOrder` | src/elm.rs:2947-2957 | At the end of an answer come the reports of the unfinished messages, one each, in the order in which their responders sent their last first frames. |
| `ElmText.ClassifyRendered` | src/elm.rs:2693-2790 | A printed frame is read back as that frame unless the line is empty or equals the request echo. |
| `ElmText.HeaderedIsNeverEcho` | src/elm.rs:2699-2704 | With a three-character header and an echo of even length a line is never taken for the echo. |
| `ElmText.HeaderlessFrameTakenForEcho` | src/elm.rs:2699-2704 | Without a header it can be: the frame 22 F1 8C is lost in the answer to 22F18C. |
| `ElmText.SplitTranscript` | src/elm.rs:2693-2697 | Splitting a printed transcript at line ends gives back its lines and the prompt. |
| `ReplyLines.ProgressIsInvisible` | src/elm.rs:2700-2705 | Lines that begin with SEARCHING, or with BUS INIT and hold no ERROR, in either case and behind blanks, leave the answer of both reassembling readers unchanged wherever they stand. |
| `ReplyLines.ProgressIsInvisibleToMode01` | src/elm.rs:2536-2541 | And the reading of the Mode 01 reader, its failures included. |
| `ReplyLines.SkippedIff` | src/elm.rs:2693-2705 | A line is skipped if and only if it is empty, the echo, or such a progress message. |
| `ReplyLines.RejectedIff` | src/elm.rs:2706-2717 | A line is reported as a rejection if and only if it holds one of the five status texts and is not skipped; UDS blames nobody, Mode 03 the first word if it has three characters. |
| `ReplyLines.StatusAddsOneIssue` | src/elm.rs:2112-2121 | A status line anywhere in a reply adds exactly this one issue and changes no match. |
| `ReplyLines.RefusalEndsReading` | src/elm.rs:2543-2550 | A line with a failure text, or a lone question mark, ends a Mode 01 reading as rejected wherever it stands, unless an earlier line has ended it already. |
| `LineLayout.CaseDoesNotMatter` | src/elm.rs:2698-2776 | A line in lower case is read like the line in upper case by both reassembling readers. |
| `LineLayout.CaseDoesNotMatterToMode01` | src/elm.rs:2534-2637 | And by the Mode 01 reader, responder labels included. |
| `LineLayout.LayoutDoesNotMatter` | src/elm.rs:2693-2776 | Hexadecimal words are read alike however many blanks stand before, between and behind them and whether or not prompts follow. |
| `LineLayout.BrokenHeaderIsReported` | src/elm.rs:2721-2731 | A first word of three characters that is not hexadecimal, and nothing else, is reported as a broken header. |
| `LineLayout.BrokenDataIsGarbled` | src/elm.rs:2736-2769 | A line whose data stop being hexadecimal holds the bytes before the first broken word, whatever follows it. |
| `LineLayout.BrokenLineFails` | src/elm.rs:2551-2576 | For Mode 01 a headered line with broken data ends the reading as a malformed line. |
| `LineLayout.DataIsFrame` | src/elm.rs:2777-2790 | Hexadecimal words of any length are one frame, unless an identifier read takes it for a stale Mode 01 answer. |
| `LineLayout.LinesEnd` | src/elm.rs:2693 | Carriage returns and line feeds both end a line, wherever they stand. |
| `TextInterruptions.BrokenLinesAreHarmless` | src/elm.rs:2766-2769 | On text: whatever broken lines of the responder the adapter prints among the frames of its message, a UDS read of the reply holds exactly the payload, with one issue for each broken line, and selects it. |
| `TextInterruptions.ProgressInText` | src/elm.rs:2693-2705 | Progress messages anywhere in the text of a reply leave its reading unchanged. |
| `TextInterruptions.ProgressInMode01Text` | src/elm.rs:2532-2541 | And in the text of a Mode 01 reply. |
| `Transcripts.TranscriptReadsBack` | src/elm.rs:2683-2965 | Printing headered frames and normalizing the text is normalizing the frames. |
| `Transcripts.SegmentStale` | src/elm.rs:2777-2790 | A frame of a segmented message is dropped as a stale Mode 01 answer exactly when the message is a single frame starting with 41. |
| `Transcripts.TextReassembly` | src/elm.rs:2683-2965 | Reassembly inverts segmentation on text: segment, merge, print and normalize gives one match per message, in completion order, and no issue. |
| `Ordering.SortIsCanonical` | src/dtc.rs:246-260 | Sorting by a key that tells the elements apart depends only on how often each element occurs. |
| `Ordering.SortIsStable` | src/capture_tui.rs:354-357 | Elements of equal time keep their order. |
| `Dtc.DecodePairs` | src/dtc.rs:264-308 | The pair loop returns the codes before the first zero pair and whether only zeros follow it. |
| `Dtc.DecodeMode03Payload` | src/dtc.rs:262-308 | The decoder with its errors, its compact "no codes" answer, sorting and deduplication is the specification that the next rows characterize. |
| `Dtc.SortedCodesAreTheSet` | src/dtc.rs:300-308 | The reported list is strictly ascending and holds exactly the codes that were sent. |
| `Dtc.CodeKeyOrder` | src/dtc.rs:15-44 | The sort key is the derived order of codes: system first, then number. |
| `Dtc.SameSetSameReport` | src/dtc.rs:300-308 | The report is a function of the set of codes. |
| `Dtc.DecodeInvertsEncode` | src/dtc.rs:262-308 | Codes encoded with any number of trailing zero pairs decode to their sorted set. |
| `Dtc.DecodesExactlyEncodings` | src/dtc.rs:262-308 | A payload is accepted if and only if it is the compact answer or such an encoding of the reported codes. |
| `Dtc.DecodeErrors` | src/dtc.rs:262-308 | Another service byte is an unknown response; everything else that is not accepted is malformed. |
| `Dtc.ReportMeans` | src/dtc.rs:300-308 | No codes are reported as such, and any codes as the ascending list of them. |
| `Dtc.TextOfBytes` | src/dtc.rs:24-60 | The two high bits of a pair choose P, C, B or U, and the other hexadecimal digits print the rest of the pair. |
| `DtcScan.DecodeMode03` | src/dtc.rs:246-260 | One observation per answer, errors attached to their responder, sorted. |
| `DtcScan.ObservationKeyInjective` | src/dtc.rs:213-217 | The order of observations tells any two different observations apart. |
| `DtcScan.ObservationOrder` | src/dtc.rs:213-217 | The sort key is the derived order: unknown sources first, then by name; no codes, then lists of codes in order, then errors. |
| `DtcScan.ObservationMeans` | src/dtc.rs:246-258 | An answer is one observation of its responder, holding what it decodes to or the decoding error. |
| `DtcScan.ScanIsOrderFree` | src/dtc.rs:246-260 | The scan result does not depend on the order of the answers. |
| `DtcScan.ScanIsExact` | src/dtc.rs:246-308 | End to end: encode every ECU's codes, segment, merge in any order, print, normalize, decode; the result is the sorted list of every ECU's code set, the same for every interleaving, without issues. |
| `DtcEvidence.ReportsAreComplete` | src/elm.rs:2187-2388 | Of everything an ECU sent: no issue names it exactly when it sent complete messages only, and then the scan reports exactly what these messages decode to. |
| `DtcEvidence.TruncatedSingleIsDecoded` | src/elm.rs:2198-2213 | A single frame cut off after its service byte is handed on and decoded as if it were whole. |
| `DtcEvidence.DecodedIsWholeIff` | src/elm.rs:2160-2376 | What is decoded of an ECU is its whole messages and nothing else if and only if none of its lines was a single frame cut off after a 43, stopped being hexadecimal and left a 43, or was a full single frame, or an unframed line with nothing in flight, without a well-formed answer. |
| `DtcEvidence.CodesAreWholeIff` | src/elm.rs:2160-2376 | The payloads of an ECU that decode are its whole messages that decode if and only if no line of the first two kinds decodes from its 43 on. |
| `DtcEvidence.ReportedCodesAreWhole` | src/dtc.rs:246-260 | Then every report of the ECU other than a decoding error is what one of its whole messages decodes to. |
| `DtcScan.Scan` | src/main.rs:1165-1180 | The composition of reader and decoder: for all ECUs and every interleaving of their frames, the printed answer gives the sorted list of every ECU's code set. |
| `PidSupport.ShiftsAgree` | src/elm.rs:1629-1633 | The bit positions used for the merged status, the bitmap test and the per-responder view are the same for every PID from 1 to 255, and a continuation PID is the last bit of its page. |
| `PidSupport.ContinuationByte` | src/functional_discovery.rs:136-150 | Testing the last payload byte for a continuation is testing bit 0 of the bitmap. |
| `PidSupport.MergeHasBit` | src/elm.rs:2499-2508 | A merged bitmap has a bit exactly when some responder's bitmap has it. |
| `PidSupport.AddPageKeepsBuilt` | src/elm.rs:699-729 | Adding the answers of the next page keeps the chain unbroken and every merged bitmap the union of the recorded answers. |
| `PidSupport.MergedSupported` | src/elm.rs:163-174 | Merged status is Supported if and only if some recorded page of some responder has the bit. |
| `PidSupport.CapabilityMeaning` | src/functional_discovery.rs:192-228 | A responder's own view is exactly what its own answers say: all have the bit, none has it, or the page before never advertised this one. |
| `PidSupport.CapabilityImpliesMerged` | src/functional_discovery.rs:192-228 | If the merged view says Unsupported, no responder's own view says Supported. |
| `PidSupport.MergedUnknown` | src/elm.rs:163-174 | Merged status is Unknown exactly for PIDs beyond the queried pages, which are exactly those whose page nobody answered; so a PID is never reported unsupported without an answer on its page. |
| `SupportPages.ReadSupportPage` | src/elm.rs:2494-2521 | Reading a page or-merges all answers and sorts the records by responder and payload; for the text printed when any responders answer it returns exactly their bitmaps and their union. |
| `SupportPages.PageIsOrderFree` | src/elm.rs:2509-2515 | The page, its records included, does not depend on the order of the answers. |
| `SupportPages.AnswerOrder` | src/elm.rs:2509-2515 | The sort key of the records is responder first, without a header before any header, then payload. |
| `SupportPages.PageReadsBack` | src/elm.rs:2523-2642 | Printing the answers of several responders and reading the lines gives exactly these answers. |
| `SupportPages.FrameReads` | src/elm.rs:2523-2642 | A headered, length-prefixed frame is read as that responder's answer with its own data. |
| `SupportPages.PrintedStatus` | src/elm.rs:699-729 | End to end: once the page is added, a PID of it is supported in the merged view exactly when some responder printed its bit. |
| `SupportPages.PrintedInByte` | src/elm.rs:2499-2508 | The bit of a PID in the printed bytes: the first PID of a page is the highest bit of the first byte, the last one the lowest of the fourth. |
| `Adapter.HealthTap.Exchange` | src/ble.rs:859-871 | Every transport failure of an exchange is recorded, whoever sees its result. |
| `Adapter.HealthTap.TakeTransportFailure` | src/ble.rs:854-856 | Taking the record returns and clears it. |
| `ElmSession.ElmSession.DiscoverSupport` | src/elm.rs:699-729 | The page loop stops at the first failure or the last advertised page and replaces the support data only on success. |
| `ElmSession.ElmSession.ReinitializeSession` | src/elm.rs:857-864 | Reset, setup, discovery; flags and cached target change only on full success. |
| `ElmSession.ElmSession.EnsureFunctional` | src/elm.rs:868-873 | Re-initializes exactly when the session is marked dirty, and costs nothing otherwise. |
| `ElmSession.ElmSession.RestoreFunctionalAddressing` | src/elm.rs:876-880 | Drops the cached target and keeps the session marked dirty, whether or not the restore commands succeed. |
| `ElmSession.ElmSession.RequestFunctional` | src/elm.rs:882-919 | Functional requests go out after that, each only if the previous one was accepted. |
| `ElmSession.ElmSession.ReadKeepingTarget` | src/elm.rs:1414-1458 | A read of a cached target marks the session dirty, sets header and filter up only when the target changes, and drops the cache when setup, exchange or (for single Mode 01 reads) parsing fails. |
| `ElmSession.ElmSession.ReadRestoringFunctional` | src/elm.rs:1181-1261 | A self-contained read drops the cache, marks the session dirty, asks a stale answer once more and restores functional addressing on every path, also after a failed setup. |
| `ElmSession.ElmSession.Execute` | src/elm.rs:849-1272 | Every operation has exactly the effect on adapter and session that the transition function says. |
| `Exchanges.AfterRecords` | src/ble.rs:859-871 | Commands sent one after the other leave one log entry each, with the outcome that was due, and use up one fate each. |
| `Exchanges.ReadPidExact` | src/elm.rs:1310-1400 | On a session not marked dirty a PID that is not advertised is not asked for; otherwise a stale first answer is asked for once more, and the read returns true if and only if the first answer is accepted, or is stale and the second one is accepted. The log is given exactly. |
| `Exchanges.ReadPidSucceedsIff` | src/elm.rs:895-919 | The same for any session: and functional addressing must be established. |
| `Exchanges.EstablishExact` | src/elm.rs:882-885 | The probe is one request and succeeds if and only if it is accepted. |
| `Exchanges.IdentifyExact` | src/elm.rs:887-890 | The VIN is asked for only after an accepted probe, and both must be accepted. |
| `Exchanges.ReadBroadcastExact` | src/elm.rs:1265-1272 | A broadcast read is one request and succeeds with any parsed answer. |
| `Exchanges.DirtyReinitializes` | src/elm.rs:868-873 | On a session marked dirty a functional operation is a re-initialization and, if that succeeds, the operation on its result. |
| `Exchanges.ReinitializeExact` | src/elm.rs:857-864 | Re-initialization sends reset and five setup commands until one is not acknowledged, then discovers; only full success changes more than the adapter. |
| `Exchanges.DiscoverExact` | src/elm.rs:699-729 | Discovery asks for page after page up to the first reply that is no page or advertises none, and succeeds if and only if that reply is a page. |
| `Exchanges.RestoreExact` | src/elm.rs:876-880 | Restoring sends one or two commands; cache and mark are the same whether or not it succeeds. |
| `Exchanges.CachedExact` | src/elm.rs:1414-1458 | A read of the cached target is one exchange; it succeeds if and only if the answer is accepted, and the cases in which the target is forgotten are exact. |
| `Exchanges.UncachedExact` | src/elm.rs:1414-1458 | A read of another target sets header and filter first; without both acknowledged it fails and forgets the target. |
| `Exchanges.SelfContainedExact` | src/elm.rs:1181-1261 | Commands, result and state of a self-contained read: setup, one request (two if an identification read gets a stale answer), restoring on every path; it succeeds if and only if setup and restoring are acknowledged and the last answer is good enough. |
| `Exchanges.RestoreWires` | src/elm.rs:876-880 | Restoring that succeeds leaves the functional header and no filter. |
| `Exchanges.SelfContainedWires` | src/elm.rs:1181-1261 | So does a self-contained read that succeeds. |
| `Addressing.StepSafe` | src/elm.rs:857-880 | After one operation, whatever the adapter does: every functional request met a completely initialized adapter, a cached target implies the dirty mark, and the mark is truthful except after a failed direct re-initialization of a clean session. |
| `Addressing.AllowedEverywhere` | src/elm.rs:802-806 | A log is allowed exactly when every functional request in it met a completely initialized adapter and every support page was the next one advertised. |
| `Addressing.RunSafe` | src/elm.rs:849-1272 | The same over every run without direct re-initialization and every placement of faults. |
| `Addressing.GuardedRunSafe` | src/mobile.rs:100-112 | And over runs of a caller that re-initializes directly but stops using a session whose re-initialization failed. |
| `Discipline.StepExact` | src/elm.rs:857-873 | One operation, exactly: its log stays allowed unless it sends a functional request while the session is not marked dirty without being initialized. |
| `Discipline.AllowedIffDisciplined` | src/elm.rs:849-1272 | Over any run and any placement of faults: functional requests only meet a completely initialized adapter if and only if none is sent between a direct re-initialization that returned false on a session not marked dirty and the next successful one or targeted operation. |
| `Discipline.UnguardedReinitialization` | src/elm.rs:857-864 | Right after such a failure the log stays allowed exactly for operations that send no functional request. |
| `Targeting.StepTuned` | src/elm.rs:1414-1458 | From a right cache, targeted requests meet header and filter of their target, and the cache stays right if and only if the operation was not a re-initialization that failed after its reset. |
| `Targeting.StepStale` | src/elm.rs:1414-1458 | One operation from any cache, right or stale, that is not a read of a stale target: its targeted requests meet their target, and the cache is stale afterwards exactly when a re-initialization failed that found a stale cache or reset the adapter. |
| `Targeting.TunedIffNoStaleRead` | src/elm.rs:849-1272 | Over any run and any placement of faults: every targeted request meets its own target's header and filter if and only if no read of the cached target happens between a failed re-initialization that reset the adapter and the next operation that drops or sets the cache. |
| `Targeting.RunTuned` | src/elm.rs:1414-1458 | In particular over every run without such a re-initialization; the cache is right at its end. |
| `Targeting.StaleTargetIsBroadcast` | src/elm.rs:857-864 | After such a re-initialization the next read of the cached target is sent without header and filter. |
| `Targeting.StaleReadIsUntuned` | src/elm.rs:857-864 | So a run that half re-initializes and then reads the cached target sends a targeted request with the wrong wiring. |
| `Targeting.HalfReinitializationHappens` | src/elm.rs:857-864 | A concrete run over concrete adapter answers does so. |
| `ReadCosts.RepeatedReadsCost` | src/elm.rs:1414-1458 | n reads of one target without faults cost two setup commands at most once, then n commands. |
| `SupportChain.SupportIsMaximalChain` | src/elm.rs:699-729 | After a successful re-initialization the queried pages are exactly the maximal chain of advertised continuations, at most eight, and the bitmaps are unions of recorded answers. |
| `SupportChain.DiscoveryIsChain` | src/elm.rs:699-729 | Whatever the replies: discovery finds n pages if and only if the first n replies are pages, each advertising the next and the last none, and then it finds those pages. |
| `SupportTexts.ReinitializedFromTexts` | src/elm.rs:699-729 | The same of re-initialization and of any texts the adapter prints. |
| `SupportTexts.PrintedSupport` | src/elm.rs:857-864 | End to end: when responders print bitmaps, re-initialization finds n pages if and only if on each page but the n-th some responder prints the bit of the next page; then a PID is supported if and only if some responder printed its bit, unsupported if its page was answered without it, and unknown beyond the pages. |
| `SupportTexts.ProgressKeepsAnswers` | src/elm.rs:2536-2541 | Progress messages anywhere in the reply for a page do not change the answers found in it. |
| `SessionActor.SessionHealth.Observe` | src/ble.rs:796-810 | The streak counts transport failures in a row, a data error resets it, and the second one is fatal. |
| `SessionActor.RequestServiceEstimator.Observe` | src/ble.rs:503-509 | Keeps the slowest service time, at least one nanosecond. |
| `SessionActor.DiagnosticSession.DisconnectBestEffort` | src/ble.rs:1068-1073 | Only an open link is disconnected. |
| `SessionActor.ActorLoop.Settle` | src/ble.rs:696-736 | The outcome of a read updates health, estimate and link, disconnects on the fatal failure, and is replaced by a refusal when the session is dead already. |
| `SessionActor.ActorLoop.ProcessRead` | src/ble.rs:543-562 | A read command on a dead session is refused without touching the adapter; otherwise it runs and its outcome is settled. |
| `SessionActor.ActorLoop.Loop` | src/ble.rs:534-694 | The command loop computes the run function for any list of commands. |
| `TransportFailures.OperationHeard` | src/ble.rs:841-871 | Any transport failure inside an operation makes the operation fail, and the tap is set exactly when there was one. |
| `ActorRuns.ReadKeepsInv` | src/ble.rs:696-736 | The tap is empty at every command boundary, and the streak and the link reflect the reads executed so far. |
| `ActorRuns.FinishedRun` | src/ble.rs:534-694 | In every finished run the link is disconnected exactly once, and the session is dead exactly when two executed reads in a row failed at the transport; those two are the last ones executed, and no earlier pair is like that. |
| `ActorRuns.DeadSessionIsSilent` | src/ble.rs:544-548 | After that no exchange happens again and every read is refused with the same error. |
| `ActorAnswers.EveryCommandAnswered` | src/ble.rs:534-736 | In every run each command up to the shutdown is answered exactly once, in order: a read with success if and only if its operation returned true, with the refusal exactly from the fatal read on, and with failure otherwise; the questions with the support data of the live session and the slowest completed read. |
| `ActorRuns.ActorIsSafe` | src/ble.rs:534-694 | Over all commands and faults the actor sends functional requests to a completely initialized adapter only. |
| `ActorRuns.ActorTunedIff` | src/ble.rs:534-694 | Over all commands and faults the actor's targeted reads meet their own target's header and filter if and only if it executes no read of a stale cached target. |
| `ActorRuns.ActorReadsStale` | src/ble.rs:534-694 | Three commands of a client and concrete adapter answers make it execute one. |
| `Mode01.FindPair` | src/elm.rs:2592-2596 | Finds the first `41 PID` at or after a position, or shows that there is none. |
| `Mode01.HitIsComplete` | src/elm.rs:2597-2618 | A recognized answer is complete, sits at the start or after its length byte, and is followed by padding only. |
| `Mode01.ScanBytes` | src/elm.rs:2591-2637 | The search loop, which may push several answers, terminates and pushes at most one. |
| `Mode01.PrefixedFrameDecodes` | src/elm.rs:2591-2637 | A length-prefixed frame decodes to its own data, even if that data contains `41 PID`, if and only if it is not a frame of length 41 hexadecimal for PID 41. |
| `Mode01.BareFrameDecodes` | src/elm.rs:2591-2637 | So does a frame without length byte. |
| `Mode01.AnswersHaveRequestedSize` | src/elm.rs:2523-2642 | Every answer of any line is `41 PID` and exactly the requested number of bytes, so the conversions downstream cannot fail. |
| `Mode01.LabelInRange` | src/elm.rs:2549-2631 | With a header, or with one byte per token, the responder label never slices out of range. |
| `Mode01.LabelOutOfRange` | src/elm.rs:2621-2628 | For a line of any words, each printing any number of bytes, the label slices out of range exactly when there are several words, the line is not a negative response, and a recognized frame is preceded by more bytes than the line has words. |
| `Mode01.PackedHeaderOutOfRange` | src/elm.rs:2621-2628 | For header and frame printed as one word each: exactly for headers longer than two bytes. |
| `Mode01.LabelIsPrefix` | src/elm.rs:2617-2630 | Printed byte by byte without a header, a recognized frame is labelled with the bytes before it, if there are any. |
| `Mode01.NegativeMeans` | src/elm.rs:2578-2588 | A line fails as negative if and only if its bytes are a negative response, bare or behind a length byte that fits. |
| `Mode01.EchoIsSkipped` | src/elm.rs:2536-2541 | The request printed back, in words of any length, is skipped. |
| `Mode01.EchoIsRequest` | src/elm.rs:2536-2541 | And bytes print like the echo only if they are the request. |
| `Mode01.NormalizeMode01` | src/elm.rs:1927-1936 | Reading all lines; every answer of a successful reading has the requested size. |
| `Mode01.ReadingIsSized` | src/elm.rs:2494-2521 | A successful reading is not empty, has at most one answer per line, all of the requested size. |
| `Identification.Classify` | src/ecu_identification_discovery.rs:159-236 | The classifier's branches and error list; its result always satisfies the status rules and is never "not probed". |
| `Identification.AgreedStatus` | src/ecu_identification_discovery.rs:159-248 | One agreed answer is supported with its value, refused with the status that belongs to its reason, or malformed; the notes are exact. |
| `Identification.SilentStatus` | src/ecu_identification_discovery.rs:159-236 | Without an answer of the expected responder: unavailable if nothing arrived and the adapter rejected the request or nothing went wrong for it, malformed otherwise. |
| `Identification.UnclearStatus` | src/ecu_identification_discovery.rs:159-236 | Answers that contradict each other, or come with an issue of their responder, are malformed, with the note that says which. |
| `Identification.ClearAgrees` | src/ecu_identification_discovery.rs:159-236 | These three cases are all there are. |
| `Identification.RefusedIffComplete` | src/ecu_identification_discovery.rs:99-248 | From text: refused for a reason, with the status that belongs to it, if and only if the deciding text holds nothing of the expected responder but complete messages that all say so. |
| `Identification.RetryKeepsIssues` | src/elm.rs:1203-1215 | After a retry the answer is that of the retry, and the stale lines of the first reply stay in the evidence. |
| `Identification.ConsistentMeans` | src/ecu_identification.rs:203-249 | What an entry may hold: a value exactly if supported, a reason only for refusals, unavailability and malformed answers, and so on. |
| `Identification.SupportedIffComplete` | src/ecu_identification_discovery.rs:99-236 | An identification is Supported with a value if and only if the value is not empty and the deciding text holds nothing of the expected responder but complete messages that all equal the positive answer to this identifier with that value. |
| `IdentificationDiscovery.EligibleMappingsExactly` | src/ecu_identification_discovery.rs:81-97 | The eligible mappings, each as often as given, in sorted order and nothing else. |
| `IdentificationDiscovery.PairAt` | src/ecu_identification_discovery.rs:34-41 | The entries are exactly mappings times candidates, row by row. |
| `IdentificationDiscovery.Probe` | src/ecu_identification_discovery.rs:37-76 | One entry: skipped once the session is unavailable, otherwise classified or recorded as failed. |
| `IdentificationDiscovery.DiscoverKnownEcus` | src/ecu_identification_discovery.rs:27-79 | The nested loops produce the expected entry for every pair, in order, with the number of reads issued, or report an entry that breaks its own rules. |
| `IdentificationDiscovery.SucceedsIffRecordable` | src/ecu_identification.rs:189-253 | Whatever the session answers, discovery succeeds exactly when every mapping and candidate can be recorded at all. |
| `IdentificationDiscovery.DiscoveryShape` | src/ecu_identification_discovery.rs:27-79 | After the first fatal failure every entry is NotProbed and nothing more is read; before it none is; every entry satisfies the status rules. |
| `IdentificationDiscovery.EntryMeans` | src/ecu_identification_discovery.rs:37-76 | Each entry is skipped after a fatal failure, or the classified answer, or a timeout or transport error as the failure says, with its exact notes. |
| `Knowledge.EvaluateCandidate` | src/effective_knowledge.rs:306-341 | The loop with its two flags gives exact, partial or no match. |
| `Knowledge.FitMeans` | src/effective_knowledge.rs:306-341 | A fingerprint is excluded by any conflicting fact, whatever is missing; exact if all its facts are known and equal; partial otherwise. |
| `Knowledge.OrderIndependent` | src/effective_knowledge.rs:244-304 | Resolution does not depend on the order of definitions. |
| `Knowledge.SelectedIsWinner` | src/effective_knowledge.rs:262-284 | A specifically selected definition is an exact match more specific than every other exact match. |
| `Knowledge.WinnerIsSelected` | src/effective_knowledge.rs:262-284 | And such a definition is always selected. |
| `Knowledge.AmbiguousIffTied` | src/effective_knowledge.rs:262-302 | In an accepted catalog resolution is ambiguous if and only if two exact matches tie at the top, never because of generic definitions, and tied matches constrain different fields. |
| `Knowledge.WithoutExactMatch` | src/effective_knowledge.rs:284-302 | Without an exact match: insufficient identity if something matches partially, else the generic definition if there is one, else no match. |
| `Knowledge.SeveralGenerics` | src/effective_knowledge.rs:284-302 | Several generic definitions, which loading refuses, would make the resolution ambiguous. |
| `Knowledge.CheckSemantic` | src/knowledge_db.rs:276-289 | The insertion loop accepts exactly the semantics whose definitions have pairwise different applicability keys. |
| `Knowledge.CheckDefinitions` | src/knowledge_db.rs:220-289 | Loading accepts exactly the catalogs with distinct ids and, per semantic, distinct keys, and reports which rule fails first. |
| `Knowledge.SameFieldsSameKey` | src/knowledge_db.rs:760-772 | Two exact matches with the same fields have the same key, in whatever order their predicates are written. |
| `Knowledge.LearningKeepsFits` | src/effective_knowledge.rs:306-341 | Learning an absent field keeps exact matches exact and excluded definitions excluded; only partial matches on that field can change. |
| `Knowledge.TopSpecificityIsGreatest` | src/effective_knowledge.rs:262-284 | The winning specificity is the greatest among the exact matches and is attained. |
| `Knowledge.LearningNeverLowers` | src/effective_knowledge.rs:244-304 | Once something matches exactly, learning a fact never loses that and never lowers the winning specificity. |
| `Timeline.FromCapture` | src/capture_tui.rs:69-360 | Clock, duration, samples and evidence, with responses re-timed in place when their read completes, are those of the declarative description, ordered by time. |
| `Timeline.TimelineBuilder.DrainPending` | src/capture_tui.rs:204-206 | Re-times exactly the pending responses and forgets them. |
| `Timeline.TimelineBuilder.Show` | src/capture_tui.rs:83-351 | One event keeps evidence and pending responses exact. |
| `Timeline.TimelineBuilder.Count` | src/capture_tui.rs:158-160 | Clock and duration after an event, including a stop, which extends the duration but not the clock. |
| `Timeline.AllWithinDuration` | src/capture_tui.rs:69-360 | Every sample and evidence item, re-timed or not, lies within the duration. |
| `Timeline.ShownWithinDuration` | src/capture_tui.rs:69-360 | So does every single event at the time it is shown. |
| `Timeline.ResponseMoves` | src/capture_tui.rs:204-254 | A response is shown at the time of the first read after it, successful or failed, and at its own time while there is none. |
| `Timeline.OthersStay` | src/capture_tui.rs:83-351 | Everything else is shown at its recorded time, or at the clock if it has none. |
| `Timeline.TimesAreLatest` | src/capture_tui.rs:69-360 | The clock is the latest recorded time other than a stop, the duration the latest of all. |
| `Timeline.EveryEventShown` | src/capture_tui.rs:83-351 | Every event but a knowledge context is shown, exactly once. |
| `Timeline.EveryReadSampled` | src/capture_tui.rs:207-224 | The samples of a semantic are its successful reads, each exactly once. |
| `Replay.FromCapture` | src/capture_replay.rs:112-243 | The loop computes the same duration as the timeline, one interpretation per successful read, and sorted transactions and issues. |
| `Replay.EveryReadAccounted` | src/capture_replay.rs:112-243 | Each successful read is recorded and is either a transaction or has a rejecting issue. |
| `Replay.EveryReadOnce` | src/capture_replay.rs:112-243 | None is lost or counted twice. |
| `Replay.EveryIssueIsDue` | src/capture_replay.rs:112-243 | Each event has exactly the issues that belong to its verdict; a changed decoding is reported and still counts. |
| `Replay.SliceIsFilter` | src/capture_tui.rs:393-408 | The two binary searches give exactly the items within the bounds. |
| `Replay.SlicePanics` | src/capture_tui.rs:402-408 | With start after end the slice panics exactly when an item lies strictly between the bounds. |
| `Replay.CurrentIsLast` | src/capture_tui.rs:387-391 | The current sample is the last one at or before the cursor. |
| `Replay.TelemetryAt` | src/capture_replay.rs:276-287 | Telemetry at the cursor ingests exactly the transactions at or before it, in order. |
| `Replay.FullTelemetry` | src/capture_replay.rs:289-291 | At the end of the capture every transaction has been ingested. |
| `Navigation.Nav.Key` | src/capture_tui.rs:446-475 | Every key changes cursor and window with the source's saturating steps and keeps them in range. |
| `Navigation.Browse` | src/capture_tui.rs:931-943 | The viewer's loop over any keys renders without panic exactly the evidence from the start of the visible range to the cursor. |
| `Navigation.KeysKeepRange` | src/capture_tui.rs:424-475 | After any keys the cursor is inside the capture and the window between its limits. |
| `Navigation.KeyMeans` | src/capture_tui.rs:446-475 | Within the capture each key moves the cursor by one step or one window to its side and stops at the ends, or halves or doubles the window within its limits, and changes nothing else. |
| `Navigation.MovesUndo` | src/capture_tui.rs:446-475 | Away from the ends the keys that move the cursor undo each other. |
| `Navigation.InitialMeans` | src/capture_tui.rs:424-430 | The viewer starts at the end with a window of a minute, or the capture if it is shorter, but at least a second. |
| `Navigation.BoundsContainCursor` | src/capture_tui.rs:432-444 | The visible range contains the cursor, stays inside the capture and has exactly the window's width when the capture is longer, but for a clock at its maximum. |
| `Navigation.RenderedEvidence` | src/capture_tui.rs:814-859 | After any keys the evidence slice taken at render does not panic and is exactly the evidence from the start of the range to the cursor. |
| `CaptureReport.Percentile` | src/capture_report.rs:484-498 | For any input order the result is an element with fewer than ceil(p*n/q) values below it and at least that many up to it; there is none for no values, the least value for percentile zero, and above the full percentile one exactly when the rank does not exceed the number of values. |
| `CaptureReport.PercentileMeaning` | src/capture_report.rs:484-498 | The same of the percentile as a function, on which monotonicity is proved. |
| `CaptureReport.PercentileMonotone` | src/capture_report.rs:484-498 | A higher percentile is never smaller. |
| `CaptureReport.FullPercentileIsMaximum` | src/capture_report.rs:484-498 | The full percentile is the maximum. |
| `CaptureReport.NumericSegments` | src/capture_tui.rs:505-525 | The segments concatenate to the numeric points, none is empty, no gap inside one exceeds the limit and every boundary does. |
| `CaptureReport.SplitMeans` | src/capture_tui.rs:505-525 | A curve is split where time goes on by more than the limit, and never by a step back. |
| `InventoryFacts.MergeFact` | src/inventory_facts.rs:332-360 | A fact is inserted, adds its provenance to an equal value, or is refused. |
| `InventoryFacts.Merge` | src/inventory_facts.rs:226-330 | Merging fails if and only if two facts give one responder and field different values; otherwise values are the common ones and provenance the union of all contributors. |
| `InventoryFacts.Project` | src/inventory_facts.rs:226-330 | The same for role facts and explicit facts, with unknown responders refused first. |
| `InventoryFacts.OrderFree` | src/inventory_facts.rs:226-330 | The projection does not depend on the order of mappings and explicit facts. |
| `InventoryFacts.ContradictionOrderFree` | src/inventory_facts.rs:226-330 | Nor does it depend on the order whether the projection fails. |

## Left out

- Text is a sequence of one-byte characters; other Unicode is not modelled.
- Error wording and the echoed raw response: issues are tagged values.
- The Mode 09 reader, its serial probe and the multi-PID decoding: the Mode 09 reader has no duplicate check and no unique table, and the decoders only add table lookups.
- `normalize_stale_mode01_responses` (src/elm.rs:1941-2036), a simpler variant of the line scan.
- Reply texts inside `ElmSession`: a reply is accepted, refused, unparsable or a support page. `SupportTexts` ties support pages to texts; for the other replies which text is which is the readers' business above.
- Multi-PID reads, UDS session commands and identifier reads share the cached and the self-contained read of the model; TesterPresent accepting "NO DATA" counts as an accepted reply.
- Bluetooth, timeouts, notification streaming, channels and asynchronous scheduling: exchanges have fates and the actor handles its commands one after the other.
- The Carly and ATI identity checks before a direct re-initialization (src/mobile.rs:100-112).
- The conversion of the service-time estimate to a request budget (src/ble.rs:511-532).
- `FunctionalResponderDiscovery` beyond the per-responder status: planning of further requests and topology are set insertions.
- Safety authorization and building of read requests in identification discovery: the session's reply to a read is an input.
- `EffectiveVehicleKnowledge::resolve`, which calls the resolution for every ECU and semantic; catalog sets, ECU targets and YAML.
- Identities, roles, provenance and protocol contexts are opaque values with an order.
- Building anonymous ECU ids and normalizing ASCII payloads in the inventory projection.
- Whether a recorded read decodes again is a verdict that comes with the event; telemetry reduction after ingestion is left out.
- Floating-point values: curves and percentiles use integers, and the product of length and numerator does not saturate.
- Terminal rendering, charts, command line, report text, audit buffer and the vehicle cache.
- ReassemblyTable.TargetedPayloadIsLocal: compares successful selections; the error text of a failed selection does mention other responders.
