# Verified model of ogrt

ogrt records which processes run on a machine: a client library reads the ELF stamp of
every loaded object and sends a message to a server, which hands it to its outputs. This
Dafny project models the parts of it whose correctness is hardest to see from the code, and
proves what they are for.

* **The argument scanner and the option parser** (`LongOptions`, `Reference`, `Rotation`,
  `Getopt`, `Scan`, `Usage`, `Conventions`, `CmdlineParser`, `CommandLines`). The client's command
  line is read by a permuting getopt, a state machine over an array that it rearranges while
  it reads. `Reference` is an independent left-to-right reading that never moves a word (the
  utility syntax guidelines of section 12.2 of POSIX.1-2017 Base Definitions, with operands
  allowed between options).
  `Getopt` holds the scanner itself, working in place on `array<string>` with the fields of
  its C structure. The option string and the long-option table are arbitrary. `Usage` says
  what can be written, mistakes included, and proves that it is read as meant.
  `Conventions` says the same of single words in terms of their characters, the option string
  and the table alone, and `CommandLines` says how the words of ogrt's own options end.
* **The server's fan-out** (`Outputs`, `FanOut`, `FanOutBuffer`, `FanOutSteps`, `FanOutPanic`,
  `FanOutProgress`, `FanOutContents`, `FanOutEndToEnd`): a step system of goroutines,
  unbuffered channels and workers, with the receive buffer that every packet reuses, the
  shared message that the Elasticsearch output changes in place, and the job files that the
  file output rewrites.
* **The note walk** (`ReadSo`, `Stamp`): the loop that looks for the stamp in note segments
  (System V gABI, chapter 5, "Note Section"), and the note that `ogrt --generate-signature`
  writes.
* **Framing** (`Framing`): the frame around a message and its decoding from a receive buffer
  that is reused for every packet.

`Wrappers` and `Bytes` hold an option type and a byte type.

## How it is modelled

C strings are the sequences of their characters before the NUL. The pointer `nextchar` is a
text with a position. A flag pointer of the option table is the identity of the variable it
points to, and `GetoptData.flags` holds these variables. Whatever only affects printing is
left out of the functions modelled. Go's `int64` multiplication wraps explicitly. Encoding
and decoding JSON, `path.Join`, unmarshalling and the paths at which a file can be created
and written are parameters; where a claim needs JSON decoding to invert encoding, or just
to accept what was encoded, it says so (`Outputs.Faithful`, `Outputs.Rereadable`).

In the step system a receive writes the packet's frame into the shared buffer, and the
packet's goroutine, whenever its turn comes, unmarshals its slice of what the buffer then
holds. So the result of a decode is never chosen by a run. Unmarshalling is one step, which
no receive interrupts. A persist is one step. In the source that takes one worker per file
output, as `server/ogrt.conf` prescribes, and no two file outputs on one directory, since
each has a mutex of its own. A persist that panics ends the server: no step follows it, and
its message stays in the worker's hand. Where a file can be created does not change during a
run; the server's own files do not change it, since they only appear where that is possible.

Some functions of the source are several members here: `ShuffleArgv` calls `SettleOptions`
for its first statements, `CheckLongOpt` calls `TakeFound` for an option it has found, and
`GetoptInternalR` calls `CheckOpt` for its last statements; `HandleProgramHeader` calls
`WalkNotes` for its inner loop; the switch of `cmdline_parser_internal` is `HandleOption`.
`custom_getopt_internal` and `custom_getopt_long` only copy fields between their static
structure and global variables around a call; here callers set and read the structure
itself.

## Where the code and its comments differ

* The comments of the scanner (client/src/ogrt-cmdline.c:807-809, 842-845) give a leading
  `-` or `+` of the option string a meaning. The code does not look at it, and neither does
  the model.
* client/src/ogrt-readso.c:20 says that all values of a note are padded to four bytes; line
  38 adds the unpadded sizes. `Stamp.InStepIffAligned` says exactly when the walk
  nevertheless stays in step.
* client/src/ogrt-cmdline.c:424 says that `custom_optind` 1 means the first call; line 864
  tests for 0.

## Claims that needed a condition

* Scanning the permuted argv again always leaves it unchanged, but it does not always report
  the same: an option that lacked its required argument at the end can take an operand the
  second time. This is the only exception (`Reference.Idempotence`, `Scan.ScanTwice`);
  `ogrt x --show-signature` is an instance (`CmdlineParser.RescanCanDiffer`).
* The walk over notes lands on every note start before the stamp and on the stamp if and
  only if all sizes before the stamp are multiples of four (`Stamp.InStepIffAligned`). For
  finding the stamp this is sufficient (`Stamp.WalkFindsStamp`) but not necessary: out of
  step, the walk may meet the stamp again or miss it (`Stamp.UnalignedMayFind`,
  `Stamp.UnalignedMayMiss`).
* The walk does not stop at the stamp. What is recorded depends on the bytes behind it: it
  is the stamp's uuid unless they look like another stamp (`Stamp.SegmentWithStamp`), if the
  segment ends within the next stride, whose exact length is given. The walk is then defined
  if and only if that stride does not overflow (`Stamp.SegmentWithStampWalkable`). A second
  stamp right behind the first does not look like one to the walk, so of up to 228 stamps in
  one segment the first is recorded (`Stamp.FirstStampWins`).
* No output ever panics if and only if no packet that fits the buffer decodes to a message
  that a file output with a worker refuses: one for a file that does not decode when the
  server starts, or for a path that cannot be created (`FanOutPanic.NeverPanicsIffNoneRefused`).
  A message with an empty job id is such a message, since its path is the output's own
  directory (`FanOutPanic.EmptyJobEndsServer`): server/src/output/json_file.go:60 ignores the
  error of `os.Create`, and line 62 panics when the write fails.
* The pipeline can always deliver what it has received if and only if no packet decodes to a
  message at all, or every configured output has a worker and there is no such refused
  message (`FanOutProgress.DeliversExactlyIfServed`).
* What is sent is what is recorded in runs in which packets received between a packet and
  its decoding agree with it wherever they reach, as when each is decoded before the next is
  received (`FanOutEndToEnd.SentIsRecorded`, `FanOutEndToEnd.JobFilesHoldWhatWasSent`).
* A goroutine that decodes after further receives, however many, sees its own payload if and
  only if at each of its positions the last packet that reached it agrees with its own
  (`FanOutBuffer.DecodeSeesLatest`, `Framing.LateSliceIntactIff`). `FanOutBuffer.LateDecode`
  is a run in which it does not.

## Model

| member | source | states |
|---|---|---|
| LongOptions.LookUp | client/src/ogrt-cmdline.c:616-635 | the single pass over the table finds the first exact match, else the first abbreviated one if all abbreviated ones agree on has_arg, flag and val, else ambiguous or none |
| LongOptions.ResolutionIsUnique | client/src/ogrt-cmdline.c:616-647 | the declarative rule for resolving a possibly abbreviated name has exactly one answer, the one the pass is proved to give |
| LongOptions.ReorderingInvariance | client/src/ogrt-cmdline.c:616-647 | reordering a table with distinct names changes neither errors nor the behaviour of the resolved option, and not the option itself if all behaviours differ |
| Rotation.GcdIsGreatest | client/src/ogrt-cmdline.c:469-498 | the subtractive recursion that counts the swaps of exchange is the greatest common divisor |
| Rotation.ShortBottom | client/src/ogrt-cmdline.c:470-483 | after swapping a short bottom segment with the end of the top segment, exchanging what is left gives the exchange of the whole |
| Rotation.ShortTop | client/src/ogrt-cmdline.c:484-497 | the same for a short top segment and the start of the bottom segment |
| Getopt.GetoptData.Exchange | client/src/ogrt-cmdline.c:456-502 | turns A B into B A in place, touches nothing else, moves both indices along with A, and makes a + b - gcd(a, b) swaps |
| Getopt.StartsSorted | client/src/ogrt-cmdline.c:505-515 | an empty range of skipped operands at the start of the scan is a sorted state of any argv |
| Getopt.GetoptData.SettleOptions | client/src/ogrt-cmdline.c:527-539 | from any state whose indices are right after correction, options seen since the skipped operands come before them and the unread words stay |
| Getopt.GetoptData.ShuffleArgv | client/src/ogrt-cmdline.c:520-589 | either stops at an option word with the events still to come unchanged, or ends the scan, which then has no events left, with argv stably partitioned; it never returns 1 |
| Getopt.GetoptData.CheckLongOpt | client/src/ogrt-cmdline.c:601-717 | reports and consumes exactly the long option the reference reading finds there, in all error cases too |
| Getopt.GetoptData.CheckShortOpt | client/src/ogrt-cmdline.c:719-776 | reports and consumes exactly the short option the reference reading finds there, including attached, separate, optional and missing arguments; never entered at the end of a string |
| Getopt.GetoptData.GetoptInternalR | client/src/ogrt-cmdline.c:848-878 | one call reports the first event of the reference reading still to come, leaves the rest to come, strictly reduces the unread characters and keeps the call-boundary invariant; without events left it returns -1 on a partitioned argv |
| Getopt.SortedIsPermutation | client/src/ogrt-cmdline.c:520-574 | at every moment of a scan argv is a permutation of the original |
| Getopt.TakeToken | client/src/ogrt-cmdline.c:736-771 | consuming an option with its argument keeps the sorted state, takes exactly the next event, and strictly reduces the unread characters |
| Getopt.EndAtDelimiter | client/src/ogrt-cmdline.c:552-574 | moving the delimiter before the skipped operands completes the stable partition |
| Reference.ReadingIsStablePartition | client/src/ogrt-cmdline.c:344-349 | option words and operands are the two sides of one marking of the words, each in original order |
| Reference.ReadingIsPermutation | client/src/ogrt-cmdline.c:344-349 | option words and operands together are the original words |
| Reference.EventsAreBounded | client/src/ogrt-cmdline.c:781-789 | a reading has no more events than characters |
| Reference.OperandIrrelevance | client/src/ogrt-cmdline.c:520-589 | deleting every operand, wherever it stood, changes neither events nor option words |
| Reference.EventsDependOnOptionsOnly | client/src/ogrt-cmdline.c:520-589 | words with the same option words are reported alike however operands are spread among them |
| Reference.OptionsThenTail | client/src/ogrt-cmdline.c:520-589 | the option words followed by any operands, or by anything behind a delimiter, read like the original unless a last option is starved |
| Reference.StarvedTakesTail | client/src/ogrt-cmdline.c:670-683 | a last option that lacked its argument takes the first operand put behind it |
| Reference.Idempotence | client/src/ogrt-cmdline.c:520-589 | permuting twice is permuting once; the events are the same exactly unless a starved last option meets an operand |
| Scan.ScanAll | client/src/ogrt-cmdline.c:848-878 | from custom_optind 0 and any leftover state, calling until -1 reports the reference reading of the original argv in at most one call per character plus one, and leaves argv partitioned with optind at the first operand |
| Scan.EndIsUnmistakable | client/src/ogrt-cmdline.c:688-692 | if no option hands back -1 as its value, no event can be mistaken for the end of the scan |
| Scan.RescanReports | client/src/ogrt-cmdline.c:848-878 | rescanning the permuted words is reported the same exactly unless a starved last option meets an operand |
| Scan.ScanTwice | client/src/ogrt-cmdline.c:848-878 | a second scan in place moves nothing and reports the same under that exact condition |
| Usage.ReadUse | client/src/ogrt-cmdline.c:719-776 | a cluster of short options, ending in an option with or without its argument or not, with invalid characters among them, a long option in any style, possibly abbreviated, with a missing name, an ambiguous one or a superfluous argument, or an operand is read as meant in front of any words |
| Usage.WrittenIsRead | client/src/ogrt-cmdline.c:778-819 | round trip: options and mistakes in any order, with operands anywhere between them, ending in nothing, a delimiter with anything behind it, or an option without its required argument, are read as exactly the options, arguments, errors and operands meant |
| Usage.EverythingIsWritten | client/src/ogrt-cmdline.c:778-819 | every argument vector is something that can be so written, so the round trip says what is reported on all of them |
| Usage.ScanWritten | client/src/ogrt-cmdline.c:778-819 | the permuting scanner reports exactly what was meant and leaves program, options as written, delimiter and operands in this order |
| Conventions.OperandWord | client/src/ogrt-cmdline.c:516-545 | the empty word, a lone dash and words without a dash in front are operands, and nothing else about the reading changes |
| Conventions.DelimiterWord | client/src/ogrt-cmdline.c:547-561 | two dashes are an option word behind which all words are operands |
| Conventions.PlainCharacter | client/src/ogrt-cmdline.c:719-776 | for an option string a c b with no colon in front of b, the character c anywhere in a cluster is reported as option c and nothing more |
| Conventions.StrayCharacter | client/src/ogrt-cmdline.c:728-734 | a character that the option string does not list, or a colon, is reported as ? with optopt the character, and the cluster goes on |
| Conventions.ArgumentCharacter | client/src/ogrt-cmdline.c:735-772 | with exactly one colon behind it in the option string, c takes the rest of its word, else the next word; if there is none the code is : or ? as the option string begins with a colon or not |
| Conventions.OptionalCharacter | client/src/ogrt-cmdline.c:735-743 | with two colons behind it, c takes the rest of its word and never the next one |
| Conventions.LongAttached | client/src/ogrt-cmdline.c:647-667 | two dashes, a name or unambiguous abbreviation, an equals sign and an argument report that entry of the table with the argument, or ? with its value if it takes none |
| Conventions.LongAlone | client/src/ogrt-cmdline.c:647-692 | without an equals sign the option takes the next word exactly if it requires an argument, and is reported by its value, or by 0 with the value stored in its flag |
| Conventions.LongUnresolved | client/src/ogrt-cmdline.c:616-646 | a name that is no entry's, and abbreviates none or some that differ in has_arg, flag or value, is reported as ? with optopt 0 |
| CmdlineParser.UpdateArg | client/src/ogrt-cmdline.c:925-1000 | a repetition fails and changes nothing; an option already present is kept without override; otherwise both counts go up by one, and a string option stores the argument, or the first of its possible values, and the original |
| CmdlineParser.HandleOption | client/src/ogrt-cmdline.c:1089-1142 | the switch stops or goes on, and changes the caller's structure, as the event it was given demands |
| CmdlineParser.EventsAreExpected | client/src/ogrt-cmdline.c:1067-1080 | with ogrt's table the scanner yields only help, version, errors and the two mode options, show-signature always with an argument, so the abort case is never reached |
| CmdlineParser.CmdlineParserInternal | client/src/ogrt-cmdline.c:1026-1158 | outcome and structure are those of reacting to the reference reading of argv, whatever earlier scans left in the static scanner data |
| CmdlineParser.ReactKeepsStep | client/src/ogrt-cmdline.c:1102-1137 | one event keeps the structure an exact record of the events so far, or stops the parse because it is help, version, an error or a repetition |
| CmdlineParser.ParserBookkeeping | client/src/ogrt-cmdline.c:1053-1158 | a parse succeeds exactly if its events are mode options given at most once each, and then counts, mode counter, argument and original are exactly those of the events; otherwise the first stopping event decides the outcome |
| CmdlineParser.ParseIgnoresOperands | client/src/ogrt-cmdline.c:1063-1143 | deleting the operands changes neither outcome nor structure, for all parameters |
| CmdlineParser.RescanCanDiffer | client/src/ogrt-cmdline.c:670-683 | ogrt x --show-signature is refused for a missing argument; the argv this leaves is accepted |
| CommandLines.HelpFirst | client/src/ogrt-cmdline.c:1091-1094 | if the first option word is --help or a non-empty abbreviation, or a cluster that starts with h, the parse ends in help, whatever follows and for all parameters |
| CommandLines.VersionFirst | client/src/ogrt-cmdline.c:1096-1099 | the same for --version and V with the version |
| CommandLines.GenerateAlone | client/src/ogrt-cmdline.c:1102-1118 | --generate-signature among operands, for all parameters and any structure: refused, ignored or counted in its own slot, with the mode counted always |
| CommandLines.ShowAlone | client/src/ogrt-cmdline.c:1119-1134 | the same for --show-signature f or --show-signature=f, whose slot also takes f as argument and as original |
| CommandLines.ModeAlone | client/src/ogrt-cmdline.c:1102-1134 | with the usual parameters either option alone succeeds with exactly its own slot filled |
| CommandLines.BothModes | client/src/ogrt-cmdline.c:1102-1134 | both options, in either order among operands, fill both slots |
| CommandLines.RepeatedMode | client/src/ogrt-cmdline.c:943-956 | a mode option given twice in an initializing parse makes it fail |
| CommandLines.NoOptions | client/src/ogrt-cmdline.c:1053-1089 | without options, or with a delimiter in front of them, a parse succeeds and does no more than initialize |
| CommandLines.MistakeFirst | client/src/ogrt-cmdline.c:1135-1137 | a first option that is none of ogrt's, or has an argument it must not have, makes the parse fail |
| CommandLines.FileMissing | client/src/ogrt-cmdline.c:1135-1137 | so does --show-signature without a file |
| Outputs.JsonFileOutput.PersistProcessInfo | server/src/output/json_file.go:39-66 | appends the message to the job read from its file or to a new job and rewrites only that file; panics, writing nothing and holding the mutex, exactly if the file does not decode or cannot be created |
| Outputs.WrapTimes | server/src/output/json_elasticsearch.go:44 | wrapping before a multiplication makes no difference to the wrapped product |
| FanOut.SetUp | server/src/ogrt-server.go:88-107 | there is a worker (o, k) exactly if o is a configured output and k less than its number of workers, and all are idle |
| FanOut.WriteMessage | server/src/ogrt-server.go:191-203 | persisting through the writer of an output's type has the effect on message and files that the step system gives a persist or a panic, and hands the message to the connection or the index if that accepts it |
| FanOut.StepConserves | server/src/ogrt-server.go:171-203 | every step of any goroutine or worker keeps every message, for every output, in exactly one of the places unsent, in one worker's hands, or persisted once |
| FanOutBuffer.NothingLostOrDuplicated | server/src/ogrt-server.go:88-203 | conservation in every interleaving, at every moment |
| FanOutBuffer.DecodeSeesLatest | server/src/ogrt-server.go:148-176 | in every interleaving a goroutine decodes under its own type and reads at each position the last packet that reached it, hence its own payload exactly if these agree with it, and always if nothing was received since |
| FanOutBuffer.LateDecode | server/src/ogrt-server.go:148-176 | of any two process messages received before the first is decoded, the second no shorter, the first goroutine can unmarshal the start of the second |
| FanOutSteps.ReceiveRuns | server/src/ogrt-server.go:148-171 | a packet that fits can be received at any time; its payload lies behind the prefix of eight bytes and the rest of the buffer and of the state is as before |
| FanOutSteps.DecodeRuns | server/src/ogrt-server.go:171-184 | a goroutine can decode at any later time and then offers the message to all outputs exactly if its packet is of type 12 and the slice can be unmarshalled |
| FanOutSteps.FirstDecoded | server/src/ogrt-server.go:171-184 | a packet decoded at once is offered to all outputs exactly if it is of type 12 and its payload can be unmarshalled |
| FanOutSteps.ChooseRuns | server/src/ogrt-server.go:182-184 | a goroutine that is not blocked can go on to any channel it has not come to |
| FanOutSteps.HandoffRuns | server/src/ogrt-server.go:182-184 | a blocked goroutine can hand its message to any idle worker of that output, whatever other workers hold |
| FanOutSteps.PersistRuns | server/src/ogrt-server.go:191-203 | a worker that holds a message can persist it at any time, with the record, time and file content spelled out, or panics exactly if its file does not decode or cannot be created |
| FanOutSteps.AllHoldAtOnce | server/src/ogrt-server.go:88-203 | with staffed outputs the first worker of every output can hold the same message at once |
| FanOutSteps.CountMeans | server/src/ogrt-server.go:191-203 | the count that conservation and delivery speak of is the number of records of that message by that output |
| FanOutPanic.NeverPanicsIffNoneRefused | server/src/output/json_file.go:43-63 | whatever files the server finds, no run has a panic exactly if no packet that fits the buffer decodes to a message that a staffed file output refuses, its file being corrupt from the start or not creatable |
| FanOutPanic.RefusedEndsServer | server/src/output/json_file.go:43-63 | any such packet has a run that ends the server with the message persisted nowhere, after which no step is possible |
| FanOutPanic.EmptyJobEndsServer | server/src/output/json_file.go:40-63 | in particular a message with an empty job id, whose path is the output's own directory |
| FanOutProgress.StepDecreases | server/src/ogrt-server.go:171-203 | every step other than a receive, a panic included, lowers the measure |
| FanOutProgress.SomeStepEnabled | server/src/ogrt-server.go:171-203 | with a worker for every output and the server up, something undelivered means that some step can be made; what a decode results in and whether a worker persists or panics is not chosen |
| FanOutProgress.EveryQuietRunDelivers | server/src/ogrt-server.go:171-203 | a run without further receives is no longer than the measure, and one that cannot go on has delivered everything or an output has panicked, which takes a refused message |
| FanOutProgress.Drain | server/src/ogrt-server.go:171-203 | without refused messages, from every sound state everything received can be delivered, every packet that decodes to every output |
| FanOutProgress.UnstaffedNeverDelivers | server/src/ogrt-server.go:90-105 | an output without workers keeps the first message undelivered for ever |
| FanOutProgress.DeliversExactlyIfServed | server/src/ogrt-server.go:88-203 | every reachable state can deliver everything, without choosing any decode result, exactly if nothing ever decodes to a message, or every output has a worker and no message is refused |
| FanOutContents.SharedTimestamp | server/src/output/json_elasticsearch.go:42-45 | at every moment a message's time is the original times 1000 for every Elasticsearch output that has persisted it, as an int64, and every record shows the time in force at its own persist |
| FanOutContents.FileStoreIsGroupedLog | server/src/output/json_file.go:39-66 | each job file holds what it held at the start and then exactly the messages persisted for its path, in persist order and as they then stood; a corrupt file is untouched; panics notwithstanding |
| FanOutEndToEnd.MessagesComeFromPackets | server/src/ogrt-server.go:148-186 | in every run every message is what its goroutine's slice held after some number of packets, its own among them |
| FanOutEndToEnd.PromptIsUndisturbed | server/src/ogrt-server.go:169-176 | decoding each packet before the next receive is enough for every goroutine to read its own |
| FanOutEndToEnd.SentIsRecorded | server/src/ogrt-server.go:148-203 | in an undisturbed run every record is what its packet said, scaled by the Elasticsearch outputs so far, and once all is delivered every output has recorded every packet of type 12 whose payload unmarshals exactly once, and no other |
| FanOutEndToEnd.JobFilesHoldWhatWasSent | server/src/output/json_file.go:39-66 | in an undisturbed run of a server with one file output, once all is delivered, each job file holds what it held before and then exactly the messages sent for it, as a multiset and but for scaled times, in persist order |
| ReadSo.ReadSignature | client/src/ogrt-readso.c:23-39 | takes version and uuid exactly of a stamp of the supported version and returns the unpadded note length |
| ReadSo.SoInfos.WalkNotes | client/src/ogrt-readso.c:76-82 | records the last stamp among the notes the walk visits, or none, if the segment is not empty |
| ReadSo.SoInfos.HandleProgramHeader | client/src/ogrt-readso.c:44-90 | fills the next entry with the path and the result of the last segment that is walked, and nothing else |
| ReadSo.GetLoadedSo | client/src/ogrt-readso.c:44-115 | as many entries as loaded objects; every path is the normalised name, or empty for an empty name, and every signature is that of the last non-null, non-empty note segment, or none without such a segment |
| ReadSo.LastStampIsLast | client/src/ogrt-readso.c:26-38 | of the visited notes the last stamp of the supported version counts |
| ReadSo.LastWalkDecides | client/src/ogrt-readso.c:67-87 | the last non-null, non-empty note segment decides; results of earlier segments do not survive |
| Stamp.StrideIsPaddedLengthIffAligned | client/src/ogrt-readso.c:20-38 | the stride is at most the padded length of a note, and equal to it exactly if both sizes are multiples of four |
| Stamp.InStepIffAligned | client/src/ogrt-readso.c:79-82 | the walk lands on every note before the stamp and on the stamp exactly if all sizes before it are multiples of four |
| Stamp.GeneratedNoteIsStamp | client/src/ogrt-cli.c:98-105 | the template with the generated uuid patched in is the padded encoding of the stamp |
| Stamp.StampIsRead | client/src/ogrt-readso.c:26-38 | at a generated stamp exactly its uuid is read, and the stride is 55 where the note takes 60 bytes |
| Stamp.WalkFindsStamp | client/src/ogrt-readso.c:79-82 | behind notes whose sizes are multiples of four the walk comes to the stamp and after its iteration holds precisely the generated uuid |
| Stamp.SegmentWithStamp | client/src/ogrt-readso.c:76-82 | for aligned notes with a generated stamp behind them, in a segment that ends within the stride after the stamp's, the recorded uuid is the stamp's unless the bytes behind it look like another stamp, whose text it then is |
| Stamp.SegmentWithStampWalkable | client/src/ogrt-readso.c:76-82 | that walk stays in mapped bytes and does not overflow exactly if the last stride, two characters of the uuid and three bytes behind the stamp, is an int |
| Stamp.SegmentEndingInStamp | client/src/ogrt-readso.c:76-82 | both for a segment whose last note is the stamp |
| Stamp.FirstStampWins | client/src/ogrt-readso.c:76-82 | of up to 228 stamps in one segment the first is recorded and the walk is defined |
| Stamp.ObjectWithStamp | client/src/ogrt-readso.c:67-87 | the same for a whole object whose last walked segment is such a segment, whatever the other segments contain, and all its walks are defined exactly if those of the others are and the last stride is an int |
| Stamp.HandleStampedObject | client/src/ogrt-readso.c:44-90 | the entry filled in for such an object holds its path and the uuid that was generated |
| Stamp.UnalignedMayFind | client/src/ogrt-readso.c:38 | behind a note with sizes 5 and 3 the walk falls out of step and still finds the stamp |
| Stamp.UnalignedMayMiss | client/src/ogrt-readso.c:38 | behind a note with sizes 5 and 0 the walk never comes to the stamp and records nothing |
| Framing.PrepareSendbuffer | client/src/ogrt-main.c:315-327 | a fresh buffer whose first four bytes, most significant first, are the type modulo 2^32 and whose next four are the payload length, with room for exactly the payload behind them |
| Framing.DecodeHeader | server/src/ogrt-server.go:163-169 | the type is the first four bytes as a signed number, most significant first, and the slice goes from 8 to 8 plus the next four bytes |
| Framing.FrameDecodes | server/src/ogrt-server.go:163-169 | a frame at the start of a buffer decodes to its type and payload whatever stale bytes follow |
| Framing.Serve | server/src/ogrt-server.go:148-188 | any packets that fit the buffer come out as they went in if each is decoded before the next receive |
| Framing.LateSliceIntactIff | server/src/ogrt-server.go:169-176 | after any packets, the slice of any of them shows at each position the last one that reached it, and is intact exactly if all of these agree with its own payload |
| Framing.LateSliceExamples | server/src/ogrt-server.go:169-176 | for process messages, agreeing with the next packet is neither enough nor needed for a slice to be intact later |

## Left out

- Scan.ScanAll: claims the partition only if no event has the code -1, because a caller that is handed -1 as an option's value stops there too; `Scan.EndIsUnmistakable` gives the condition on the table.
- Scan.ScanTwice: requires that no option has the value -1, so that both scans run to their end.
- CmdlineParser.UpdateArg: null pointers to the counts are not modelled, nor are no_free and default_value, which only concern memory or nothing; the mode counter is an unbounded integer.
- ReadSo.SoInfos.WalkNotes: requires that the walk stays inside mapped bytes, moves forward and does not overflow its 32-bit offset; the code checks none of this and may not terminate otherwise.
- Stamp.SegmentWithStamp: requires that the sixteen bytes behind the stamp are mapped and do not make a negative size, and that the segment ends before a second further visit, where the walk may be anywhere in a note.
- ReadSo.GetLoadedSo: every object has to be walkable in this sense; path normalisation is a parameter, and dl_iterate_phdr is the list of objects it would visit.
- ReadSo.SoInfos.HandleProgramHeader: requires the same of every note segment it walks.
- FanOutProgress.DeliversExactlyIfServed: requires that JSON decoding accepts what was encoded.
- Outputs.JsonFileOutput.PersistProcessInfo: a write that fails behind a successful creation, as on a disk that fills up, which would leave an empty file; files that may be written but not read; changes to the directory from outside.
- FanOut.WriteMessage: whether a connection or the index accepts a message is a parameter, as the transports are not part of this model.
- Option characters above 127, which a C compiler with signed char would report as negative codes.
- Help and version texts, error messages, logging, metrics and process exit, beyond the outcome they stand for; help_given and version_given, which the parser only clears.
- cmdline_parser_dump, cmdline_parser_file_save, check_modes and the creation of parameters: no property beyond their bodies.
- Memory allocation and release.
- Set-up that fails: an unknown output type, parameters that cannot be parsed, a directory or connection that cannot be opened.
- The protobuf codec, ELF loading, sockets, TOML, signals and the TCP and Elasticsearch transports.
- Several workers on one file output, which the configuration rules out, several file outputs on one directory, and data races between goroutines on the shared time.
- Datagrams shorter than their declared length or longer than the receive buffer.
