# Relux dashboard and CLI: verified models

Dafny models of the stateful cores of the Relux dashboard (`apps/dashboard/src`) and of two loops of its
command line (`crates/relix-cli/src`), with proofs of what their comments and design promise.
`dafny verify dfyconfig.toml` checks everything.

| files | what they model |
|---|---|
| RedactWords, Scanner, RedactLines | the secret scrubber: word rules, the line scanner with one bit of look-back, whole texts |
| RedactSpec | what the scrubber does to a line, said without its helpers |
| StableMerge, RunLog, RunEvents | the three incremental tails and the laws of their merges |
| LogPositions, TailProtocol | what a cursor covers, and the protocol of loads, polls and run switches that feeds the log panel |
| TranscriptLines, TranscriptProtocol | the same panel's event transcript, step by step an instance of the log protocol |
| Utf8Lossy, EventFramer | the streaming reader of verification events, from bytes to printed entries |
| Utf8Spec, FramerSpec | lossy decoding by characters, and what a stream of messages makes the reader do |
| Orchestration | brief readiness and round-based, dependency-gated batches |
| Graph, Hierarchy, Reparent | the chain of command and the task forest |
| Reconnect, Debounce | the reconnecting subscriptions and the debounced invalidation bus |
| InboxGroups, RunRollup, Skills, PercentEncoding, SessionCountdown | grouping, rollups, slugs, URL segments, the session countdown |
| SkillsSpec | the skills field, said without its loops |
| JsText, Positions, Options | shared text primitives, positions in lists, the optional value and bytes |

Loops and mutable closures are methods and classes. Most are proved equal to a specification function, and the
main results are lemmas about those functions, over every input or every run. So that such a function cannot be
wrong together with its loop, each operation also has a statement in plain terms, of literals, positions, sets and
arithmetic (`LineMeans`, `WrittenStreamReads`, `LossyMeans`, `MergeMeans`, `RolledMeans`, `WarningMeans`,
`CardShows`, `ParseMeans` and others). The searches and walks (`DescendantIds`, `SubordinateIds`,
`ManagerOptions`, `IsDescendantOf`, `TaskDescendants`), the tally loops of Orchestration, the cursor loop
`LatestEventId` and the picker `CandidateParents` are proved against such a statement directly.
JavaScript's `toLowerCase` and the locale's collation are parameters, and the results hold for any such
function. A library `sort` is any stable sort: `StableMerge.StableSortUnique` shows that there is only one result.

## Where the code does not do what it says

Each of these has a lemma with concrete inputs that shows the failure, and a lemma that says, for all inputs,
exactly when the promise holds.

- **A late first load loses log lines.** The panel replaces what it holds with the first load's reply
  (`apps/dashboard/src/pages/Work.tsx:2110-2116`). If polls of the same showing overtook that reply, lines
  before a poll already in flight are lost for good: `LateLoadLosesLine`. Delivering the load is harmless if
  and only if it overtakes no such poll: `LoadIsSafeExactly`.
- **A poll that outlives a run switch is merged into the next run's log.** Showing another run clears the
  held lines and the cursor, so as never to show one run's lines under another
  (`apps/dashboard/src/pages/Work.tsx:2101-2109`), and a late load is dropped (2113), but a poll's or a
  refresh's reply is merged whatever run is on show by then (2134-2143, 2164-2176). Line 2 of the old run then
  stands among the new run's lines, and because the cursor moved with it the new run's own line 2 is never
  fetched: `StaleTailIsReached`, `StaleTailStrays`, `StaleTailMixesRuns`. Delivering such a reply is harmless
  if and only if its new lines continue the held ones in the log on show: `TailIsSafeExactly`. For a reply of
  the run on show that means it is empty or its cursor is not beyond the lines held (`OwnTailIsSafeExactly`),
  for a reply that shares no line with that run that every number in it is held (`OtherTailIsSafeExactly`), and
  a reply sent since the last switch always qualifies (`CurrentTailContinues`).
- **Both happen to the event transcript too** (`apps/dashboard/src/pages/Work.tsx:2072-2098, 2150-2163`). Every
  step of its protocol is a step of the log protocol on the events read as numbered lines (`StepSimulates`), and
  the exact conditions carry over in both directions (`TranscriptProtocol.LoadIsSafeExactly`,
  `TranscriptProtocol.TailIsSafeExactly`). Because one counter numbers the events of all runs, a late tail of
  another run is harmless only if it is empty (`TranscriptProtocol.OtherTailIsSafeExactly`); otherwise it can
  hide an event that is never fetched (`LateTailStrays`, `EventNeverFetched`).
- **Chunks are decoded one by one.** A multi-byte character cut by a chunk boundary becomes replacement
  characters. Decoding chunk by chunk equals decoding the stream if and only if no cut falls inside a
  character: `ChunksExactly`.
- **The 64-edge cap hides deep descendants.** In a chain of 66 tasks the last one is offered as a parent of
  the first, and the move closes a cycle: `DeepMoveClosesCycle`. An offered move is safe if and only if the new
  parent is not a descendant beyond the cap (`OfferedMoveExactly`), and a sequence of offered moves is safe at
  every step if and only if each of them is (`MovesStaySafeExactly`).
- **Unsubscribing inside a callback leaks.** From the callback of a reconnect it leaves a live source, because
  `connect` opens it after the callback returns (`ReentrantUnsubscribeLeaks`); from the callback of a failure it
  leaves a pending timer, which later does nothing. A closed subscription is left with a source if and only if
  it was the former, with a timer if and only if it was the latter, and quiet otherwise: `QuietExactly`.
- **The root can be its own descendant.** `apps/dashboard/src/hierarchy.ts:18-21` and
  `apps/dashboard/src/governance.ts:381-385` say that it never is. It is if and only if it lies on a cycle
  (`DescendantIds`, `SubordinateIds`), as two members who lead each other do
  (`RootInsideCycle`).
- **A blank does not separate skills.** `apps/dashboard/src/skills.ts:33` says that it may. Only commas and line
  breaks do, for every text (`SplitMeans`), so two words with a blank between them are one skill (`BlankJoins`).
- **A subtree heading can be blank.** `apps/dashboard/src/inbox.ts:471-473` says that it never is. The card of a
  blocked root whose title is only the prefix has none (`BlankHeading`); a collapsed card's heading is blank if
  and only if its root is in the queue with an empty or prefix-only title (`BlankHeadingExactly`).

## Model

| member | source | states |
|---|---|---|
| RedactWords.StripWrappers | apps/dashboard/src/redact.ts:48-54 | the two index loops cut a token into wrappers, core and wrappers, exhaustively on both sides |
| RedactWords.StripUnique | apps/dashboard/src/redact.ts:48-54 | that exhaustive cut is unique |
| RedactWords.ReluxRulesCoherent | apps/dashboard/src/redact.ts:17-61 | the shipped tables: the placeholder has bare ends, no separator, and is no secret token |
| RedactWords.SuffixCoreCovers | apps/dashboard/src/redact.ts:80-89 | a word's core is at least as long as the core of any of its suffixes, so of its value |
| RedactWords.EqualsStaysFailed | apps/dashboard/src/redact.ts:76-94 | after masking behind ':', a failed '=' attempt still fails |
| RedactWords.KeyValueFixed | apps/dashboard/src/redact.ts:76-94 | a masked key/value word is a fixed point of the two-separator rule |
| RedactWords.RedactWordFixed | apps/dashboard/src/redact.ts:96-102 | the word rule is idempotent |
| RedactWords.PendingThenPlain | apps/dashboard/src/redact.ts:96-109 | a word whose pending flag is lost on the second pass is already a fixed point of the word rule |
| RedactWords.NoNewMarker | apps/dashboard/src/redact.ts:70-73 | no pass creates a secret key marker |
| RedactWords.NoTokenLeft | apps/dashboard/src/redact.ts:96-109 | an output word without the placeholder has no recognisable token as its core |
| RedactWords.ValueNotLeaked | apps/dashboard/src/redact.ts:76-94 | two secret values with the same wrappers behind the same key and separator give the same word |
| RedactSpec.LineMeans | apps/dashboard/src/redact.ts:43-132 | for every line of words and gaps: gaps stay, a word after a marker is treated as a value, any other by its pair, its token or not at all |
| RedactSpec.WordMeans | apps/dashboard/src/redact.ts:76-109 | the word rule in literals: the first '=' with a secret name and a long value, else the first ':', else a token, else nothing |
| RedactSpec.MarkerMeans | apps/dashboard/src/redact.ts:63-73 | a marker is the name of a secret with ':' or '=' behind it |
| RedactSpec.OutcomeUnique | apps/dashboard/src/redact.ts:76-109 | these cases leave one outcome for every word |
| RedactSpec.SecretValueHidden | apps/dashboard/src/redact.ts:76-94 | a value behind a secret name comes out as its wrappers around the placeholder, quoted or not |
| RedactSpec.LeftAloneExactly | apps/dashboard/src/redact.ts:96-102 | a word is left alone if and only if it is no secret pair and no token |
| RedactSpec.QuotedSecret | apps/dashboard/src/redact.ts:84-90 | a quoted secret is hidden inside its quotes |
| RedactSpec.LineByLine | apps/dashboard/src/redact.ts:134-139 | a line break stays, the line before it is scrubbed by itself and the rest as a text |
| RedactSpec.OneLine | apps/dashboard/src/redact.ts:134-139 | a text without line breaks is one line |
| JsText.TrimCuts | apps/dashboard/src/redact.ts:86 | trimming takes the white space off both ends and nothing else |
| JsText.SpaceCodes | apps/dashboard/src/redact.ts:120 | the white space, by its code points |
| Scanner.ScanLine | apps/dashboard/src/redact.ts:111-132 | the character loop with its word and flag emits the scanner function's text |
| Scanner.ScanIsTokenwise | apps/dashboard/src/redact.ts:111-132 | the scanner is the rule mapped along the line's words and gaps |
| Scanner.TokensOfRender | apps/dashboard/src/redact.ts:119-129 | cutting into words and gaps inverts putting them together |
| Scanner.RenderOfTokens | apps/dashboard/src/redact.ts:119-129 | putting words and gaps together inverts the cut |
| Scanner.MapTokensAt | apps/dashboard/src/redact.ts:115-118 | each word is rewritten by itself, under the flag its nearest predecessor set |
| Scanner.ScanFixed | apps/dashboard/src/redact.ts:111-132 | if the word rules settle, so does the scanner, although flags may be lost between passes |
| RedactLines.ReluxPassSettles | apps/dashboard/src/redact.ts:96-118 | the shipped rules settle under every combination of flags and turn words into words |
| RedactLines.RedactLineKeepsShape | apps/dashboard/src/redact.ts:111-132 | same gaps, same number of words, each kept or masked, no unmasked token left |
| RedactLines.ValueAfterMarkerMasked | apps/dashboard/src/redact.ts:70-118 | the word after a secret key marker comes out as its wrappers around the placeholder |
| RedactLines.RedactLineIdempotent | apps/dashboard/src/redact.ts:111-132 | scrubbing a scrubbed line changes nothing |
| RedactLines.SplitJoin | apps/dashboard/src/redact.ts:138 | splitting inverts joining lines |
| RedactLines.RedactSecretsByLine | apps/dashboard/src/redact.ts:136-139 | the i-th output line is the i-th line scrubbed |
| RedactLines.RedactSecretsIdempotent | apps/dashboard/src/redact.ts:134-139 | re-running over redacted text changes nothing, for every text |
| StableMerge.SortByIsStable | apps/dashboard/src/reluxrunlog.ts:61 | the sort used is ordered and keeps equal ranks in order |
| StableMerge.StableSortUnique | apps/dashboard/src/reluxrunlog.ts:61 | a stable sort's result is unique, so the algorithm does not matter |
| StableMerge.MergeIsUnion | apps/dashboard/src/reluxrunlog.ts:45-61 | merging ascending key-consistent lists is their ordered union |
| StableMerge.MergeAssociates | apps/dashboard/src/reluxrunlog.ts:45-61 | the merge is associative on all lists, unsorted or with repeats |
| StableMerge.MergeIdempotentExactly | apps/dashboard/src/reluxrunlog.ts:45-61 | merging a list into itself changes nothing if and only if it is sorted and all its elements have an identity |
| StableMerge.MergeCommutes | apps/dashboard/src/reluxrunlog.ts:45-61 | on ascending key-consistent lists the merge is commutative |
| StableMerge.TailMergeAssociates | apps/dashboard/src/reluxruntranscript.ts:58-77 | with the early return for an empty reply, still associative on all lists |
| StableMerge.MergeMeans | apps/dashboard/src/reluxrunlog.ts:53-61 | the merge is the stable sort of exactly the held elements and the incoming ones without an identity or with a new one |
| StableMerge.TopGoesLast | apps/dashboard/src/reluxruntranscript.ts:71-75 | elements of the top rank keep their order behind all others |
| RunLog.LatestRunLogSeq | apps/dashboard/src/reluxrunlog.ts:36-43 | the cursor loop finds the highest number, none for a missing or empty log |
| RunLog.LatestNum | apps/dashboard/src/reluxrunlog.ts:34-43 | the cursor is a present number that no line exceeds, and is missing only for no lines |
| RunLog.MergeRunLog | apps/dashboard/src/reluxrunlog.ts:51-70 | the loops and the sort give the specified merge; a marker that the reply sent wins, the held one stays if none was sent |
| RunLog.MergedLinesLaws | apps/dashboard/src/reluxrunlog.ts:45-61 | the run-log merge is associative on all lists, and idempotent exactly on sorted ones |
| RunLog.MergedLinesCommute | apps/dashboard/src/reluxrunlog.ts:45-61 | on ascending consistent lists it is commutative and stays ascending |
| RunLog.MergedLinesInOrder | apps/dashboard/src/reluxrunlog.ts:61 | line numbers never go down along a merged log |
| RunEvents.MintedSeq | apps/dashboard/src/reluxruntranscript.ts:24-34 | the number parsed from a minted id is the counter, also past the pad width |
| RunEvents.ParseIntReads | apps/dashboard/src/reluxruntranscript.ts:28-34 | blanks, a sign, digits and any rest read as the signed number |
| RunEvents.ParseIntFails | apps/dashboard/src/reluxruntranscript.ts:28-34 | without a digit there is none |
| RunEvents.LatestReluxEventId | apps/dashboard/src/reluxruntranscript.ts:40-51 | the id of the first event with the highest number, none if no id parses |
| RunEvents.MergeReluxRunEvents | apps/dashboard/src/reluxruntranscript.ts:58-77 | the loops and the sort give the specified merge, with the early return |
| RunEvents.ReluxMergeOrder | apps/dashboard/src/reluxruntranscript.ts:53-77 | parsed events in numeric order, then the unparsed ones in their relative order |
| RunEvents.ReluxInOrder | apps/dashboard/src/reluxruntranscript.ts:53-77 | numbers never go down, and no event with a number stands behind one without |
| RunEvents.ReluxMergeLaws | apps/dashboard/src/reluxruntranscript.ts:58-77 | with the early return: associative on all transcripts, idempotent exactly on sorted ones |
| RunEvents.ReluxMergeCommutes | apps/dashboard/src/reluxruntranscript.ts:58-77 | commutative on ascending transcripts with one event per id |
| RunEvents.LatestEventId | apps/dashboard/src/runtranscript.ts:62-68 | the highest positive id, 0 for none |
| RunEvents.MergeRunEvents | apps/dashboard/src/runtranscript.ts:75-92 | the loops and the sort give the specified merge |
| RunEvents.IdlessKept | apps/dashboard/src/runtranscript.ts:70-92 | the merged transcript holds every event without an id, the held ones before the incoming ones, in order |
| RunEvents.EventsMergeOrder | apps/dashboard/src/runtranscript.ts:70-92 | the events with an id in id order, then those without one |
| RunEvents.EventsInOrder | apps/dashboard/src/runtranscript.ts:70-92 | ids never go down, and no event with an id stands behind one without |
| RunEvents.EventsMergeLaws | apps/dashboard/src/runtranscript.ts:75-92 | associative on all transcripts; idempotent exactly on sorted ones whose events all have ids |
| RunEvents.EventsMergeCommutes | apps/dashboard/src/runtranscript.ts:75-92 | commutative on ascending transcripts whose events all have ids, one event per id |
| LogPositions.ReplyIsSuffix | apps/dashboard/src/api.ts:3048-3056 | a reply is exactly the part of the log its cursor does not cover |
| LogPositions.MergeExtends | apps/dashboard/src/reluxrunlog.ts:45-61 | merging an overlapping tail into a held prefix gives the longer prefix |
| LogPositions.ReceivedPrefixExactly | apps/dashboard/src/reluxrunlog.ts:45-61 | merging any reply keeps a prefix of the log if and only if its new lines continue the held ones |
| LogPositions.SliceContinuesExactly | apps/dashboard/src/reluxrunlog.ts:45-61 | lines of the log itself do so if and only if there are none or they start no later than the held ones end |
| LogPositions.ForeignContinuesExactly | apps/dashboard/src/reluxrunlog.ts:45-61 | lines of a log that shares none do so if and only if all their numbers are held |
| TailProtocol.StepKeepsInv | apps/dashboard/src/pages/Work.tsx:2104-2182 | every safe step keeps the invariant: log growth, run switches, sends, and replies in any order, late or lost |
| TailProtocol.CurrentTailContinues | apps/dashboard/src/pages/Work.tsx:2134-2176 | a poll or refresh sent since the last switch always continues what is held |
| TailProtocol.DeliverTailKeepsInv | apps/dashboard/src/pages/Work.tsx:2134-2176 | a continuing poll or refresh keeps every held line in place |
| TailProtocol.RunsHoldPrefix | apps/dashboard/src/reluxrunlog.ts:36-70 | in every safe run from the start the held lines are a gap-free, ordered, duplicate-free prefix of the log of the run on show |
| TailProtocol.PollCatchesUp | apps/dashboard/src/pages/Work.tsx:2134-2176 | an undisturbed poll leaves the panel with the whole log, as one full fetch would |
| TailProtocol.NextPollIsEmpty | apps/dashboard/src/pages/Work.tsx:2134-2176 | and with its cursor moved, so that the next poll of the unchanged log is empty |
| TailProtocol.LoadIsSafeExactly | apps/dashboard/src/pages/Work.tsx:2104-2126 | no run that follows a load leaves a gap if and only if it overtakes no poll of its own showing; a load of an earlier showing never does |
| TailProtocol.TailIsSafeExactly | apps/dashboard/src/pages/Work.tsx:2134-2176 | no run that follows a poll or refresh leaves a gap if and only if its new lines continue the held ones |
| TailProtocol.OwnTailIsSafeExactly | apps/dashboard/src/pages/Work.tsx:2134-2176 | for the run on show: if and only if it is empty or its cursor is not beyond the lines held |
| TailProtocol.OtherTailIsSafeExactly | apps/dashboard/src/pages/Work.tsx:2134-2176 | for a reply that shares no line with the run on show: if and only if every number in it is held |
| TailProtocol.LateLoadIsReached | apps/dashboard/src/pages/Work.tsx:2104-2182 | a state with a late first load is reached from the start |
| TailProtocol.LateLoadLosesLine | apps/dashboard/src/pages/Work.tsx:2110-2176 | from there a line is lost behind a later one |
| TailProtocol.LoadedIsReached | apps/dashboard/src/pages/Work.tsx:2104-2126 | a state with a run on show is reached from the start |
| TailProtocol.PolledIsReached | apps/dashboard/src/pages/Work.tsx:2134-2176 | and from there one with a served poll in flight |
| TailProtocol.StaleTailIsReached | apps/dashboard/src/pages/Work.tsx:2101-2126 | switching runs and loading the new one leads on from there with the poll still in flight |
| TailProtocol.StaleTailStrays | apps/dashboard/src/pages/Work.tsx:2164-2176 | delivered then, the old run's line joins the new run's lines and moves the cursor |
| TailProtocol.StaleTailMixesRuns | apps/dashboard/src/pages/Work.tsx:2134-2176 | and the new run's line of that number is never fetched |
| TranscriptLines.MintedIsMinted | crates/relux-kernel/src/state.rs:11183-11185 | the kernel's and the dashboard's parse of a minted id both give its counter |
| TranscriptLines.MergeLines | apps/dashboard/src/reluxruntranscript.ts:58-77 | merging minted events is merging their lines |
| TranscriptLines.LatestLines | apps/dashboard/src/reluxruntranscript.ts:40-51 | the latest id stands for the latest number |
| TranscriptLines.TranscriptFacts | crates/relux-kernel/src/state.rs:10985-10987 | a transcript is in ascending order and holds the run's own events, each where its number says |
| TranscriptLines.ReplyLines | crates/relux-kernel/src/state.rs:10998-11012 | what the kernel sends for an id is what the log protocol sends for its number |
| TranscriptProtocol.StepSimulates | apps/dashboard/src/pages/Work.tsx:2072-2163 | every step of the transcript's protocol is the same step of the log protocol |
| TranscriptProtocol.RunsSimulate | apps/dashboard/src/pages/Work.tsx:2072-2163 | and so is every safe run, with the same end |
| TranscriptProtocol.RunsHoldPrefix | apps/dashboard/src/reluxruntranscript.ts:53-77 | in every safe run from the start the held events are a gap-free prefix of the transcript on show |
| TranscriptProtocol.TailIsSafeExactly | apps/dashboard/src/pages/Work.tsx:2155-2163 | no run that follows a tail leaves a gap if and only if its new events continue the held ones |
| TranscriptProtocol.OwnTailIsSafeExactly | apps/dashboard/src/pages/Work.tsx:2155-2163 | for the run on show: if and only if it is empty or its cursor is not beyond the events held |
| TranscriptProtocol.OtherTailIsSafeExactly | apps/dashboard/src/pages/Work.tsx:2155-2163 | for another run: if and only if it is empty |
| TranscriptProtocol.LoadIsSafeExactly | apps/dashboard/src/pages/Work.tsx:2075-2098 | no run that follows a load leaves a gap if and only if it overtakes no poll of its own showing |
| TranscriptProtocol.AskedIsReached | apps/dashboard/src/pages/Work.tsx:2072-2163 | a state with a poll in flight is reached from the start |
| TranscriptProtocol.LoadingIsReached | apps/dashboard/src/pages/Work.tsx:2072-2098 | from there by a run switch one in which the poll outlives its run |
| TranscriptProtocol.SwitchedIsReached | apps/dashboard/src/pages/Work.tsx:2081-2088 | then the load of the new run arrives |
| TranscriptProtocol.AnsweredIsReached | crates/relux-kernel/src/state.rs:10998-11012 | then both runs go on and the old poll is answered |
| TranscriptProtocol.LateTailStrays | apps/dashboard/src/pages/Work.tsx:2155-2163 | delivered then, the old run's event joins the new run's and moves the cursor |
| TranscriptProtocol.EventNeverFetched | apps/dashboard/src/pages/Work.tsx:2155-2163 | and an event of the new run is never fetched |
| Utf8Lossy.CutExactly | crates/relix-cli/src/build.rs:556 | decoding two pieces apart is decoding them together if and only if the cut is between characters |
| Utf8Lossy.ChunksExactly | crates/relix-cli/src/build.rs:551-556 | the same for any number of chunks; an unclean cut always adds characters |
| Utf8Lossy.LossyInvertsEncode | crates/relix-cli/src/build.rs:556 | on well-formed UTF-8 nothing is lost |
| Utf8Lossy.WholeCharacterChunks | crates/relix-cli/src/build.rs:551-556 | chunks of whole characters have only clean cuts |
| Utf8Spec.LossyMeans | crates/relix-cli/src/build.rs:556 | the encoding of a character reads as it; elsewhere the longest beginning of one, or else one byte, reads as one U+FFFD |
| Utf8Spec.LongestExists | crates/relix-cli/src/build.rs:556 | there always is a longest beginning, of at most three bytes |
| EventFramer.ParseMessage | crates/relix-cli/src/build.rs:563-571 | the field loop: the last event and data line count |
| EventFramer.Framer.Feed | crates/relix-cli/src/build.rs:555-580 | one chunk: the buffer loop drains every complete message, and stops at done |
| EventFramer.Framer.Run | crates/relix-cli/src/build.rs:549-583 | the outer loop, with the chunks left unread after done |
| EventFramer.StreamIsOneRead | crates/relix-cli/src/build.rs:549-583 | reading texts one by one is reading them at once, including what is left over |
| EventFramer.StopsReading | crates/relix-cli/src/build.rs:549-575 | chunks are taken while the reader is open, and none after a done |
| EventFramer.ChunkingIndependent | crates/relix-cli/src/build.rs:549-583 | for every chunking between characters: same entries, same end, same buffer while open |
| EventFramer.ReadingOnExtends | crates/relix-cli/src/build.rs:553-555 | stopping early loses only a suffix of the entries |
| EventFramer.AfterDone | crates/relix-cli/src/build.rs:575 | nothing after a done is acted on |
| EventFramer.CutInsideCharacterShows | crates/relix-cli/src/build.rs:556 | a character cut in two does not read as the character |
| FramerSpec.FieldsMean | crates/relix-cli/src/build.rs:563-571 | the last line with a field decides, and its value is what stands there between blanks |
| FramerSpec.SaysUnique | crates/relix-cli/src/build.rs:563-571 | a message says at most one value for a field |
| FramerSpec.StreamReads | crates/relix-cli/src/build.rs:549-583 | for every list of messages and unfinished rest: what is printed, whether the reader stays open, what it keeps |
| FramerSpec.ChunkedStreamReads | crates/relix-cli/src/build.rs:549-583 | the same for its bytes in any chunks that cut no character |
| FramerSpec.WrittenStreamReads | crates/relix-cli/src/build.rs:557-577 | of messages as the server writes them: exactly the payloads of the entries before the first done, closed if and only if there is one |
| FramerSpec.WhiteCodes | crates/relix-cli/src/build.rs:565 | the white space that is trimmed, by its code points |
| Orchestration.OrchestrationProgress | apps/dashboard/src/orchestration.ts:64-79 | each tally is the number of briefs with that outcome, and they add up |
| Orchestration.OrchestrationReadiness | apps/dashboard/src/orchestration.ts:162-192 | completed and failed are the recorded ones, blocked adds the pending that wait on a failed or blocked brief, ready are those whose dependencies all completed, waiting the rest |
| Orchestration.LifecycleMeans | apps/dashboard/src/orchestration.ts:100-116 | the class of each brief, in terms of recorded outcomes |
| Orchestration.NeverStuck | apps/dashboard/src/orchestration.ts:100-116 | with earlier-only dependencies, while a brief is pending some pending brief is ready or blocked |
| Orchestration.BatchIsShort | README.md:764-773 | every round resolves a brief, so a batch has at most as many rounds as pending briefs |
| Orchestration.BatchEndsComplete | README.md:751-773 | a batch that cannot continue has left nothing pending |
| Orchestration.RunsOnce | README.md:771-773 | a brief that ran is never run or blocked again |
| Orchestration.OutcomesStand | README.md:764-773 | a recorded outcome is never changed |
| Orchestration.ScheduleIndependent | README.md:764-773 | rounds, grouping and cap do not matter: every complete batch records each brief's verdict |
| Orchestration.BatchKeepsCompletion | README.md:764-770 | completed briefs keep all their dependencies completed |
| Orchestration.CompletedAllTheWay | README.md:764-770 | a completed brief has all its transitive dependencies completed |
| Orchestration.CycleIsStuck | README.md:754-755 | without the order condition two briefs can wait forever |
| Graph.RedirectExactly | apps/dashboard/src/reparent.ts:7-12 | redirecting an edge keeps a graph acyclic if and only if the new target does not lead back |
| Hierarchy.BuildReports | apps/dashboard/src/hierarchy.ts:23-30 | the first loop lists every lead's direct reports in roster order |
| Hierarchy.ReportsInOrder | apps/dashboard/src/hierarchy.ts:23-30 | direct reports are the records that name the id, at exactly those positions |
| Hierarchy.DescendantIds | apps/dashboard/src/hierarchy.ts:18-40 | terminates on every roster and returns exactly the ids that reach the root, itself if and only if it lies on a cycle |
| Hierarchy.SubordinateIds | apps/dashboard/src/governance.ts:381-407 | the same ids, each once; the root if and only if it lies on a cycle |
| Hierarchy.ManagerOptions | apps/dashboard/src/hierarchy.ts:46-51 | everyone at exactly the positions outside self and its branch, in roster order; everyone without a self |
| Hierarchy.ManagerOptionsExact | apps/dashboard/src/hierarchy.ts:42-51 | an acyclic roster stays acyclic if and only if the chosen lead is offered |
| Hierarchy.RootInsideCycle | apps/dashboard/src/hierarchy.ts:18-21 | two members who lead each other reach themselves |
| Reparent.ParentOf | apps/dashboard/src/reparent.ts:23-29 | the loop builds the parent map, the last record of an id winning |
| Reparent.ParentMapMeans | apps/dashboard/src/reparent.ts:23-29 | an id's parent is that of its last record that names one |
| Reparent.IsDescendantOf | apps/dashboard/src/reparent.ts:40-52 | the guarded walk finds the ancestor if and only if it is 1 to 64 edges up |
| Reparent.TaskDescendants | apps/dashboard/src/reparent.ts:57-64 | exactly the listed ids with the root 1 to 64 edges up |
| Reparent.CandidateParents | apps/dashboard/src/reparent.ts:70-83 | exactly the offered positions of the board, stably sorted by the collation; none for an unknown id |
| Reparent.CollationIsKey | apps/dashboard/src/reparent.ts:83 | on the ids of one board every collation is a numeric key |
| Reparent.TaskDescendantsExact | apps/dashboard/src/reparent.ts:54-64 | a task whose own chain is within the cap is listed if and only if it is a transitive descendant |
| Reparent.OfferedMoveExactly | apps/dashboard/src/reparent.ts:7-12 | an offered move closes no cycle if and only if the new parent is not a descendant beyond the cap |
| Reparent.MoveKeepsNamespaces | apps/dashboard/src/reparent.ts:66-83 | an offered move keeps every edge in one namespace |
| Reparent.MovesStaySafeExactly | apps/dashboard/src/reparent.ts:66-83 | any sequence of offered moves keeps the forest acyclic and in its namespaces at every step if and only if none goes under a descendant beyond the cap |
| Reparent.MovesUnderFittingParents | apps/dashboard/src/reparent.ts:66-83 | for which it is enough that the chain above each chosen parent is within the cap |
| Reparent.DeepMoveClosesCycle | apps/dashboard/src/reparent.ts:31-52 | beyond the cap an offered move can close a cycle |
| Reparent.NotOfferedAtTheCap | apps/dashboard/src/reparent.ts:34-52 | 64 edges down a task is not offered |
| Reconnect.Subscription.constructor | apps/dashboard/src/api.ts:907-955 | subscribing connects at once |
| Reconnect.Subscription.OnOpen | apps/dashboard/src/api.ts:925-929 | a connection resets the count and the delay and reports itself live |
| Reconnect.Subscription.OnError | apps/dashboard/src/api.ts:948-956 | an error closes the source and, unless closed, schedules the next attempt |
| Reconnect.Subscription.OnNotFound | apps/dashboard/src/api.ts:937-944 | the terminal event closes, reports and tells the client it is gone |
| Reconnect.Subscription.OnTimer | apps/dashboard/src/api.ts:919-957 | the timer reconnects unless closed |
| Reconnect.Subscription.Stop | apps/dashboard/src/api.ts:960-965 | unsubscribe closes the source and clears the timer |
| Reconnect.StepKeepsInv | apps/dashboard/src/api.ts:706-762 | delay law, one open source at most, honest reports, gone at most once: kept whatever callbacks do |
| Reconnect.ExactlyOneMode | apps/dashboard/src/api.ts:706-762 | in every run: one open source, or one pending timer, or closed with neither |
| Reconnect.QuietExactly | apps/dashboard/src/api.ts:729-761 | from a quiet state: quiet if and only if no re-entrant unsubscribe, a source left if and only if from a reconnect's callback, a timer if and only if from a failure's |
| Reconnect.ClosedRunsOpenNothing | apps/dashboard/src/api.ts:907-966 | after unsubscribe or not_found no source is opened again, in any run |
| Reconnect.QuietForGood | apps/dashboard/src/api.ts:985-1045 | a quiet closed subscription tells its callbacks nothing more |
| Reconnect.ReentrantUnsubscribeLeaks | apps/dashboard/src/api.ts:729-737 | unsubscribing inside the reconnect callback leaves a live source |
| Reconnect.DelaysAre | apps/dashboard/src/api.ts:750-757 | the waits are 1, 2, 4 and 8 seconds, then 15 |
| Reconnect.NotFoundEnds | apps/dashboard/src/api.ts:937-944 | the terminal event leaves nothing open or pending and says so |
| Reconnect.GoneExactly | apps/dashboard/src/api.ts:937-944 | in every run the client is told that the stream is gone if and only if the terminal event came, and once |
| Debounce.Subscription.OnFrame | apps/dashboard/src/invalidate.ts:65-104 | a matching frame restarts the timer, any other is ignored |
| Debounce.NoEmitLost | apps/dashboard/src/invalidate.ts:78-108 | every run keeps it: every matching emit heard is followed by a refetch, or one is pending, unless unsubscribed |
| Debounce.NoEmitLostFromStart | apps/dashboard/src/invalidate.ts:78-108 | from a new subscription on, so is every matching emit before the first unsubscribe, and refetches never outnumber them |
| Debounce.HearsMatchingEmits | apps/dashboard/src/invalidate.ts:65-76 | a subscription hears exactly the matching emits until it unsubscribes |
| Debounce.MatchingEmitsAre | apps/dashboard/src/invalidate.ts:65-76 | the matching emits are those that name a wanted key and pass the filter, before the first unsubscribe, in order |
| Debounce.EachConcernCovered | apps/dashboard/src/invalidate.ts:78-108 | each such emit is followed by a refetch, or one is pending, unless unsubscribed |
| Debounce.SilentAfterStop | apps/dashboard/src/invalidate.ts:105-108 | after unsubscribe nothing fires |
| Debounce.BurstRefetchesOnce | apps/dashboard/src/invalidate.ts:78-84 | a burst with gaps under the debounce refetches exactly once |
| Debounce.SubscriptionsDoNotInterfere | apps/dashboard/src/invalidate.ts:48-76 | on the shared bus each subscription behaves as it would alone |
| InboxGroups.BuildInboxGroups | apps/dashboard/src/inbox.ts:517-550 | the loop with its order and map builds the specified cards |
| InboxGroups.CardShows | apps/dashboard/src/inbox.ts:465-548 | title, heading, age, severity and collapsing of every card, in terms of its members |
| InboxGroups.SameCardExactly | apps/dashboard/src/inbox.ts:454-463 | two items share a card if and only if they belong to the same subtree, or to none and have the same id |
| InboxGroups.CardRoot | apps/dashboard/src/inbox.ts:531-534 | a card's root is the subtree of its items |
| InboxGroups.OldestAge | apps/dashboard/src/inbox.ts:491-500 | the loop finds the oldest known age |
| InboxGroups.WorstSeverity | apps/dashboard/src/inbox.ts:483-488 | the fold finds a member's severity that none outranks |
| InboxGroups.KindCountsExact | apps/dashboard/src/inbox.ts:502-511 | a kind is listed with the number of members that have it, if any has |
| InboxGroups.KindCountsAddUp | apps/dashboard/src/inbox.ts:136-141 | the counts come in section order and add up to the members |
| InboxGroups.CardsPartition | apps/dashboard/src/inbox.ts:517-530 | each item is in exactly the card of its key, as often as in the inbox |
| InboxGroups.CardIsSubsequence | apps/dashboard/src/inbox.ts:517-530 | a card is the subsequence of the inbox at exactly the positions of its key |
| InboxGroups.OrderIsByFirst | apps/dashboard/src/inbox.ts:513-516 | cards appear in the order of their first items |
| InboxGroups.CardsByUrgency | apps/dashboard/src/inbox.ts:513-548 | on a severity-sorted inbox cards show their first member's severity and are sorted by it |
| InboxGroups.SoloStaysAlone | apps/dashboard/src/inbox.ts:454-463 | an item with a key of its own shares it only with its id |
| InboxGroups.BlankTitleExactly | apps/dashboard/src/inbox.ts:465-480 | a subtree title is blank if and only if the root is a member with an empty or prefix-only title |
| InboxGroups.BlankHeadingExactly | apps/dashboard/src/inbox.ts:532-548 | the same for the heading of a collapsed card |
| InboxGroups.BlankHeading | apps/dashboard/src/inbox.ts:465-480 | a card without a heading, built from two items |
| RunRollup.RollupRuns | apps/dashboard/src/runrollup.ts:111-145 | the loop gives the specified tallies and flags |
| RunRollup.RolledMeans | apps/dashboard/src/runrollup.ts:108-145 | every total is the plain sum over the subtree's runs, every count the number of runs that carry the amount or have the status |
| RunRollup.OrderPlaysNoPart | apps/dashboard/src/runrollup.ts:108-145 | the order of the runs plays no part |
| RunRollup.ListsAddUp | apps/dashboard/src/runrollup.ts:108-145 | rollups of two lists add up |
| RunRollup.SubtreesAddUp | apps/dashboard/src/runrollup.ts:108-145 | disjoint subtrees add up; what two subtrees share is counted once |
| RunRollup.BucketsAddUp | apps/dashboard/src/runrollup.ts:35-46 | every counted run is in one bucket, and coverage never exceeds the runs |
| RunRollup.KnownExactly | apps/dashboard/src/runrollup.ts:15-20 | a metric is known if and only if some run of the subtree reported it, be it zero; an unknown one is zero |
| Skills.SlugifySkill | apps/dashboard/src/skills.ts:16-31 | the loop with its early exit |
| Skills.SlugifyIsSlug | apps/dashboard/src/skills.ts:13-31 | every result is in the slug grammar |
| Skills.SlugifyIdentity | apps/dashboard/src/skills.ts:13-31 | slugs, also behind blanks, are fixed points |
| Skills.ParseSkillsInput | apps/dashboard/src/skills.ts:36-44 | the loop with its cap |
| Skills.ParseInvertsFormat | apps/dashboard/src/skills.ts:33-49 | parsing inverts formatting on at most 16 distinct non-empty slugs |
| Skills.ParseIsNormal | apps/dashboard/src/skills.ts:33-49 | a parsed list is such a list and survives being shown and parsed again |
| SkillsSpec.SlugifyMeans | apps/dashboard/src/skills.ts:13-31 | letters and digits stay, other runs become a hyphen, cut at 32, hyphens off both ends |
| SkillsSpec.SplitMeans | apps/dashboard/src/skills.ts:38 | the text is cut at every comma and line break and nowhere else |
| SkillsSpec.ParseMeans | apps/dashboard/src/skills.ts:33-44 | the list is the first sixteen new slugs of the parts, in order |
| SkillsSpec.BlankJoins | apps/dashboard/src/skills.ts:33-38 | two words with a blank between them are one skill |
| PercentEncoding.UrlEncode | crates/relix-cli/src/approval.rs:234-246 | the byte loop |
| PercentEncoding.EncodeByteMeans | crates/relix-cli/src/approval.rs:237-243 | letters, digits and four marks stand for themselves, every other byte is a percent sign and two upper-case hex digits |
| PercentEncoding.DecodeInvertsEncode | crates/relix-cli/src/approval.rs:234-246 | a decoder is a left inverse on every byte string |
| PercentEncoding.EncodeInvertsDecode | crates/relix-cli/src/approval.rs:234-246 | encoding inverts decoding on normal input |
| PercentEncoding.EncodedIsNormal | crates/relix-cli/src/build.rs:602-613 | no triplet stands for an unreserved character |
| PercentEncoding.EncodeInjective | crates/relix-cli/src/approval.rs:234-246 | no two byte strings encode alike |
| PercentEncoding.EncodeConcat | crates/relix-cli/src/approval.rs:234-246 | encoding distributes over concatenation |
| SessionCountdown.FormatDuration | apps/dashboard/src/account.ts:63-80 | the subtractions give the text of the coarsest two non-zero units |
| SessionCountdown.SpelledMeans | apps/dashboard/src/account.ts:71-79 | the letter behind each count, and the blank between two |
| SessionCountdown.SpelledReadsBack | apps/dashboard/src/account.ts:71-79 | the text can be read back: no two lists of parts are spelled alike |
| SessionCountdown.TextSaysReadout | apps/dashboard/src/account.ts:57-80 | the text names one or two units and stands for the readout |
| SessionCountdown.ReadoutBounds | apps/dashboard/src/account.ts:57-80 | the readout never overstates, and drops under an hour, under a minute below a day |
| SessionCountdown.ReadoutMonotone | apps/dashboard/src/account.ts:57-80 | a smaller time is never shown as a larger one |
| SessionCountdown.SessionWarning | apps/dashboard/src/account.ts:166-189 | the candidates and their order give the specified warning |
| SessionCountdown.WarningIsMostUrgent | apps/dashboard/src/account.ts:159-189 | the warning is a window inside its own threshold that no urgent one undercuts, the absolute one on a tie |
| SessionCountdown.WarningMeans | apps/dashboard/src/account.ts:99-189 | in plain arithmetic: 1800 and 600 seconds, what is left after the elapsed ones, which window is named |
| SessionCountdown.ElapsedMeans | apps/dashboard/src/account.ts:82-94 | whole seconds since the anchor, none for a clock behind it |
| SessionCountdown.CountdownTicks | apps/dashboard/src/account.ts:82-113 | each whole second takes one off the countdown of the same window, down to zero |
| SessionCountdown.CountdownNeverRises | apps/dashboard/src/account.ts:92-113 | for fixed metadata a shown warning stays and its countdown never goes up |

## Left out

- Text lengths count characters, not UTF-16 code units, so the 6- and 12-unit limits of `redact.ts` differ on text outside the basic plane.
- `investigateseed.ts` (a regular-expression scrubber), JSON parsing, and the label and status tables.
- Server-side dropping of old log lines, and the switch from the live tail to the persisted log: the log only grows.
- Wire fields of the wrong JavaScript type; numbers are exact, so parsed ids beyond 2^53 do not round, the kernel's 64-bit parse does not overflow, and sums of costs do not depend on rounding.
- The chips and number formats of `runrollup.ts`: one branch each.
- The kernel's scheduler, run-log store and cycle checks are not part of this model; rounds follow README.md, any non-empty choice of ready and gated briefs being a round.
- EventStream fields other than `event` and `data`, CR-only line ends and multi-line data: the reader ignores them, and so does the model. HTTP and printing are inputs and outputs.
- TailProtocol.RunsHoldPrefix: speaks of runs in which no load overtakes a poll and no stale reply strays, because in the others it is false, as `LoadIsSafeExactly` and `TailIsSafeExactly` show.
- TranscriptProtocol.RunsHoldPrefix: speaks of such runs too, because in the others it is false, as `TranscriptProtocol.LoadIsSafeExactly` and `TranscriptProtocol.TailIsSafeExactly` show.
- Reconnect.ExactlyOneMode: speaks of runs without a re-entrant unsubscribe, because in the others it is false, as `QuietExactly` shows.
- Message payloads of the subscriptions, and `subscribeRuns`, which repeats `subscribeRunEvents`.
- `managerSubtreeActions` and the permission grammar of `governance.ts`: string splitting and one-branch rules.
- The batch bound `--max`: it only cuts a batch short, and every result about batches holds of each prefix.
- Search, filters and the flat sections of `inbox.ts`, and the labels of the kinds.
